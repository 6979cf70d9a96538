/** Booking by usernames (`AppointmentViewSet.create`): look up the doctor and
    the patient, parse the timestamp, refuse an exact duplicate, append a
    scheduled appointment and notify both parties. */
module Booking {
  import opened Wrappers
  import opened Clock
  import opened Models
  import Store

  /** The outcome of the checks, in the order the view runs them. */
  datatype Booking =
    | NotFound                                          // 404: no role-2 doctor or no role-3 patient
    | InvalidDateTime                                   // 400: the date or time does not parse
    | Duplicate                                         // 400: the exact triple is already stored
    | Create(doctor: User, patient: User, at: Timestamp) // 201
  {
    /** The HTTP status of the response. */
    function Code(): int {
      match this
      case NotFound => 404
      case InvalidDateTime => 400
      case Duplicate => 400
      case Create(_, _, _) => 201
    }
  }

  /** An appointment with this doctor, patient and timestamp, whatever its status. */
  predicate HasTriple(appts: seq<Appointment>, doctor: nat, patient: nat, t: Timestamp) {
    exists a :: a in appts && a.doctor == doctor && a.patient == patient && a.at == t
  }

  /** The decision of `create`: both lookups first (either one missing is a 404),
      then the parse (400), then the exact-triple test (400). There is no test of
      the doctor's other appointments and no test against the current time. */
  function Decide(users: seq<User>, appts: seq<Appointment>,
                  doctorName: string, patientName: string, when: Option<Timestamp>): (r: Booking)
    ensures r.Create? ==> r.doctor in users && r.doctor.username == doctorName && r.doctor.role == DOCTOR
    ensures r.Create? ==> r.patient in users && r.patient.username == patientName && r.patient.role == PATIENT
    ensures r.Create? ==> when == Some(r.at) && !HasTriple(appts, r.doctor.id, r.patient.id, r.at)
  {
    match (GetUser(users, doctorName, DOCTOR), GetUser(users, patientName, PATIENT))
    case (Some(d), Some(p)) =>
      if when.None? then InvalidDateTime
      else if exists a :: a in appts && a.doctor == d.id && a.patient == p.id && a.at == when.value then Duplicate
      else Create(d, p, when.value)
    case _ => NotFound
  }

  /** Each failure happens exactly under its condition, checked in the view's
      order: a missing user wins over a bad timestamp, which wins over a duplicate. */
  lemma DecideFailures(users: seq<User>, appts: seq<Appointment>,
                       doctorName: string, patientName: string, when: Option<Timestamp>)
    requires UniqueUsernames(users)
    ensures Decide(users, appts, doctorName, patientName, when) == NotFound <==>
            !HoldsRole(users, doctorName, DOCTOR) || !HoldsRole(users, patientName, PATIENT)
    ensures Decide(users, appts, doctorName, patientName, when) == InvalidDateTime <==>
            HoldsRole(users, doctorName, DOCTOR) && HoldsRole(users, patientName, PATIENT) && when.None?
    ensures Decide(users, appts, doctorName, patientName, when) == Duplicate <==>
            when.Some? &&
            exists d, p :: d in users && d.username == doctorName && d.role == DOCTOR &&
                           p in users && p.username == patientName && p.role == PATIENT &&
                           HasTriple(appts, d.id, p.id, when.value)
  {
    var gd := GetUser(users, doctorName, DOCTOR);
    var gp := GetUser(users, patientName, PATIENT);
    if gd.Some? && gp.Some? {
      forall d, p | d in users && d.username == doctorName && d.role == DOCTOR &&
                    p in users && p.username == patientName && p.role == PATIENT
        ensures d == gd.value && p == gp.value
      {
        SameUsernameSameUser(users, d, gd.value);
        SameUsernameSameUser(users, p, gp.value);
      }
    }
  }

  /** A canceled appointment with the same triple still blocks rebooking: the
      duplicate test ignores the status. */
  lemma CanceledTripleStillDuplicate(users: seq<User>, appts: seq<Appointment>, d: User, p: User, a: Appointment)
    requires UniqueUsernames(users)
    requires d in users && d.role == DOCTOR && p in users && p.role == PATIENT
    requires a in appts && a.doctor == d.id && a.patient == p.id && a.status == Canceled
    ensures Decide(users, appts, d.username, p.username, Some(a.at)) == Duplicate
  {
    GetUserIsTheMatch(users, d, DOCTOR);
    GetUserIsTheMatch(users, p, PATIENT);
  }

  /** A doctor already booked at `t` by one patient can be booked at `t` by
      another: nothing compares against the doctor's other appointments. */
  lemma DoubleBookingAccepted(users: seq<User>, appts: seq<Appointment>, d: User, p: User, t: Timestamp)
    requires UniqueUsernames(users)
    requires d in users && d.role == DOCTOR && p in users && p.role == PATIENT
    requires !HasTriple(appts, d.id, p.id, t)
    ensures Decide(users, appts, d.username, p.username, Some(t)) == Create(d, p, t)
    ensures Decide(users, appts + [Appointment(0, d.id, p.id, t, Scheduled)], d.username, p.username, Some(t)) == Duplicate
  {
    GetUserIsTheMatch(users, d, DOCTOR);
    GetUserIsTheMatch(users, p, PATIENT);
    var a := Appointment(0, d.id, p.id, t, Scheduled);
    assert a in appts + [a];
  }

  /** What `send_telegram_notification(appointment, "scheduled")` sends: one
      message about the patient for the doctor and one about the doctor for the
      patient, both to the same configured chat. */
  datatype Notice =
    | ToDoctor(patient: string, at: Timestamp)
    | ToPatient(doctor: string, at: Timestamp, action: string)

  /** `create` against the database. On success exactly one scheduled
      appointment is appended and the two notices are returned for delivery;
      on any failure nothing is written and nothing is sent. */
  method Book(db: Store.Database, doctorName: string, patientName: string, when: Option<Timestamp>)
    returns (r: Booking, notices: seq<Notice>)
    requires db.Valid()
    modifies db
    ensures db.Valid()
    ensures r == Decide(old(db.users), old(db.appointments), doctorName, patientName, when)
    ensures db.users == old(db.users) && db.hours == old(db.hours)
    ensures db.nextAppointmentId == if r.Create? then old(db.nextAppointmentId) + 1 else old(db.nextAppointmentId)
    ensures r.Create? ==>
              db.appointments == old(db.appointments) + [Appointment(old(db.nextAppointmentId), r.doctor.id, r.patient.id, r.at, Scheduled)]
    ensures r.Create? ==> notices == [ToDoctor(r.patient.username, r.at), ToPatient(r.doctor.username, r.at, "scheduled")]
    ensures !r.Create? ==> db.appointments == old(db.appointments) && notices == []
    ensures UniqueTriples(old(db.appointments)) ==> UniqueTriples(db.appointments)
    ensures RoleLimitsHold(old(db.Contents())) ==> RoleLimitsHold(db.Contents())
  {
    r := Decide(db.users, db.appointments, doctorName, patientName, when);
    notices := [];
    if r.Create? {
      var a := Appointment(db.nextAppointmentId, r.doctor.id, r.patient.id, r.at, Scheduled);
      ghost var before := db.appointments;
      db.appointments := db.appointments + [a];
      db.nextAppointmentId := db.nextAppointmentId + 1;
      assert HasUser(db.users, a.doctor) && HasUser(db.users, a.patient);
      assert HasUserWithRole(db.users, a.doctor, DOCTOR) && HasUserWithRole(db.users, a.patient, PATIENT);
      if UniqueTriples(before) {
        forall i, j | 0 <= i < j < |db.appointments|
          ensures !(db.appointments[i].doctor == db.appointments[j].doctor &&
                    db.appointments[i].patient == db.appointments[j].patient &&
                    db.appointments[i].at == db.appointments[j].at)
        {
          if j == |before| {
            assert db.appointments[i] in before;
          } else {
            assert db.appointments[i] == before[i] && db.appointments[j] == before[j];
          }
        }
      }
      notices := [ToDoctor(r.patient.username, r.at), ToPatient(r.doctor.username, r.at, "scheduled")];
    }
  }
}
