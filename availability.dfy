/** The availability check: is a doctor free at an exact timestamp, and if not,
    which other doctors cover the one-hour slot and which windows of the same
    doctor are offered instead. Also the doctor listing. */
module Availability {
  import opened Wrappers
  import opened Clock
  import opened Query
  import opened Models

  /** A working window as the response lists it: its start and end time. */
  datatype TimeWindow = TimeWindow(start: Minute, end: Minute)

  /** The responses of the check. `ServerError` is the uncaught ValueError of a
      date or time that does not parse: the parse runs before, and outside, the
      `try` that turns a missing doctor into a 404. */
  datatype CheckResponse =
    | ServerError
    | DoctorNotFound
    | Available(doctor: string, at: Timestamp)
    | Unavailable(doctors: seq<string>, times: seq<TimeWindow>)
  {
    /** The HTTP status of the response. */
    function Code(): int {
      match this
      case ServerError => 500
      case DoctorNotFound => 404
      case _ => 200
    }
  }

  /** Appointment `a` occupies doctor `doctor` at exactly `t`. */
  predicate Blocks(a: Appointment, doctor: nat, t: Timestamp) {
    a.doctor == doctor && a.at == t && a.status == Scheduled
  }

  /** The doctor has a scheduled appointment at exactly `t`. */
  predicate Booked(appts: seq<Appointment>, doctor: nat, t: Timestamp) {
    exists a :: a in appts && Blocks(a, doctor, t)
  }

  /** `doctor_appointments.exists()`: the scheduled appointments of the doctor at `t`. */
  function ScheduledAt(appts: seq<Appointment>, doctor: nat, t: Timestamp): (r: seq<Appointment>)
    ensures |r| > 0 <==> Booked(appts, doctor, t)
  {
    var r := Filter(appts, (a: Appointment) => a.doctor == doctor && a.at == t && a.status == Scheduled);
    assert |r| > 0 ==> r[0] in r;
    r
  }

  /** The inclusion filter of the alternative-doctor query: a window of `doctor`
      on the requested weekday that starts no later than the slot and ends no
      earlier than the slot's end, the latter taken as a time of day. */
  predicate CoversSlot(h: WorkingHour, doctor: nat, t: Timestamp) {
    h.doctor == doctor && h.day == WeekdayOf(t) && h.start <= t.minute && h.end >= SlotEnd(t)
  }

  /** The windows of `doctor` that cover the slot at `t`. */
  function CoveringWindows(hours: seq<WorkingHour>, doctor: nat, t: Timestamp): (r: seq<WorkingHour>)
    ensures forall h :: h in r <==> h in hours && CoversSlot(h, doctor, t)
  {
    Filter(hours, (h: WorkingHour) => CoversSlot(h, doctor, t))
  }

  /** A user the alternative-doctor query returns: role 2, not the requested
      doctor, and with a covering window. Deleted users are not filtered out. */
  predicate IsAlternative(u: User, hours: seq<WorkingHour>, doctor: nat, t: Timestamp) {
    u.role == DOCTOR && u.id != doctor && exists h :: h in hours && CoversSlot(h, u.id, t)
  }

  /** The usernames of the alternative-doctor query. The join over working hours
      has no `distinct`, so a user is listed once per covering window. */
  function AlternativeDoctors(users: seq<User>, hours: seq<WorkingHour>, doctor: nat, t: Timestamp): (r: seq<string>)
    ensures forall name :: name in r ==> exists u :: u in users && u.username == name && u.role == DOCTOR && u.id != doctor
  {
    if users == [] then []
    else
      var u := users[0];
      assert users == [u] + users[1..];
      var n := if u.role == DOCTOR && u.id != doctor then |CoveringWindows(hours, u.id, t)| else 0;
      seq(n, i => u.username) + AlternativeDoctors(users[1..], hours, doctor, t)
  }

  /** A name is listed exactly when it belongs to a user the query selects. */
  lemma {:induction false} AlternativeDoctorsMembers(users: seq<User>, hours: seq<WorkingHour>, doctor: nat, t: Timestamp, name: string)
    ensures name in AlternativeDoctors(users, hours, doctor, t) <==>
            exists u :: u in users && u.username == name && IsAlternative(u, hours, doctor, t)
  {
    if users != [] {
      var u := users[0];
      var n := if u.role == DOCTOR && u.id != doctor then |CoveringWindows(hours, u.id, t)| else 0;
      var head := seq(n, i => u.username);
      AlternativeDoctorsMembers(users[1..], hours, doctor, t, name);
      assert users == [u] + users[1..];
      RepeatCount(u.username, n, name);
      assert name in head <==> multiset(head)[name] > 0;
      if n > 0 {
        assert CoveringWindows(hours, u.id, t)[0] in CoveringWindows(hours, u.id, t);
      }
      if u.username == name && IsAlternative(u, hours, doctor, t) {
        var h :| h in hours && CoversSlot(h, u.id, t);
        assert h in CoveringWindows(hours, u.id, t);
        assert head[0] == name;
      }
    }
  }

  /** `multiset(seq(n, _ => x))` holds `x` exactly `n` times and nothing else. */
  lemma {:induction false} RepeatCount(x: string, n: nat, y: string)
    ensures multiset(seq(n, i => x))[y] == if y == x then n else 0
  {
    if n > 0 {
      assert seq(n, i => x) == seq(n - 1, i => x) + [x];
      RepeatCount(x, n - 1, y);
    }
  }

  /** Under unique usernames, an alternative doctor is listed once per window
      that covers the slot: a doctor with two covering windows appears twice. */
  lemma {:induction false} AlternativeDoctorMultiplicity(users: seq<User>, hours: seq<WorkingHour>, doctor: nat, t: Timestamp, u: User)
    requires UniqueUsernames(users)
    requires u in users && u.role == DOCTOR && u.id != doctor
    ensures multiset(AlternativeDoctors(users, hours, doctor, t))[u.username] == |CoveringWindows(hours, u.id, t)|
  {
    var v := users[0];
    var rest := users[1..];
    assert users == [v] + rest;
    var n := if v.role == DOCTOR && v.id != doctor then |CoveringWindows(hours, v.id, t)| else 0;
    RepeatCount(v.username, n, u.username);
    assert UniqueUsernames(rest) by {
      forall i, j | 0 <= i < |rest| && 0 <= j < |rest| && rest[i].username == rest[j].username
        ensures i == j
      {
        assert users[i + 1] == rest[i] && users[j + 1] == rest[j];
      }
    }
    if v == u {
      AlternativeDoctorsMembers(rest, hours, doctor, t, u.username);
      forall w | w in rest
        ensures w.username != u.username
      {
        var k :| 0 <= k < |rest| && rest[k] == w;
        assert users[k + 1] == w && users[0] == u;
      }
      assert u.username !in AlternativeDoctors(rest, hours, doctor, t);
    } else {
      if v.username == u.username {
        SameUsernameSameUser(users, v, u);
      }
      assert u in rest;
      AlternativeDoctorMultiplicity(rest, hours, doctor, t, u);
    }
  }

  /** The requested doctor is never suggested as an alternative to themselves. */
  lemma RequestedDoctorNotSuggested(users: seq<User>, hours: seq<WorkingHour>, d: User, t: Timestamp)
    requires UniqueUsernames(users)
    requires d in users
    ensures d.username !in AlternativeDoctors(users, hours, d.id, t)
  {
    AlternativeDoctorsMembers(users, hours, d.id, t, d.username);
    forall u | u in users && u.username == d.username
      ensures !IsAlternative(u, hours, d.id, t)
    {
      SameUsernameSameUser(users, u, d);
    }
  }

  /** The exclusion filter of the alternative-time query keeps a window of the
      doctor on that weekday unless it starts at or after the slot and ends at or
      before the slot's end (as a time of day). */
  predicate Offered(h: WorkingHour, doctor: nat, t: Timestamp) {
    h.doctor == doctor && h.day == WeekdayOf(t) && !(h.start >= t.minute && h.end <= SlotEnd(t))
  }

  /** The alternative-time query, as (start, end) pairs in stored order. */
  function AlternativeTimes(hours: seq<WorkingHour>, doctor: nat, t: Timestamp): (r: seq<TimeWindow>)
    ensures |r| <= |hours|
    ensures forall w :: w in r ==> exists h :: h in hours && h.doctor == doctor && h.day == WeekdayOf(t) && w == TimeWindow(h.start, h.end)
  {
    if hours == [] then []
    else
      var h := hours[0];
      assert hours == [h] + hours[1..];
      (if Offered(h, doctor, t) then [TimeWindow(h.start, h.end)] else []) + AlternativeTimes(hours[1..], doctor, t)
  }

  /** The listed times are exactly the doctor's windows on that weekday minus
      those lying inside [t, t + 1 hour]. */
  lemma {:induction false} AlternativeTimesMembers(hours: seq<WorkingHour>, doctor: nat, t: Timestamp, w: TimeWindow)
    ensures w in AlternativeTimes(hours, doctor, t) <==>
            exists h :: h in hours && Offered(h, doctor, t) && w == TimeWindow(h.start, h.end)
  {
    if hours != [] {
      assert hours == [hours[0]] + hours[1..];
      AlternativeTimesMembers(hours[1..], doctor, t, w);
    }
  }

  /** One window per offered stored window: nothing is merged or split. */
  lemma {:induction false} AlternativeTimesCount(hours: seq<WorkingHour>, doctor: nat, t: Timestamp)
    ensures |AlternativeTimes(hours, doctor, t)| == |Filter(hours, (h: WorkingHour) => Offered(h, doctor, t))|
  {
    if hours != [] {
      AlternativeTimesCount(hours[1..], doctor, t);
    }
  }

  /** A window exactly equal to the slot covers it for the alternative-doctor
      query, yet is dropped from the alternative times: the two filters do not
      mirror each other. */
  lemma ExactSlotWindowAsymmetry(hours: seq<WorkingHour>, h: WorkingHour, t: Timestamp)
    requires h.day == WeekdayOf(t) && h.start == t.minute && h.end == SlotEnd(t)
    ensures CoversSlot(h, h.doctor, t)
    ensures TimeWindow(h.start, h.end) !in AlternativeTimes(hours, h.doctor, t)
  {
    AlternativeTimesMembers(hours, h.doctor, t, TimeWindow(h.start, h.end));
  }

  /** From 23:00 on the slot's end wraps to the early morning, so a window that
      merely reaches the slot's start covers the whole slot. */
  lemma LateSlotCoveredByEveningWindow(h: WorkingHour, t: Timestamp)
    requires t.minute >= MINUTES_PER_DAY - SLOT_MINUTES
    requires h.day == WeekdayOf(t) && h.start <= t.minute && h.end >= t.minute
    ensures CoversSlot(h, h.doctor, t)
  {
  }

  /** `CheckAvailabilityViewSet.check`: parse first (a bad date or time raises),
      then `get` the doctor by username and role 2, then test for a scheduled
      appointment at exactly that timestamp; only then compute alternatives. */
  function Check(users: seq<User>, appts: seq<Appointment>, hours: seq<WorkingHour>,
                 username: string, when: Option<Timestamp>): (r: CheckResponse)
    ensures r.Code() == 500 <==> when.None?
    ensures r.Code() == 404 <==> when.Some? && !HoldsRole(users, username, DOCTOR)
  {
    if when.None? then ServerError
    else
      var t := when.value;
      match GetUser(users, username, DOCTOR)
      case None => DoctorNotFound
      case Some(d) =>
        if |ScheduledAt(appts, d.id, t)| == 0 then Available(d.username, t)
        else Unavailable(AlternativeDoctors(users, hours, d.id, t), AlternativeTimes(hours, d.id, t))
  }

  /** The doctor is reported available exactly when the timestamp parses, a
      role-2 user has the username, and that user has no scheduled appointment
      at exactly that timestamp. Canceled appointments, appointments at other
      times and working hours play no part. */
  lemma CheckAvailableIff(users: seq<User>, appts: seq<Appointment>, hours: seq<WorkingHour>,
                          username: string, when: Option<Timestamp>)
    requires UniqueUsernames(users)
    ensures Check(users, appts, hours, username, when).Available? <==>
            when.Some? && exists d :: d in users && d.username == username && d.role == DOCTOR && !Booked(appts, d.id, when.value)
  {
    if when.Some? && GetUser(users, username, DOCTOR).Some? {
      var g := GetUser(users, username, DOCTOR).value;
      forall d | d in users && d.username == username && d.role == DOCTOR
        ensures d == g
      {
        SameUsernameSameUser(users, d, g);
      }
    }
  }

  /** When the doctor is busy, the response lists the alternative doctors and
      times computed for that doctor and timestamp, and the doctor is among the
      users, holds role 2 and is booked then. */
  lemma CheckUnavailable(users: seq<User>, appts: seq<Appointment>, hours: seq<WorkingHour>,
                         username: string, when: Option<Timestamp>)
    requires UniqueUsernames(users)
    requires Check(users, appts, hours, username, when).Unavailable?
    ensures when.Some?
    ensures exists d :: d in users && d.username == username && d.role == DOCTOR && Booked(appts, d.id, when.value) &&
              Check(users, appts, hours, username, when) ==
              Unavailable(AlternativeDoctors(users, hours, d.id, when.value), AlternativeTimes(hours, d.id, when.value))
  {
    var d := GetUser(users, username, DOCTOR).value;
    assert d in users && d.username == username && d.role == DOCTOR && Booked(appts, d.id, when.value);
  }

  /** The availability verdict does not depend on the working-hour table. */
  lemma CheckIgnoresWorkingHours(users: seq<User>, appts: seq<Appointment>, hours1: seq<WorkingHour>,
                                 hours2: seq<WorkingHour>, username: string, when: Option<Timestamp>)
    ensures Check(users, appts, hours1, username, when).Available? == Check(users, appts, hours2, username, when).Available?
    ensures Check(users, appts, hours1, username, when).Code() == Check(users, appts, hours2, username, when).Code()
  {
  }

  /** Adding a canceled appointment, or one at another time, never makes a free
      doctor busy. */
  lemma NonBlockingAppointmentsIgnored(users: seq<User>, appts: seq<Appointment>, hours: seq<WorkingHour>,
                                       username: string, t: Timestamp, a: Appointment)
    requires UniqueUsernames(users)
    requires a.status == Canceled || a.at != t
    ensures Check(users, appts + [a], hours, username, Some(t)).Available? == Check(users, appts, hours, username, Some(t)).Available?
  {
    CheckAvailableIff(users, appts, hours, username, Some(t));
    CheckAvailableIff(users, appts + [a], hours, username, Some(t));
    forall d | d in users
      ensures Booked(appts + [a], d.id, t) == Booked(appts, d.id, t)
    {
      if Booked(appts + [a], d.id, t) {
        var b :| b in appts + [a] && Blocks(b, d.id, t);
        assert b in appts;
      }
    }
  }

  /** A busy doctor: "dr_a" is booked on Monday at 10:00 and "dr_b"
      works Monday 09:00 to 17:00, so "dr_b" is the one alternative; "dr_a" has
      no windows, so no times are offered. */
  lemma ScenarioBusyDoctor()
    ensures
      var users := [User(1, "dr_a", "", DOCTOR, false), User(2, "dr_b", "", DOCTOR, false), User(3, "pat", "", PATIENT, false)];
      var appts := [Appointment(1, 1, 3, Timestamp(0, 600), Scheduled)];
      var hours := [WorkingHour(1, 2, 0, 540, 1020)];
      Check(users, appts, hours, "dr_a", Some(Timestamp(0, 600))) == Unavailable(["dr_b"], [])
  {
    var users := [User(1, "dr_a", "", DOCTOR, false), User(2, "dr_b", "", DOCTOR, false), User(3, "pat", "", PATIENT, false)];
    var appts := [Appointment(1, 1, 3, Timestamp(0, 600), Scheduled)];
    var hours := [WorkingHour(1, 2, 0, 540, 1020)];
    var t := Timestamp(0, 600);
    assert GetUser(users, "dr_a", DOCTOR) == Some(users[0]) by {
      assert users[0].username == "dr_a";
    }
    assert appts[0] in ScheduledAt(appts, 1, t);
    assert CoveringWindows(hours, 2, t) == hours by {
      assert hours[0] in CoveringWindows(hours, 2, t);
    }
    assert CoveringWindows(hours, 1, t) == [];
    assert AlternativeDoctors(users[2..], hours, 1, t) == [];
    assert AlternativeDoctors(users[1..], hours, 1, t) == ["dr_b"] by {
      assert users[1..][1..] == users[2..];
    }
    assert AlternativeTimes(hours, 1, t) == [] by {
      assert hours[1..] == [];
    }
  }

  /** `DoctorRecommendationViewSet.doctor_list`: every role-2 user, deleted or not. */
  function DoctorList(users: seq<User>): (r: seq<User>)
    ensures forall u :: u in r <==> u in users && u.role == DOCTOR
    ensures |r| <= |users|
  {
    Filter(users, (u: User) => u.role == DOCTOR)
  }
}
