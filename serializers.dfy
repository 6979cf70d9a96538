/** The appointment serializers: the future-time rule on `date_time`, the role
    restrictions of `doctor_id` and `patient_id`, and the availability
    representation that injects alternatives only when the doctor is busy. */
module Serializers {
  import opened Wrappers
  import opened Clock
  import opened Models
  import opened Availability

  /** The result of validating `date_time`. `NowLookupFails` is the AttributeError
      raised when `now()` is looked up on the class `datetime.timezone`. */
  datatype DateCheck = Accepted(value: Timestamp) | InPast | NowLookupFails

  /** `validate_date_time` as intended: a value strictly earlier than now is
      rejected, a value equal to now or later is returned unchanged. */
  function ValidateDateTime(value: Timestamp, now: Timestamp): (r: DateCheck)
    ensures r != NowLookupFails
    ensures r.Accepted? <==> !Before(value, now)
    ensures r.Accepted? ==> r.value == value
  {
    BeforeIsAbsoluteOrder(value, now);
    if Absolute(value) < Absolute(now) then InPast else Accepted(value)
  }

  /** `validate_date_time` as written: `timezone` is imported from the `datetime`
      module, whose `timezone` class has no `now`, so every call raises. */
  function ValidateDateTimeAsWritten(value: Timestamp): (r: DateCheck)
    ensures !r.Accepted?
  {
    NowLookupFails
  }

  /** The import makes every valid future appointment fail, where the intended
      rule accepts it. */
  lemma ValidateDateTimeAsWrittenRejectsFuture(value: Timestamp, now: Timestamp)
    requires Before(now, value)
    ensures ValidateDateTimeAsWritten(value) == NowLookupFails
    ensures ValidateDateTime(value, now) == Accepted(value)
  {
  }

  /** The boundary: now itself is accepted, one minute earlier is rejected. */
  lemma ValidateDateTimeBoundary(now: Timestamp)
    ensures ValidateDateTime(now, now) == Accepted(now)
    ensures now.minute > 0 ==> ValidateDateTime(Timestamp(now.day, now.minute - 1), now) == InPast
    ensures now.minute == 0 ==> ValidateDateTime(Timestamp(now.day - 1, MINUTES_PER_DAY - 1), now) == InPast
  {
  }

  /** The writable fields of an appointment whose value can be refused. */
  datatype Field = DoctorId | PatientId | DateTime | StatusChoice

  /** The field errors of `AppointmentSerializer` for a write that carries every
      field: `doctor_id` must be the key of a role-2 user and `patient_id` of a
      role-3 user (deleted users included), `date_time` must not be in the past,
      and `status` must be one of its two choices. Each field is checked on its own. */
  function FieldErrors(users: seq<User>, doctorId: nat, patientId: nat, at: Timestamp, status: string, now: Timestamp): (r: set<Field>)
    ensures DoctorId in r <==> !HasUserWithRole(users, doctorId, DOCTOR)
    ensures PatientId in r <==> !HasUserWithRole(users, patientId, PATIENT)
    ensures DateTime in r <==> Before(at, now)
    ensures StatusChoice in r <==> status != "scheduled" && status != "canceled"
  {
    (if HasUserWithRole(users, doctorId, DOCTOR) then {} else {DoctorId})
    + (if HasUserWithRole(users, patientId, PATIENT) then {} else {PatientId})
    + (if ValidateDateTime(at, now).Accepted? then {} else {DateTime})
    + (if ParseStatus(status).Some? then {} else {StatusChoice})
  }

  /** `AppointmentSerializer` validation followed by its `create`: with no field
      error the row is created as given, with no duplicate test of any kind. */
  function CreateViaSerializer(users: seq<User>, id: nat, doctorId: nat, patientId: nat,
                               at: Timestamp, status: string, now: Timestamp): (r: Option<Appointment>)
    ensures r.Some? <==> FieldErrors(users, doctorId, patientId, at, status, now) == {}
    ensures r.Some? ==> HasUserWithRole(users, r.value.doctor, DOCTOR) && HasUserWithRole(users, r.value.patient, PATIENT)
    ensures r.Some? ==> r.value.id == id && r.value.doctor == doctorId && r.value.patient == patientId &&
                        r.value.at == at && StatusValue(r.value.status) == status
  {
    var errors := FieldErrors(users, doctorId, patientId, at, status, now);
    if errors == {} then
      assert StatusChoice !in errors;
      Some(Appointment(id, doctorId, patientId, at, ParseStatus(status).value))
    else
      assert DoctorId in errors || PatientId in errors || DateTime in errors || StatusChoice in errors;
      None
  }

  /** The table declares no uniqueness: the serializer path stores a second
      appointment with an existing (doctor, patient, timestamp) triple, so the
      uniqueness of triples rests only on the test in the username-based booking. */
  lemma SerializerPathStoresDuplicates(users: seq<User>, appts: seq<Appointment>, a: Appointment, id: nat, now: Timestamp)
    requires a in appts
    requires HasUserWithRole(users, a.doctor, DOCTOR) && HasUserWithRole(users, a.patient, PATIENT)
    requires !Before(a.at, now)
    ensures CreateViaSerializer(users, id, a.doctor, a.patient, a.at, StatusValue(a.status), now).Some?
    ensures !UniqueTriples(appts + [CreateViaSerializer(users, id, a.doctor, a.patient, a.at, StatusValue(a.status), now).value])
  {
    StatusRoundTrip(a.status);
    var b := CreateViaSerializer(users, id, a.doctor, a.patient, a.at, StatusValue(a.status), now).value;
    var s := appts + [b];
    var i :| 0 <= i < |appts| && appts[i] == a;
    assert s[i] == a && s[|appts|] == b;
  }

  /** The keys of the data the representation is built from: the alternative
      lists are present or absent (`None`). */
  datatype AvailabilityData = AvailabilityData(
    available: bool,
    alternativeDoctors: Option<seq<string>>,
    alternativeTimes: Option<seq<TimeWindow>>,
    alternatives: Option<Alternatives>)

  /** The `alternatives` entry of a representation. */
  datatype Alternatives = Alternatives(doctors: seq<string>, times: seq<TimeWindow>)

  /** The fields of a representation the override touches. */
  datatype Representation = Representation(available: bool, alternatives: Option<Alternatives>)

  /** `AvailabilitySerializer.to_representation`: when `available` is false the
      `alternatives` entry is rebuilt from the two alternative lists, an absent
      list becoming empty; when it is true the base representation is kept. */
  function ToRepresentation(data: AvailabilityData): (r: Representation)
    ensures r.available == data.available
    ensures !data.available ==> r.alternatives.Some?
    ensures !data.available ==>
              (data.alternativeDoctors.Some? ==> r.alternatives.value.doctors == data.alternativeDoctors.value) &&
              (data.alternativeDoctors.None? ==> r.alternatives.value.doctors == []) &&
              (data.alternativeTimes.Some? ==> r.alternatives.value.times == data.alternativeTimes.value) &&
              (data.alternativeTimes.None? ==> r.alternatives.value.times == [])
    ensures data.available ==> r.alternatives == data.alternatives
  {
    var base := Representation(data.available, data.alternatives);
    if !base.available then
      base.(alternatives := Some(Alternatives(data.alternativeDoctors.GetOr([]), data.alternativeTimes.GetOr([]))))
    else base
  }
}
