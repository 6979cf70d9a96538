/** The records of the clinic: users with their role codes and soft-delete flag,
    appointments and weekly working hours, the lookups the views run against the
    user table, and what deleting a user does to the rows that reference it. */
module Models {
  import opened Wrappers
  import opened Clock
  import opened Query

  // ---------------------------------------------------------------- users

  /** Role codes of `ROLE_CHOICES`. */
  const ADMIN := 1
  const DOCTOR := 2
  const PATIENT := 3

  /** The role given to a user when none is chosen. */
  const DEFAULT_ROLE := ADMIN

  /** The role codes the `role` field offers. The column itself holds any integer:
      choices are enforced by forms and serializers, not by the table. */
  predicate IsRoleChoice(role: int) {
    role == ADMIN || role == DOCTOR || role == PATIENT
  }

  /** A row of the user table; `password` is the stored hash. */
  datatype User = User(id: nat, username: string, password: string, role: int, isDeleted: bool)

  /** A freshly created user: the defaults of the `role` and `is_deleted` fields. */
  function NewUser(id: nat, username: string, password: string): (u: User)
    ensures u.id == id && u.username == username && u.password == password
    ensures IsRoleChoice(u.role) && u.role != DOCTOR && u.role != PATIENT
    ensures !u.isDeleted
  {
    User(id, username, password, DEFAULT_ROLE, false)
  }

  /** Primary keys are unique. */
  ghost predicate UniqueIds(users: seq<User>) {
    forall i, j :: 0 <= i < |users| && 0 <= j < |users| && users[i].id == users[j].id ==> i == j
  }

  /** `username` is declared `unique=True`, over deleted and live users alike. */
  ghost predicate UniqueUsernames(users: seq<User>) {
    forall i, j :: 0 <= i < |users| && 0 <= j < |users| && users[i].username == users[j].username ==> i == j
  }

  /** Two rows with one username are one row. */
  lemma SameUsernameSameUser(users: seq<User>, u: User, v: User)
    requires UniqueUsernames(users)
    requires u in users && v in users && u.username == v.username
    ensures u == v
  {
    var i :| 0 <= i < |users| && users[i] == u;
    var j :| 0 <= j < |users| && users[j] == v;
  }

  /** Two rows with one primary key are one row. */
  lemma SameIdSameUser(users: seq<User>, u: User, v: User)
    requires UniqueIds(users)
    requires u in users && v in users && u.id == v.id
    ensures u == v
  {
    var i :| 0 <= i < |users| && users[i] == u;
    var j :| 0 <= j < |users| && users[j] == v;
  }

  /** Some user has this role and this username. */
  predicate HoldsRole(users: seq<User>, username: string, role: int) {
    exists u :: u in users && u.username == username && u.role == role
  }

  /** `User.objects.get(username=..., role=...)`. The lookup does not look at
      `is_deleted`; with unique usernames at most one row matches. */
  function GetUser(users: seq<User>, username: string, role: int): (r: Option<User>)
    ensures r.None? <==> !HoldsRole(users, username, role)
    ensures r.Some? ==> r.value in users && r.value.username == username && r.value.role == role
  {
    First(users, (u: User) => u.username == username && u.role == role)
  }

  /** Under unique usernames the user `get` finds is the only one that matches. */
  lemma {:induction false} GetUserIsTheMatch(users: seq<User>, u: User, role: int)
    requires UniqueUsernames(users)
    requires u in users && u.role == role
    ensures GetUser(users, u.username, role) == Some(u)
  {
    var r := GetUser(users, u.username, role);
    assert HoldsRole(users, u.username, role);
    SameUsernameSameUser(users, r.value, u);
  }

  /** `User.objects.filter(pk=id, is_deleted=False).first()`. */
  function FindActive(users: seq<User>, id: nat): (r: Option<User>)
    ensures r.Some? ==> r.value in users && r.value.id == id && !r.value.isDeleted
    ensures r.None? <==> forall u :: u in users && u.id == id ==> u.isDeleted
  {
    First(users, (u: User) => u.id == id && !u.isDeleted)
  }

  /** There is a user row with this primary key. */
  predicate HasUser(users: seq<User>, id: nat) {
    exists u :: u in users && u.id == id
  }

  /** There is a user row with this primary key and this role. */
  predicate HasUserWithRole(users: seq<User>, id: nat, role: int) {
    exists u :: u in users && u.id == id && u.role == role
  }

  // ---------------------------------------------------------------- appointments

  /** The two choices of `Appointment.status`. */
  datatype Status = Scheduled | Canceled

  /** The value stored in the `status` column. */
  function StatusValue(s: Status): string {
    match s
    case Scheduled => "scheduled"
    case Canceled => "canceled"
  }

  /** Choice validation of a `status` value: only the two stored values are accepted. */
  function ParseStatus(v: string): (r: Option<Status>)
    ensures r.Some? ==> StatusValue(r.value) == v
    ensures r.None? ==> v != "scheduled" && v != "canceled"
  {
    if v == "scheduled" then Some(Scheduled)
    else if v == "canceled" then Some(Canceled)
    else None
  }

  /** Every status survives being stored and read back. */
  lemma StatusRoundTrip(s: Status)
    ensures ParseStatus(StatusValue(s)) == Some(s)
  {
  }

  /** An appointment row; `doctor` and `patient` are user primary keys. */
  datatype Appointment = Appointment(id: nat, doctor: nat, patient: nat, at: Timestamp, status: Status)

  /** A recurring weekly working window of a doctor (a user primary key). */
  datatype WorkingHour = WorkingHour(id: nat, doctor: nat, day: Weekday, start: Minute, end: Minute)

  // ---------------------------------------------------------------- ownership

  /** The three tables of the core. */
  datatype Tables = Tables(users: seq<User>, appointments: seq<Appointment>, hours: seq<WorkingHour>)

  /** The foreign keys hold: every appointment's doctor and patient, and every
      working hour's doctor, is a row of the user table. */
  ghost predicate ReferencesResolve(t: Tables) {
    && (forall a :: a in t.appointments ==> HasUser(t.users, a.doctor) && HasUser(t.users, a.patient))
    && (forall h :: h in t.hours ==> HasUser(t.users, h.doctor))
  }

  /** `limit_choices_to`: appointment doctors have role 2 and patients role 3, and
      working hours belong to role-2 users. The table does not enforce this; the
      writers that look users up by role do. */
  ghost predicate RoleLimitsHold(t: Tables) {
    && (forall a :: a in t.appointments ==>
          HasUserWithRole(t.users, a.doctor, DOCTOR) && HasUserWithRole(t.users, a.patient, PATIENT))
    && (forall h :: h in t.hours ==> HasUserWithRole(t.users, h.doctor, DOCTOR))
  }

  /** No two appointments share a (doctor, patient, timestamp) triple. */
  ghost predicate UniqueTriples(appts: seq<Appointment>) {
    forall i, j :: 0 <= i < j < |appts| ==>
      !(appts[i].doctor == appts[j].doctor && appts[i].patient == appts[j].patient && appts[i].at == appts[j].at)
  }

  /** Deleting user `id` from the table, with `on_delete=CASCADE` on the three
      foreign keys: the user's row, the appointments where they are doctor or
      patient, and their working hours go; every other row stays. */
  function DeleteUser(t: Tables, id: nat): (r: Tables)
    ensures forall u :: u in r.users <==> u in t.users && u.id != id
    ensures forall a :: a in r.appointments <==> a in t.appointments && a.doctor != id && a.patient != id
    ensures forall h :: h in r.hours <==> h in t.hours && h.doctor != id
  {
    Tables(
      Filter(t.users, (u: User) => u.id != id),
      Filter(t.appointments, (a: Appointment) => a.doctor != id && a.patient != id),
      Filter(t.hours, (h: WorkingHour) => h.doctor != id))
  }

  /** The cascade leaves no dangling reference behind. */
  lemma DeleteUserKeepsReferences(t: Tables, id: nat)
    requires ReferencesResolve(t)
    ensures ReferencesResolve(DeleteUser(t, id))
  {
    var r := DeleteUser(t, id);
    forall a | a in r.appointments
      ensures HasUser(r.users, a.doctor) && HasUser(r.users, a.patient)
    {
      var d :| d in t.users && d.id == a.doctor;
      var p :| p in t.users && p.id == a.patient;
      assert d in r.users && p in r.users;
    }
    forall h | h in r.hours
      ensures HasUser(r.users, h.doctor)
    {
      var d :| d in t.users && d.id == h.doctor;
      assert d in r.users;
    }
  }
}
