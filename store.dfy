/** The persistent store the views work against, and the in-memory `User`
    instance whose `save` rewrites its username before writing the row. */
module Store {
  import opened Wrappers
  import opened Models
  import opened Validation

  /** Position of the row with primary key `id`. */
  function IndexOfId(users: seq<User>, id: nat): (r: Option<nat>)
    ensures r.Some? ==> r.value < |users| && users[r.value].id == id
    ensures r.None? <==> !HasUser(users, id)
  {
    if users == [] then None
    else if users[0].id == id then Some(0)
    else
      assert users == [users[0]] + users[1..];
      match IndexOfId(users[1..], id)
      case Some(k) => Some(k + 1)
      case None => None
  }

  /** What writing `row` does to the user table: the row with its primary key is
      replaced (an UPDATE), or the row is appended when there is none (an INSERT). */
  function Upsert(users: seq<User>, row: User): (r: seq<User>)
    ensures HasUser(users, row.id) ==> |r| == |users|
    ensures !HasUser(users, row.id) ==> r == users + [row]
    ensures row in r
    ensures forall i :: 0 <= i < |users| && users[i].id != row.id ==> r[i] == users[i]
  {
    match IndexOfId(users, row.id)
    case Some(k) =>
      assert users[k := row][k] == row;
      users[k := row]
    case None => users + [row]
  }

  /** Writing a row keeps every primary key present and adds the row's own. */
  lemma UpsertKeepsKeys(users: seq<User>, row: User, id: nat)
    requires HasUser(users, id) || id == row.id
    ensures HasUser(Upsert(users, row), id)
  {
    var r := Upsert(users, row);
    if id != row.id {
      var u :| u in users && u.id == id;
      var i :| 0 <= i < |users| && users[i] == u;
      assert r[i] == u;
    }
  }

  /** With unique keys, writing a row replaces exactly the row at its key's
      position. */
  lemma SameIdAfterUpsert(users: seq<User>, row: User, i: nat)
    requires UniqueIds(users)
    requires i < |users| && users[i].id == row.id
    ensures Upsert(users, row)[i] == row
  {
    assert users[i] in users;
    match IndexOfId(users, row.id)
    case Some(k) =>
      assert users[k].id == users[i].id;
    case None =>
  }

  /** The database: the user, appointment and working-hour tables, and the next
      appointment primary key. */
  class Database {
    var users: seq<User>
    var appointments: seq<Appointment>
    var hours: seq<WorkingHour>
    var nextAppointmentId: nat

    /** What the schema enforces: unique primary keys, unique usernames, foreign
        keys that resolve, and appointment keys below the next one to be issued. */
    ghost predicate Valid()
      reads this
    {
      && UniqueIds(users)
      && UniqueUsernames(users)
      && ReferencesResolve(Tables(users, appointments, hours))
      && (forall a :: a in appointments ==> a.id < nextAppointmentId)
    }

    /** The tables as values. */
    function Contents(): Tables
      reads this
    {
      Tables(users, appointments, hours)
    }

    /** An empty database. */
    constructor ()
      ensures Valid()
      ensures users == [] && appointments == [] && hours == []
    {
      users, appointments, hours, nextAppointmentId := [], [], [], 0;
    }

    /** `Model.save()` for a user row: UPDATE by primary key, or INSERT when the key
        is new. A username already held by another row violates the unique index
        and the write fails (IntegrityError), leaving the table as it was. */
    method SaveUserRow(row: User) returns (ok: bool)
      requires Valid()
      modifies this
      ensures Valid()
      ensures ok <==> forall v :: v in old(users) && v.id != row.id ==> v.username != row.username
      ensures users == if ok then Upsert(old(users), row) else old(users)
      ensures appointments == old(appointments) && hours == old(hours)
      ensures nextAppointmentId == old(nextAppointmentId)
    {
      ok := forall v | v in users && v.id != row.id :: v.username != row.username;
      if ok {
        var before := users;
        users := Upsert(users, row);
        UpsertPreservesSchema(before, row);
        forall a | a in appointments
          ensures HasUser(users, a.doctor) && HasUser(users, a.patient)
        {
          UpsertKeepsKeys(before, row, a.doctor);
          UpsertKeepsKeys(before, row, a.patient);
        }
        forall h | h in hours
          ensures HasUser(users, h.doctor)
        {
          UpsertKeepsKeys(before, row, h.doctor);
        }
      }
    }
    /** Saving a working hour with the validator wired in, as intended: the
        window is stored only when the validator accepts it against the stored
        windows and its doctor row exists (the foreign key). The schedules stay
        free of overlaps. */
    method AddWorkingHour(c: WorkingHour) returns (v: Verdict, stored: bool)
      requires Valid()
      modifies this
      ensures Valid()
      ensures v == ValidateWorkingHour(old(hours), c)
      ensures stored <==> v == Accepted && HasUser(users, c.doctor)
      ensures hours == if stored then old(hours) + [c] else old(hours)
      ensures users == old(users) && appointments == old(appointments)
      ensures nextAppointmentId == old(nextAppointmentId)
      ensures NonOverlapping(old(hours)) ==> NonOverlapping(hours)
    {
      v := ValidateWorkingHour(hours, c);
      stored := v == Accepted && HasUser(users, c.doctor);
      if stored {
        if NonOverlapping(hours) {
          AcceptedInsertKeepsNonOverlap(hours, c);
        }
        hours := hours + [c];
      }
    }
  }

  /** A write that keeps usernames unique keeps both unique indexes. */
  lemma UpsertPreservesSchema(users: seq<User>, row: User)
    requires UniqueIds(users) && UniqueUsernames(users)
    requires forall v :: v in users && v.id != row.id ==> v.username != row.username
    ensures UniqueIds(Upsert(users, row)) && UniqueUsernames(Upsert(users, row))
  {
    var r := Upsert(users, row);
    forall j | 0 <= j < |users| && users[j].id != row.id
      ensures users[j].username != row.username
    {
      assert users[j] in users;
    }
    match IndexOfId(users, row.id)
    case Some(k) =>
      assert r == users[k := row];
    case None =>
      assert r == users + [row];
  }

  /** `User.username` after `save`: a deleted user's name gets "-" and a fresh suffix. */
  function Mangle(username: string, suffix: string): (r: string)
    ensures r != username
    ensures |r| == |username| + 1 + |suffix| && r[..|username|] == username
  {
    username + "-" + suffix
  }

  /** Each further save of a deleted user appends one more suffix. */
  lemma ManglingStacks(username: string, s1: string, s2: string)
    ensures Mangle(Mangle(username, s1), s2) == username + "-" + s1 + "-" + s2
    ensures |Mangle(Mangle(username, s1), s2)| > |Mangle(username, s1)| > |username|
    ensures Mangle(Mangle(username, s1), s2) != Mangle(username, s1)
    ensures Mangle(Mangle(username, s1), s2)[..|Mangle(username, s1)|] == Mangle(username, s1)
  {
  }

  /** An in-memory user, loaded from a row and written back by `Save`. */
  class UserInstance {
    const id: nat
    var username: string
    var password: string
    var role: int
    var isDeleted: bool

    /** The row this instance writes. */
    function Row(): User
      reads this
    {
      User(id, username, password, role, isDeleted)
    }

    /** Loads an instance from a row. */
    constructor Load(row: User)
      ensures Row() == row
    {
      id, username, password, role, isDeleted := row.id, row.username, row.password, row.role, row.isDeleted;
    }

    /** `User.save`: when the instance is marked deleted, its username is first
        rewritten to `username + "-" + suffix` (the suffix stands for a fresh
        `uuid4`); then the row is written. The rewrite happens on every save of a
        deleted user and stays on the instance even when the write fails. */
    method Save(db: Database, suffix: string) returns (ok: bool)
      requires db.Valid()
      modifies this, db
      ensures username == if old(isDeleted) then Mangle(old(username), suffix) else old(username)
      ensures password == old(password) && role == old(role) && isDeleted == old(isDeleted)
      ensures db.Valid()
      ensures ok <==> forall v :: v in old(db.users) && v.id != id ==> v.username != username
      ensures db.users == if ok then Upsert(old(db.users), Row()) else old(db.users)
      ensures db.appointments == old(db.appointments) && db.hours == old(db.hours)
      ensures db.nextAppointmentId == old(db.nextAppointmentId)
    {
      if isDeleted {
        username := Mangle(username, suffix);
      }
      ok := db.SaveUserRow(Row());
    }
  }
}
