/** The account handlers the scheduling core relies on: login lookup, the
    soft-delete transition, the existence guard of `update_user` and the user
    search. Password hashing and token issuing stay outside the model. */
module AuthViews {
  import opened Wrappers
  import opened Query
  import opened Models
  import Store

  /** The error codes these handlers raise. */
  datatype ErrorCode = UserDoesNotExist | InvalidInput

  /** `login`: tokens for `userId`, or an error code. */
  datatype LoginResult = LoginFailed(code: ErrorCode) | Tokens(userId: nat)

  /** `login`: the first non-deleted user with exactly this username; a missing
      user is USER_DOES_NOT_EXIST and a password the check refuses is
      INVALID_INPUT. `passwordMatches(raw, hash)` stands for `check_password`. */
  function Login(users: seq<User>, username: string, password: string,
                 passwordMatches: (string, string) -> bool): (r: LoginResult)
    ensures r == LoginFailed(UserDoesNotExist) <==> forall u :: u in users && u.username == username ==> u.isDeleted
    ensures r.Tokens? ==> exists u :: u in users && u.id == r.userId && u.username == username &&
                                     !u.isDeleted && passwordMatches(password, u.password)
  {
    match First(users, (u: User) => u.username == username && !u.isDeleted)
    case None => LoginFailed(UserDoesNotExist)
    case Some(u) => if passwordMatches(password, u.password) then Tokens(u.id) else LoginFailed(InvalidInput)
  }

  /** Login succeeds exactly for a live user with that username whose password
      checks out, fails with USER_DOES_NOT_EXIST exactly when no live user has the
      username (so soft-deleted users cannot log in), and otherwise with
      INVALID_INPUT. */
  lemma LoginOutcomes(users: seq<User>, username: string, password: string,
                      passwordMatches: (string, string) -> bool)
    requires UniqueUsernames(users)
    ensures Login(users, username, password, passwordMatches) == LoginFailed(UserDoesNotExist) <==>
            forall u :: u in users && u.username == username ==> u.isDeleted
    ensures Login(users, username, password, passwordMatches).Tokens? <==>
            exists u :: u in users && u.username == username && !u.isDeleted && passwordMatches(password, u.password)
    ensures Login(users, username, password, passwordMatches).Tokens? ==>
            exists u :: u in users && u.id == Login(users, username, password, passwordMatches).userId && u.username == username
  {
    var f := First(users, (u: User) => u.username == username && !u.isDeleted);
    if f.Some? {
      forall u | u in users && u.username == username && !u.isDeleted
        ensures u == f.value
      {
        SameUsernameSameUser(users, u, f.value);
      }
    }
  }

  /** The role code the soft-delete permission test looks for; it is not one of
      the role choices. */
  const ROLE_OUTSIDE_CHOICES := 4

  /** The outcomes of `soft_delete`. `IntegrityError` is a mangled username that
      collides with another row. */
  datatype DeleteResult = DeleteFailed(code: ErrorCode, permission: bool) | Deleted | IntegrityError

  /** The permission test of `soft_delete` never fires on a target whose role is
      one of the role choices. */
  lemma PermissionTestUnreachable(requesterRole: int, target: User)
    requires IsRoleChoice(target.role)
    ensures !(requesterRole == PATIENT && target.role == ROLE_OUTSIDE_CHOICES)
  {
  }

  /** `soft_delete`: find the live user with this key (else USER_DOES_NOT_EXIST),
      refuse a role-3 requester targeting a role-4 user, then mark the user deleted
      and `save`, which mangles the username. Appointments and working hours stay;
      no other user changes; the old username becomes free; a second delete of the
      same key fails. */
  method SoftDelete(db: Store.Database, requesterRole: int, userId: nat, suffix: string) returns (r: DeleteResult)
    requires db.Valid()
    modifies db
    ensures db.Valid()
    ensures db.appointments == old(db.appointments) && db.hours == old(db.hours)
    ensures db.nextAppointmentId == old(db.nextAppointmentId)
    ensures r == DeleteFailed(UserDoesNotExist, false) <==> FindActive(old(db.users), userId).None?
    ensures r == DeleteFailed(UserDoesNotExist, true) <==>
              FindActive(old(db.users), userId).Some? && requesterRole == PATIENT &&
              FindActive(old(db.users), userId).value.role == ROLE_OUTSIDE_CHOICES
    ensures r.Deleted? <==>
              FindActive(old(db.users), userId).Some? &&
              !(requesterRole == PATIENT && FindActive(old(db.users), userId).value.role == ROLE_OUTSIDE_CHOICES) &&
              forall v :: v in old(db.users) && v.id != userId ==>
                v.username != Store.Mangle(FindActive(old(db.users), userId).value.username, suffix)
    ensures !r.Deleted? ==> db.users == old(db.users)
    ensures r.Deleted? ==>
              var u := FindActive(old(db.users), userId).value;
              && |db.users| == |old(db.users)|
              && u.(isDeleted := true, username := Store.Mangle(u.username, suffix)) in db.users
              && (forall i :: 0 <= i < |db.users| && old(db.users)[i].id != userId ==> db.users[i] == old(db.users)[i])
              && (forall v :: v in db.users ==> v.username != u.username)
              && FindActive(db.users, userId).None?
  {
    var found := FindActive(db.users, userId);
    if found.None? {
      return DeleteFailed(UserDoesNotExist, false);
    }
    var target := found.value;
    if requesterRole == PATIENT && target.role == ROLE_OUTSIDE_CHOICES {
      return DeleteFailed(UserDoesNotExist, true);
    }
    ghost var before := db.users;
    var user := new Store.UserInstance.Load(target);
    user.isDeleted := true;
    var ok := user.Save(db, suffix);
    if !ok {
      return IntegrityError;
    }
    r := Deleted;
    var row := target.(isDeleted := true, username := Store.Mangle(target.username, suffix));
    assert user.Row() == row;
    DeletedRowFreesName(before, target, row);
  }

  /** Writing the deleted, renamed row of a live user leaves no row with the old
      username and no live row with that key. */
  lemma DeletedRowFreesName(users: seq<User>, target: User, row: User)
    requires UniqueIds(users) && UniqueUsernames(users)
    requires target in users && row.id == target.id && row.isDeleted && row.username != target.username
    ensures forall v :: v in Store.Upsert(users, row) ==> v.username != target.username
    ensures FindActive(Store.Upsert(users, row), row.id).None?
  {
    var r := Store.Upsert(users, row);
    var t :| 0 <= t < |users| && users[t] == target;
    forall v | v in r
      ensures v.username != target.username && (v.id == row.id ==> v.isDeleted)
    {
      var i :| 0 <= i < |r| && r[i] == v;
      if users[i].id == row.id {
        Store.SameIdAfterUpsert(users, row, i);
      }
    }
  }

  /** Lower-cases an ASCII letter and leaves every other character alone. */
  function Fold(c: char): char {
    if 'A' <= c <= 'Z' then (c as int + 32) as char else c
  }

  /** An ASCII capital letter. */
  predicate IsUpper(c: char) {
    'A' <= c <= 'Z'
  }

  /** Two characters that are the same, or the same ASCII letter in either case. */
  predicate SameUpToCase(a: char, b: char) {
    a == b || (IsUpper(a) && b as int == a as int + 32) || (IsUpper(b) && a as int == b as int + 32)
  }

  /** Case-folds a string character by character: the result has no capital
      letters, keeps the length, and keeps every character that is not a capital. */
  function FoldAll(s: string): (r: string)
    ensures |r| == |s|
    ensures forall i :: 0 <= i < |r| ==> !IsUpper(r[i])
    ensures forall i :: 0 <= i < |s| ==> SameUpToCase(s[i], r[i])
  {
    seq(|s|, i requires 0 <= i < |s| => Fold(s[i]))
  }

  /** Folding twice is folding once. */
  lemma FoldAllIdempotent(s: string)
    ensures FoldAll(FoldAll(s)) == FoldAll(s)
  {
  }

  /** Strings that agree character by character up to ASCII case fold alike. */
  lemma CaseVariantsFoldAlike(s: string, t: string)
    requires |s| == |t| && forall i :: 0 <= i < |s| ==> SameUpToCase(s[i], t[i])
    ensures FoldAll(s) == FoldAll(t)
  {
  }

  /** `q` occurs in `s` at position `i`. */
  predicate OccursAt(s: string, q: string, i: int) {
    0 <= i && i + |q| <= |s| && s[i..i + |q|] == q
  }

  /** Substring test: `q` occurs in `s`. */
  function Contains(s: string, q: string): bool
    decreases |s|
  {
    if |q| > |s| then false
    else if s[..|q|] == q then true
    else Contains(s[1..], q)
  }

  /** `Contains` holds exactly when the query occurs at some position. */
  lemma {:induction false} ContainsIff(s: string, q: string)
    ensures Contains(s, q) <==> exists i :: OccursAt(s, q, i)
    decreases |s|
  {
    if |q| > |s| {
    } else if s[..|q|] == q {
      assert OccursAt(s, q, 0);
    } else {
      ContainsIff(s[1..], q);
      if Contains(s[1..], q) {
        var i :| OccursAt(s[1..], q, i);
        assert s[1..][i..i + |q|] == s[i + 1..i + 1 + |q|];
        assert OccursAt(s, q, i + 1);
      }
      assert !OccursAt(s, q, 0);
      forall i | OccursAt(s, q, i) && i > 0
        ensures Contains(s[1..], q)
      {
        assert s[1..][i - 1..i - 1 + |q|] == s[i..i + |q|];
        assert OccursAt(s[1..], q, i - 1);
      }
    }
  }

  /** `username__icontains=query`, with ASCII case folding. */
  predicate IContains(s: string, q: string) {
    Contains(FoldAll(s), FoldAll(q))
  }

  /** The query `search_user` uses when none is given. */
  const DEFAULT_QUERY := "+"

  /** `search_user`: live users whose username contains the query ignoring case,
      excluding role 4, in stored order (pagination not modelled). */
  function SearchUsers(users: seq<User>, query: Option<string>): (r: seq<User>)
    ensures |r| <= |users|
    ensures forall u :: u in r ==> u in users && !u.isDeleted && u.role != ROLE_OUTSIDE_CHOICES
  {
    var q := query.GetOr(DEFAULT_QUERY);
    Filter(users, (u: User) => !u.isDeleted && IContains(u.username, q) && u.role != ROLE_OUTSIDE_CHOICES)
  }

  /** A user is found exactly when live, not role 4, and the case-folded query
      occurs in the case-folded username; without a query, "+" is searched for. */
  lemma SearchUsersMembers(users: seq<User>, query: Option<string>, u: User)
    ensures u in SearchUsers(users, query) <==>
            u in users && !u.isDeleted && u.role != ROLE_OUTSIDE_CHOICES &&
            exists i :: OccursAt(FoldAll(u.username), FoldAll(query.GetOr(DEFAULT_QUERY)), i)
  {
    ContainsIff(FoldAll(u.username), FoldAll(query.GetOr(DEFAULT_QUERY)));
  }

  /** Queries that differ only in the case of ASCII letters find the same users. */
  lemma SearchIgnoresCase(users: seq<User>, q1: string, q2: string, u: User)
    requires |q1| == |q2| && forall i :: 0 <= i < |q1| ==> SameUpToCase(q1[i], q2[i])
    ensures u in SearchUsers(users, Some(q1)) <==> u in SearchUsers(users, Some(q2))
  {
    CaseVariantsFoldAlike(q1, q2);
    SearchUsersMembers(users, Some(q1), u);
    SearchUsersMembers(users, Some(q2), u);
  }
}
