/** The working-hour validator: a range check, then a half-open overlap check
    against the windows of the same doctor on the same weekday. */
module Validation {
  import opened Clock
  import opened Query
  import opened Models

  /** Outcome of validating a candidate window. `SuperCallError` is the
      RuntimeError a zero-argument `super()` raises in a function defined outside
      a class. */
  datatype Verdict = Accepted | InvalidRange | OverlapConflict | SuperCallError

  /** Same doctor and same weekday. */
  predicate SameSchedule(a: WorkingHour, b: WorkingHour) {
    a.doctor == b.doctor && a.day == b.day
  }

  /** The half-open overlap test of the validator's query: `a.start < b.end` and
      `a.end > b.start`. Windows that only touch do not overlap. */
  predicate Overlap(a: WorkingHour, b: WorkingHour) {
    a.start < b.end && a.end > b.start
  }

  /** The stored windows the overlap query returns for candidate `c`. */
  function OverlappingHours(hours: seq<WorkingHour>, c: WorkingHour): (r: seq<WorkingHour>)
    ensures forall h :: h in r <==> h in hours && SameSchedule(h, c) && Overlap(h, c)
  {
    Filter(hours, (h: WorkingHour) => h.doctor == c.doctor && h.day == c.day && h.start < c.end && h.end > c.start)
  }

  /** The validator as intended: reject an empty or inverted range, then reject an
      overlap with a stored window of the same doctor and weekday, else accept. */
  function ValidateWorkingHour(hours: seq<WorkingHour>, c: WorkingHour): (r: Verdict)
    ensures r != SuperCallError
    ensures r == InvalidRange <==> c.start >= c.end
    ensures r == OverlapConflict <==> c.start < c.end && exists h :: h in hours && SameSchedule(h, c) && Overlap(h, c)
  {
    if c.start >= c.end then InvalidRange
    else if |OverlappingHours(hours, c)| > 0 then
      assert OverlappingHours(hours, c)[0] in OverlappingHours(hours, c);
      OverlapConflict
    else
      assert OverlappingHours(hours, c) == [];
      Accepted
  }

  /** `clean` as it stands: a module-level function whose checks end in a
      zero-argument `super().clean()`, so a candidate that passes both checks
      raises instead of being accepted. */
  function CleanAsWritten(hours: seq<WorkingHour>, c: WorkingHour): (r: Verdict)
    ensures r != Accepted
  {
    var v := ValidateWorkingHour(hours, c);
    if v == Accepted then SuperCallError else v
  }

  /** As written, no candidate is ever accepted, while the intended validator
      accepts every well-formed window of a doctor with no other windows. */
  lemma CleanAsWrittenRejectsAValidWindow(c: WorkingHour)
    requires c.start < c.end
    ensures CleanAsWritten([], c) == SuperCallError
    ensures ValidateWorkingHour([], c) == Accepted
  {
  }

  /** No two windows of one doctor on one weekday overlap. */
  ghost predicate NonOverlapping(hours: seq<WorkingHour>) {
    forall i, j :: 0 <= i < j < |hours| && SameSchedule(hours[i], hours[j]) ==> !Overlap(hours[i], hours[j])
  }

  /** The `clean` in validations.py is not attached to `WorkingHour`, which
      defines no `clean` of its own, and `save()` does not validate, so any
      window is stored: two overlapping Monday windows of one doctor are both
      stored. */
  lemma UnwiredValidatorAdmitsOverlap(doctor: nat)
    ensures NonOverlapping([WorkingHour(1, doctor, 0, 540, 720)])
    ensures !NonOverlapping([WorkingHour(1, doctor, 0, 540, 720), WorkingHour(2, doctor, 0, 660, 780)])
    ensures ValidateWorkingHour([WorkingHour(1, doctor, 0, 540, 720)], WorkingHour(2, doctor, 0, 660, 780)) == OverlapConflict
  {
    var hs := [WorkingHour(1, doctor, 0, 540, 720), WorkingHour(2, doctor, 0, 660, 780)];
    assert SameSchedule(hs[0], hs[1]) && Overlap(hs[0], hs[1]);
    assert hs[0] in hs[..1];
  }

  /** Windows that only touch an existing one, at either end, are accepted. */
  lemma TouchingWindowsAccepted(hours: seq<WorkingHour>, c: WorkingHour)
    requires c.start < c.end
    requires forall h :: h in hours && SameSchedule(h, c) ==> h.end <= c.start || h.start >= c.end
    ensures ValidateWorkingHour(hours, c) == Accepted
  {
  }

  /** Windows of other doctors or other weekdays never change the verdict. */
  lemma {:induction false} OtherSchedulesIgnored(hours: seq<WorkingHour>, others: seq<WorkingHour>, c: WorkingHour)
    requires forall h :: h in others ==> !SameSchedule(h, c)
    ensures ValidateWorkingHour(hours + others, c) == ValidateWorkingHour(hours, c)
  {
    forall h | h in hours + others && SameSchedule(h, c)
      ensures h in hours
    {
    }
  }

  /** A window that is already stored is rejected when validated again against
      the store: the query has no self-exclusion. */
  lemma StoredWindowRejectedOnRecheck(hours: seq<WorkingHour>, h: WorkingHour)
    requires h in hours && h.start < h.end
    ensures ValidateWorkingHour(hours, h) == OverlapConflict
  {
    assert SameSchedule(h, h) && Overlap(h, h);
  }

  /** Appending an accepted window keeps the schedules free of overlaps. */
  lemma {:induction false} AcceptedInsertKeepsNonOverlap(hours: seq<WorkingHour>, c: WorkingHour)
    requires NonOverlapping(hours)
    requires ValidateWorkingHour(hours, c) == Accepted
    ensures NonOverlapping(hours + [c])
  {
    var r := hours + [c];
    forall i, j | 0 <= i < j < |r| && SameSchedule(r[i], r[j])
      ensures !Overlap(r[i], r[j])
    {
      if j == |hours| {
        assert r[i] in hours;
        assert !Overlap(r[i], c);
      } else {
        assert r[i] == hours[i] && r[j] == hours[j];
      }
    }
  }

  /** Each candidate in turn is validated against the windows stored so far and
      appended when accepted. */
  function InsertValidated(hours: seq<WorkingHour>, candidates: seq<WorkingHour>): (r: seq<WorkingHour>)
    ensures |hours| <= |r| && r[..|hours|] == hours
    decreases |candidates|
  {
    if candidates == [] then hours
    else
      var next := if ValidateWorkingHour(hours, candidates[0]) == Accepted then hours + [candidates[0]] else hours;
      var r := InsertValidated(next, candidates[1..]);
      assert r[..|hours|] == r[..|next|][..|hours|];
      r
  }

  /** If every insert passes the validator, each doctor's windows on each weekday
      stay pairwise non-overlapping, whatever the candidates were. */
  lemma {:induction false} ValidatedInsertsStayNonOverlapping(hours: seq<WorkingHour>, candidates: seq<WorkingHour>)
    requires NonOverlapping(hours)
    ensures NonOverlapping(InsertValidated(hours, candidates))
    decreases |candidates|
  {
    if candidates != [] {
      var c := candidates[0];
      if ValidateWorkingHour(hours, c) == Accepted {
        AcceptedInsertKeepsNonOverlap(hours, c);
        ValidatedInsertsStayNonOverlapping(hours + [c], candidates[1..]);
      } else {
        ValidatedInsertsStayNonOverlapping(hours, candidates[1..]);
      }
    }
  }
}
