/** One Sudoku cell: a committed value (0 = unset), a shrinking set of
    allowed values and a speculative "tryout" value (class Cell of sudoku.py). */
module Cells {

  /** The exceptions the solver raises: ValueError from set_value,
      ValueError from project_tryout_values_to_undefined_cells, and
      Sudoku.NoValidSolutions from forbid_values and the search. */
  datatype Failure = ValueNotAllowed | BadTryoutValues | NoValidSolutions

  datatype Result<T> = Ok(value: T) | Err(error: Failure)

  datatype Outcome = Pass | Fail(error: Failure)

  /** The digits a cell may hold. */
  const Digits: set<int> := {1, 2, 3, 4, 5, 6, 7, 8, 9}

  /** The three fields of a cell, as a value. */
  datatype CellState = CellState(value: int, allowed: set<int>, tryout: int)

  /** A cell as the constructor leaves it. */
  const Fresh: CellState := CellState(0, Digits, 0)

  /** A nonzero committed value is one of the allowed values. Every
      operation except committing a tryout keeps this. */
  predicate Consistent(s: CellState) {
    s.value != 0 ==> s.value in s.allowed
  }

  /** A committed value equals the tryout value: every operation keeps
      this, since set_value writes both fields and set_value() copies the
      tryout into the value. */
  predicate TryoutAgrees(s: CellState) {
    s.value != 0 ==> s.tryout == s.value
  }

  /** set_value(v) with an explicit v: accepted when v is 0 or allowed; the
      value and the tryout value both become v, the allowed set is kept. */
  function Assign(s: CellState, v: int): (r: Result<CellState>)
    ensures r.Ok? <==> v == 0 || v in s.allowed
    ensures r.Err? ==> r.error == ValueNotAllowed
    ensures r.Ok? ==> r.value.allowed == s.allowed && r.value.value == v && r.value.tryout == v
    ensures r.Ok? ==> Consistent(r.value)
  {
    if v !in s.allowed && v != 0 then Err(ValueNotAllowed)
    else Ok(CellState(v, s.allowed, v))
  }

  /** The allowed set after forbid_values(vs): every member of vs leaves it,
      except 0 and the cell's own value. */
  function Remaining(s: CellState, vs: set<int>): set<int> {
    s.allowed - (vs - {s.value, 0})
  }

  /** forbid_values(vs): the new cell and the call's outcome. A single
      remaining candidate is committed (the outcome says whether the cell was
      unset before); an empty allowed set is a contradiction. */
  ghost function Forbid(s: CellState, vs: set<int>): (r: (CellState, Result<bool>))
    ensures r.0.allowed == Remaining(s, vs)
    ensures |r.0.allowed| == 1 ==> r.0.value in r.0.allowed && r.0.tryout == r.0.value && r.1 == Ok(s.value == 0)
    ensures r.0.allowed == {} <==> r.1 == Err(NoValidSolutions)
    ensures r.0.allowed == {} ==> r.0.value == s.value && r.0.tryout == s.tryout
    ensures |r.0.allowed| >= 2 ==> r.0.value == s.value && r.0.tryout == s.tryout && r.1 == Ok(false)
  {
    Settle(s, Remaining(s, vs))
  }

  /** What forbid_values does with the allowed set left after removing the
      forbidden values. */
  ghost function Settle(s: CellState, left: set<int>): (r: (CellState, Result<bool>))
    ensures r.0.allowed == left
  {
    if |left| == 1 then
      NonEmptyHasMember(left);
      var x :| x in left;
      (CellState(x, left, x), Ok(s.value == 0))
    else if |left| == 0 then
      (s.(allowed := left), Err(NoValidSolutions))
    else
      (s.(allowed := left), Ok(false))
  }

  lemma NonEmptyHasMember(s: set<int>)
    requires |s| > 0
    ensures exists x :: x in s
  {
    if forall x :: x !in s {
      assert false;
    }
  }

  lemma SingletonMember(s: set<int>, x: int, y: int)
    requires |s| == 1 && x in s && y in s
    ensures x == y
  {
    if x != y {
      assert {x, y} <= s;
      assert |{x, y}| == 2;
      SubsetCardinality({x, y}, s);
    }
  }

  lemma SubsetCardinality<T>(a: set<T>, b: set<T>)
    requires a <= b
    ensures |a| <= |b|
    ensures a < b ==> |a| < |b|
  {
    assert b == a + (b - a);
    assert |b| == |a| + |b - a|;
    if a < b {
      var x :| x in b && x !in a;
      assert x in b - a;
    }
  }

  /** forbid_values only ever shrinks the allowed set, never drops the
      cell's own committed value, and ignores 0. */
  lemma {:induction false} ForbidShrinks(s: CellState, vs: set<int>)
    ensures Forbid(s, vs).0.allowed <= s.allowed
    ensures s.allowed - vs <= Forbid(s, vs).0.allowed
    ensures s.value != 0 && s.value in s.allowed ==> s.value in Forbid(s, vs).0.allowed
    ensures Forbid(s, vs) == Forbid(s, vs + {0})
  {
    assert Remaining(s, vs + {0}) == Remaining(s, vs);
  }

  /** A committed, consistent cell keeps its value through forbid_values and
      stays consistent; an unset cell either stays unset or commits one of
      its allowed values. */
  lemma ForbidKeepsCommitted(s: CellState, vs: set<int>)
    requires Consistent(s)
    ensures Consistent(Forbid(s, vs).0)
    ensures s.value != 0 ==> Forbid(s, vs).0.value == s.value && Forbid(s, vs).1 == Ok(false)
    ensures s.value == 0 ==> Forbid(s, vs).0.value == 0 || Forbid(s, vs).0.value in s.allowed
  {
    var r := Forbid(s, vs);
    if s.value != 0 {
      assert s.value in r.0.allowed;
      if |r.0.allowed| == 1 {
        SingletonMember(r.0.allowed, r.0.value, s.value);
      }
    }
  }

  /** forbid_values reports True exactly when it turns an unset cell into a
      committed one (as long as 0 is never an allowed value). */
  lemma ForbidReportsNewCommit(s: CellState, vs: set<int>)
    requires 0 !in s.allowed
    ensures Forbid(s, vs).1 == Ok(true) <==> s.value == 0 && Forbid(s, vs).0.value != 0
    ensures s.value != 0 ==> Forbid(s, vs).0.value != 0
  {
  }

  /** A candidate x that the cell may still legally take (x is allowed, agrees
      with a committed value, and is not forbidden) survives forbid_values;
      the call then succeeds and any value it commits is x. */
  lemma ForbidKeepsCandidate(s: CellState, vs: set<int>, x: int)
    requires x in s.allowed && (s.value != 0 ==> x == s.value)
    requires x !in vs - {s.value}
    ensures x in Forbid(s, vs).0.allowed
    ensures Forbid(s, vs).1.Ok?
    ensures Forbid(s, vs).0.value != 0 ==> Forbid(s, vs).0.value == x
  {
    var r := Forbid(s, vs);
    assert x in r.0.allowed;
    if |r.0.allowed| == 1 {
      SingletonMember(r.0.allowed, r.0.value, x);
    }
  }

  /** Forbidding the cell's own committed value in addition to vs changes
      nothing: forbid_values never removes it. */
  lemma ForbidOwnValue(s: CellState, vs: set<int>)
    ensures Forbid(s, vs + (if s.value != 0 then {s.value} else {})) == Forbid(s, vs)
  {
    assert Remaining(s, vs + (if s.value != 0 then {s.value} else {})) == Remaining(s, vs);
  }

  /** forbid_values never forbids the cell's own value, so a clash between a
      value a call has just committed and a peer's value goes unnoticed: an
      unset cell that loses every digit but 3 commits 3, and forbidding a
      peer's 3 afterwards removes nothing and raises nothing. */
  lemma OwnValueMasksClash()
    ensures Forbid(Fresh, {1, 2, 4, 5, 6, 7, 8, 9}) == (CellState(3, {3}, 3), Ok(true))
    ensures Forbid(CellState(3, {3}, 3), {3}) == (CellState(3, {3}, 3), Ok(false))
  {
    assert Remaining(Fresh, {1, 2, 4, 5, 6, 7, 8, 9}) == {3};
    assert Remaining(CellState(3, {3}, 3), {3}) == {3};
  }

  /** A run of forbid_values calls on one cell, the i-th forbidding vss[i].
      The first contradiction ends the run; otherwise the outcome says
      whether one of the calls committed a new value. */
  ghost function ForbidEach(s: CellState, vss: seq<set<int>>): (CellState, Result<bool>)
    decreases |vss|
  {
    if |vss| == 0 then (s, Ok(false))
    else
      var step := Forbid(s, vss[0]);
      if step.1.Err? then step
      else
        var rest := ForbidEach(step.0, vss[1..]);
        if rest.1.Err? then rest else (rest.0, Ok(step.1.value || rest.1.value))
  }

  /** A run of three calls, written out call by call. */
  lemma ForbidEachSteps(s: CellState, vss: seq<set<int>>)
    requires |vss| == 3
    ensures ForbidEach(s, vss) ==
      var r0 := Forbid(s, vss[0]);
      if r0.1.Err? then r0 else
      var r1 := Forbid(r0.0, vss[1]);
      if r1.1.Err? then r1 else
      var r2 := Forbid(r1.0, vss[2]);
      if r2.1.Err? then r2 else (r2.0, Ok(r0.1.value || r1.1.value || r2.1.value))
  {
    var r0 := Forbid(s, vss[0]);
    if r0.1.Ok? {
      var t := vss[1..];
      assert t[0] == vss[1] && t[1..][0] == vss[2] && |t[1..][1..]| == 0;
      var r1 := Forbid(r0.0, vss[1]);
      if r1.1.Ok? {
        var r2 := Forbid(r1.0, vss[2]);
        assert ForbidEach(r1.0, t[1..]) == (if r2.1.Err? then r2 else (r2.0, Ok(r2.1.value || false)));
      }
    }
  }

  /** A run only shrinks the allowed set, keeps a committed value committed
      (0 never being allowed), commits only allowed values, keeps a tryout in
      step with the value, keeps a consistent cell consistent with its value,
      and fails only with NoValidSolutions. */
  lemma {:induction false} ForbidEachMonotone(s: CellState, vss: seq<set<int>>)
    requires 0 !in s.allowed
    ensures ForbidEach(s, vss).0.allowed <= s.allowed
    ensures s.value != 0 ==> ForbidEach(s, vss).0.value != 0
    ensures ForbidEach(s, vss).0.value == s.value || ForbidEach(s, vss).0.value in s.allowed
    ensures TryoutAgrees(s) ==> TryoutAgrees(ForbidEach(s, vss).0)
    ensures Consistent(s) ==> Consistent(ForbidEach(s, vss).0)
    ensures Consistent(s) && s.value != 0 ==> ForbidEach(s, vss).0.value == s.value
    ensures ForbidEach(s, vss).1.Err? ==> ForbidEach(s, vss).1.error == NoValidSolutions
    decreases |vss|
  {
    if |vss| > 0 {
      var step := Forbid(s, vss[0]);
      ForbidReportsNewCommit(s, vss[0]);
      if Consistent(s) {
        ForbidKeepsCommitted(s, vss[0]);
      }
      if step.1.Ok? {
        ForbidEachMonotone(step.0, vss[1..]);
      }
    }
  }

  /** A run reports a new commit exactly when it turns the unset cell into a
      committed one; a run that reports none leaves an unset cell unset and
      a committed cell committed. */
  lemma {:induction false} ForbidEachProgress(s: CellState, vss: seq<set<int>>)
    requires 0 !in s.allowed
    ensures ForbidEach(s, vss).1 == Ok(true) ==> s.value == 0 && ForbidEach(s, vss).0.value != 0
    ensures ForbidEach(s, vss).1 == Ok(false) ==> (s.value == 0 <==> ForbidEach(s, vss).0.value == 0)
    decreases |vss|
  {
    if |vss| > 0 {
      var step := Forbid(s, vss[0]);
      ForbidReportsNewCommit(s, vss[0]);
      if step.1.Ok? {
        ForbidEachProgress(step.0, vss[1..]);
        ForbidEachMonotone(step.0, vss[1..]);
      }
    }
  }

  /** A candidate x that the cell may still legally take and that no call
      forbids survives the run; the run then succeeds and any value it
      commits is x. */
  lemma {:induction false} ForbidEachKeepsCandidate(s: CellState, vss: seq<set<int>>, x: int)
    requires x in s.allowed && (s.value != 0 ==> x == s.value)
    requires forall i :: 0 <= i < |vss| ==> x !in vss[i] - {s.value}
    ensures x in ForbidEach(s, vss).0.allowed
    ensures ForbidEach(s, vss).1.Ok?
    ensures ForbidEach(s, vss).0.value != 0 ==> ForbidEach(s, vss).0.value == x
    decreases |vss|
  {
    if |vss| > 0 {
      var step := Forbid(s, vss[0]);
      ForbidKeepsCandidate(s, vss[0], x);
      if |step.0.allowed| == 1 {
        SingletonMember(step.0.allowed, step.0.value, x);
      }
      assert step.0.value == s.value || step.0.value == x;
      forall i | 0 <= i < |vss| - 1
        ensures x !in vss[1..][i] - {step.0.value}
      {
        assert vss[1..][i] == vss[i + 1];
      }
      ForbidEachKeepsCandidate(step.0, vss[1..], x);
    }
  }

  /** A run on a consistent cell that reports no new commit leaves its value
      alone, leaves none of the forbidden values (other than its own)
      allowed, and leaves an unset cell at least two candidates. */
  lemma {:induction false} ForbidEachQuiet(s: CellState, vss: seq<set<int>>)
    requires Consistent(s) && 0 !in s.allowed && ForbidEach(s, vss).1 == Ok(false)
    ensures ForbidEach(s, vss).0.value == s.value
    ensures forall i :: 0 <= i < |vss| ==> ForbidEach(s, vss).0.allowed !! (vss[i] - {s.value})
    ensures |vss| > 0 && s.value == 0 ==> |ForbidEach(s, vss).0.allowed| >= 2
    decreases |vss|
  {
    if |vss| > 0 {
      var step := Forbid(s, vss[0]);
      var rest := ForbidEach(step.0, vss[1..]);
      assert step.1 == Ok(false) && rest.1 == Ok(false);
      assert step.0.value == s.value && Consistent(step.0) by {
        ForbidKeepsCommitted(s, vss[0]);
      }
      ForbidEachQuiet(step.0, vss[1..]);
      ForbidEachMonotone(step.0, vss[1..]);
      QuietTail(step.0.allowed, rest.0.allowed, vss, s.value);
    }
  }

  /** forbid_values on a consistent cell whose allowed set already excludes
      every forbidden value but its own, and that keeps at least two
      candidates while unset, changes nothing and reports no new commit. */
  lemma ForbidSettled(s: CellState, vs: set<int>)
    requires Consistent(s) && TryoutAgrees(s)
    requires s.allowed !! (vs - {s.value})
    requires s.value == 0 ==> |s.allowed| >= 2
    ensures Forbid(s, vs) == (s, Ok(false))
  {
    assert Remaining(s, vs) == s.allowed;
    var r := Forbid(s, vs);
    if |s.allowed| == 1 {
      SingletonMember(s.allowed, r.0.value, s.value);
    }
  }

  /** A run of calls none of which forbids anything the cell still allows
      (other than its own value) leaves a settled cell as it is. */
  lemma {:induction false} ForbidEachSettled(s: CellState, vss: seq<set<int>>)
    requires Consistent(s) && TryoutAgrees(s)
    requires forall i :: 0 <= i < |vss| ==> s.allowed !! (vss[i] - {s.value})
    requires s.value == 0 ==> |s.allowed| >= 2
    ensures ForbidEach(s, vss) == (s, Ok(false))
    decreases |vss|
  {
    if |vss| > 0 {
      ForbidSettled(s, vss[0]);
      forall i | 0 <= i < |vss| - 1
        ensures s.allowed !! (vss[1..][i] - {s.value})
      {
        assert vss[1..][i] == vss[i + 1];
      }
      ForbidEachSettled(s, vss[1..]);
    }
  }

  /** The step of ForbidEachQuiet from the tail of the run to the whole run. */
  lemma QuietTail(mid: set<int>, last: set<int>, vss: seq<set<int>>, v: int)
    requires |vss| > 0 && last <= mid && mid !! (vss[0] - {v})
    requires forall i :: 0 <= i < |vss| - 1 ==> last !! (vss[1..][i] - {v})
    ensures forall i :: 0 <= i < |vss| ==> last !! (vss[i] - {v})
  {
    forall i | 0 < i < |vss|
      ensures last !! (vss[i] - {v})
    {
      assert vss[i] == vss[1..][i - 1];
    }
  }

  class Cell {
    var tryoutValue: int
    var value: int
    var allowed: set<int>

    /** The cell's fields as a value. */
    function State(): CellState
      reads this
    {
      CellState(value, allowed, tryoutValue)
    }

    constructor ()
      ensures State() == Fresh
    {
      tryoutValue := 0;
      value := 0;
      allowed := Digits;
    }

    /** set_value(v) with an explicit v; ValueError leaves the cell as it was. */
    method SetValue(v: int) returns (r: Outcome)
      modifies this
      ensures r == (if Assign(old(State()), v).Ok? then Pass else Fail(ValueNotAllowed))
      ensures State() == (if r.Pass? then Assign(old(State()), v).value else old(State()))
    {
      if v !in allowed && v != 0 {
        return Fail(ValueNotAllowed);
      }
      value := v;
      tryoutValue := v;
      return Pass;
    }

    /** set_value() without an argument: the tryout value becomes the value,
        with no membership check. */
    method CommitTryout()
      modifies this
      ensures State() == old(State()).(value := old(tryoutValue))
    {
      value := tryoutValue;
    }

    /** forbid_values(vs). */
    method ForbidValues(vs: set<int>) returns (r: Result<bool>)
      modifies this
      ensures (State(), r) == Forbid(old(State()), vs)
    {
      ghost var s := State();
      allowed := allowed - (vs - {value, 0});
      if |allowed| == 1 {
        var foundNew := value == 0;
        NonEmptyHasMember(allowed);
        var x :| x in allowed;
        var committed := SetValue(x);
        SingletonMember(s.allowed - (vs - {s.value, 0}), x, Forbid(s, vs).0.value);
        return Ok(foundNew);
      } else if |allowed| == 0 {
        return Err(NoValidSolutions);
      } else {
        return Ok(false);
      }
    }
  }
}
