/** The backtracking search of main.py: propagate, then branch on the first
    unset cell, trying each of its allowed values on a copy of the board. */
module Search {
  import opened Cells
  import opened Groups
  import opened Grids
  import opened Copies
  import opened Board

  /** The board a branch starts from: the copy of g with digit x set on the
      unset cell p. */
  ghost function Branch(g: Grid, p: Coord, x: int): Grid
    requires WellFormed(g) && OnBoard(p) && CopyGrid(g).Ok?
    requires g[p].value == 0 && x in g[p].allowed
  {
    CopyKeepsUnsetCandidate(g, p, x);
    var c := CopyGrid(g).value;
    c[p := Assign(c[p], x).value]
  }

  /** Setting x on the copy succeeds; the branch board is well formed, has
      fewer unset cells than g, keeps g's committed values and its
      consistency, and its values are digits. Every solution of g that puts
      x on p is a solution of the branch, so a branch without solutions rules
      x out for p. */
  lemma {:induction false} BranchSpec(g: Grid, p: Coord, x: int)
    requires WellFormed(g) && OnBoard(p) && CopyGrid(g).Ok?
    requires g[p].value == 0 && x in g[p].allowed
    ensures CopyKeepsUnsetCandidateHolds(g, p, x)
    ensures WellFormed(Branch(g, p, x)) && TryoutsAgree(Branch(g, p, x))
    ensures |UnsetSet(Branch(g, p, x))| < |UnsetSet(g)|
    ensures KeepsCommitted(g, Branch(g, p, x))
    ensures AllConsistent(g) ==> AllConsistent(Branch(g, p, x))
    ensures ValuesInRange(Branch(g, p, x))
    ensures NoSolution(Branch(g, p, x)) ==>
              forall sol :: Solution(sol) && Compatible(sol, g) ==> sol[p] != x
  {
    CopyKeepsUnsetCandidate(g, p, x);
    CopySound(g);
    var c := CopyGrid(g).value;
    var h := Branch(g, p, x);
    AssignAt(c, p, x);
    KeepsCommittedTrans(g, c, h);
    assert UnsetSet(h) < UnsetSet(g) by {
      assert p in UnsetSet(g) && p !in UnsetSet(h);
    }
    SubsetCardinality(UnsetSet(h), UnsetSet(g));
  }

  /** The copy of g keeps x as a candidate for the unset cell p, so
      set_cell_value(x) on it is accepted. */
  ghost predicate CopyKeepsUnsetCandidateHolds(g: Grid, p: Coord, x: int)
    requires WellFormed(g) && OnBoard(p) && CopyGrid(g).Ok?
  {
    p in CopyGrid(g).value && Assign(CopyGrid(g).value[p], x).Ok?
  }

  /** How one value tried on the branching cell ends: a solved board, a
      branch that raised NoValidSolutions (which try_variants catches), or
      an error from copying the board (which it does not). */
  datatype Attempt = Found(board: Sudoku) | DeadEnd | Raised(error: Failure)

  /** try_variants(sdk). A failure means the board had no solution (and, on
      a board whose values are digits, it is NoValidSolutions). A success is
      a board with every cell committed that keeps the committed values of
      the input; on a consistent input it is consistent and every cell is
      settled. The input board is propagated in place, which only narrows it
      and loses none of its solutions; it is itself the result exactly when
      propagation leaves no cell unset, and otherwise the result is a board
      created during the call. */
  method TryVariants(sdk: Sudoku) returns (r: Result<Sudoku>)
    requires sdk.Valid()
    modifies sdk.cells.Values
    ensures r.Err? ==> NoSolution(old(sdk.State()))
    ensures r.Err? && ValuesInRange(old(sdk.State())) ==> r.error == NoValidSolutions
    ensures r.Ok? ==> r.value.Valid() && UnsetSet(r.value.State()) == {}
    ensures Narrows(old(sdk.State()), sdk.State()) && Preserves(old(sdk.State()), sdk.State())
    ensures r.Ok? ==> r.value == sdk || (fresh(r.value) && fresh(r.value.cells.Values))
    ensures r.Ok? ==> (r.value == sdk <==> UnsetSet(sdk.State()) == {})
    ensures r.Ok? ==> KeepsCommitted(old(sdk.State()), r.value.State())
    ensures r.Ok? && AllConsistent(old(sdk.State())) ==>
              AllConsistent(r.value.State()) && Settled(r.value.State())
    ensures r.Ok? && ValuesInRange(old(sdk.State())) ==> ValuesInRange(r.value.State())
    decreases |UnsetSet(sdk.State())|, 2
  {
    ghost var g0 := sdk.State();
    var out := sdk.ProcessAllowedValues();
    if out.Fail? {
      return Err(out.error);
    }
    ghost var g1 := sdk.State();
    KeepsCommittedUnset(g0, g1);
    SubsetCardinality(UnsetSet(g1), UnsetSet(g0));
    var undefined := UnsetCoords(sdk.State());
    UnsetCoordsSpec(g1);
    if |undefined| == 0 {
      assert UnsetSet(g1) == {};
      return Ok(sdk);
    }
    assert undefined[0] in UnsetSet(g1);
    r := TryAll(sdk, undefined[0]);
    assert sdk.State() == g1 && UnsetSet(g1) != {};
    if r.Ok? {
      assert r.value != sdk;
      KeepsCommittedTrans(g0, g1, r.value.State());
    } else {
      PreservesNoSolution(g0, g1);
    }
  }

  /** The loop of try_variants over the allowed values of the unset cell p:
      the first value whose branch is solved gives the result, a branch that
      raises NoValidSolutions moves on to the next value, and when no value
      is left the board has no solution. The board itself is not changed. */
  method TryAll(sdk: Sudoku, p: Coord) returns (r: Result<Sudoku>)
    requires sdk.Valid() && OnBoard(p) && sdk.State()[p].value == 0
    ensures r.Err? ==> NoSolution(old(sdk.State()))
    ensures r.Err? && ValuesInRange(old(sdk.State())) ==> r.error == NoValidSolutions
    ensures r.Ok? ==> fresh(r.value) && fresh(r.value.cells.Values)
    ensures r.Ok? ==> r.value.Valid() && UnsetSet(r.value.State()) == {}
    ensures r.Ok? ==> KeepsCommitted(old(sdk.State()), r.value.State()) && ValuesInRange(r.value.State())
    ensures r.Ok? && AllConsistent(old(sdk.State())) ==>
              AllConsistent(r.value.State()) && Settled(r.value.State())
    decreases |UnsetSet(sdk.State())|, 1
  {
    ghost var g := sdk.State();
    var allowed := sdk.cells[p].allowed;
    assert allowed == g[p].allowed;
    var rest := allowed;
    while rest != {}
      invariant sdk.State() == g
      invariant rest <= allowed
      invariant forall sol :: Solution(sol) && Compatible(sol, g) ==> sol[p] in rest
      decreases rest
    {
      var x :| x in rest;
      rest := rest - {x};
      var a := TryValue(sdk, p, x);
      match a
      case Found(board) =>
        return Ok(board);
      case Raised(error) =>
        return Err(error);
      case DeadEnd =>
    }
    return Err(NoValidSolutions);
  }

  /** The body of the loop of try_variants for value x of the unset cell p:
      copy the board, set x on the copy, and search from there. The board
      itself is not changed. A dead end rules x out for p in every solution. */
  method TryValue(sdk: Sudoku, p: Coord, x: int) returns (a: Attempt)
    requires sdk.Valid() && OnBoard(p)
    requires sdk.State()[p].value == 0 && x in sdk.State()[p].allowed
    ensures a.Raised? ==> NoSolution(old(sdk.State()))
    ensures a.Raised? && ValuesInRange(old(sdk.State())) ==> a.error == NoValidSolutions
    ensures a.DeadEnd? ==> forall sol :: Solution(sol) && Compatible(sol, old(sdk.State())) ==> sol[p] != x
    ensures a.Found? ==> fresh(a.board) && fresh(a.board.cells.Values)
    ensures a.Found? ==> a.board.Valid() && UnsetSet(a.board.State()) == {}
    ensures a.Found? ==> KeepsCommitted(old(sdk.State()), a.board.State()) && ValuesInRange(a.board.State())
    ensures a.Found? && AllConsistent(old(sdk.State())) ==>
              AllConsistent(a.board.State()) && Settled(a.board.State())
    decreases |UnsetSet(sdk.State())|, 0
  {
    ghost var g := sdk.State();
    var copied := sdk.Copy();
    CopySound(g);
    if copied.Err? {
      return Raised(copied.error);
    }
    var cp := copied.value;
    ghost var c := cp.State();
    assert c == CopyGrid(g).value;
    BranchSpec(g, p, x);
    assert (p.0, p.1) == p;
    assert cp.cells[(p.0, p.1)] in cp.cells.Values;
    var placed := cp.SetCellValue(x, p.0, p.1);
    assert placed.Pass?;
    ghost var b := cp.State();
    assert b == Branch(g, p, x);
    var res := TryVariants(cp);
    if res.Ok? {
      KeepsCommittedTrans(g, b, res.value.State());
      return Found(res.value);
    }
    assert res.error == NoValidSolutions;
    return DeadEnd;
  }

  /** Line 49 of main.py: each loaded puzzle is solved on a copy, so the
      loaded board itself is left as it was. */
  method SolveCopy(sdk: Sudoku) returns (r: Result<Sudoku>)
    requires sdk.Valid()
    ensures r.Err? ==> NoSolution(old(sdk.State()))
    ensures r.Err? && ValuesInRange(old(sdk.State())) ==> r.error == NoValidSolutions
    ensures r.Ok? ==> r.value.Valid() && UnsetSet(r.value.State()) == {}
    ensures r.Ok? ==> KeepsCommitted(old(sdk.State()), r.value.State())
    ensures r.Ok? && AllConsistent(old(sdk.State())) ==>
              AllConsistent(r.value.State()) && Settled(r.value.State())
  {
    ghost var g := sdk.State();
    var copied := sdk.Copy();
    CopySound(g);
    if copied.Err? {
      return Err(copied.error);
    }
    var cp := copied.value;
    ghost var c := cp.State();
    r := TryVariants(cp);
    if r.Ok? {
      KeepsCommittedTrans(g, c, r.value.State());
    } else {
      PreservesNoSolution(g, c);
    }
  }
}
