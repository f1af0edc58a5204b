/** What Sudoku.copy computes: a fresh board on which every cell gets the
    original's value through set_cell_value and then has the digits the
    original no longer allows forbidden, cell by cell in row-major order. */
module Copies {
  import opened Cells
  import opened Groups
  import opened Grids

  /** The copy of one cell in state s, or the error that stops the copy. */
  ghost function CopyCell(s: CellState): Result<CellState>
  {
    var a := Assign(Fresh, s.value);
    if a.Err? then Err(a.error)
    else
      var f := Forbid(a.value, Digits - s.allowed);
      if f.1.Err? then Err(f.1.error) else Ok(f.0)
  }

  /** c is what copying a cell in state s gives: the copy has s's allowed
      set, plus s's value if that was not allowed; a committed value is kept;
      an unset cell whose allowed set is a singleton is committed; the tryout
      value is not copied. A value outside 0..9 raises ValueError, and an
      unset cell with nothing allowed raises NoValidSolutions. A digit a
      solution may put on the cell survives, and if the copy commits a value
      it is that digit. */
  predicate CopiedAs(s: CellState, c: Result<CellState>) {
    (c.Err? <==> (s.value != 0 && s.value !in Digits) || (s.value == 0 && s.allowed == {})) &&
    (c.Err? ==> c.error == (if s.value == 0 then NoValidSolutions else ValueNotAllowed)) &&
    (c.Ok? ==> c.value.allowed == s.allowed + (if s.value == 0 then {} else {s.value})) &&
    (c.Ok? ==> c.value.tryout == c.value.value) &&
    (c.Ok? && s.value != 0 ==> c.value.value == s.value) &&
    (c.Ok? && s.value == 0 && |s.allowed| >= 2 ==> c.value.value == 0) &&
    (c.Ok? && s.value == 0 && |s.allowed| == 1 ==> c.value.value in s.allowed)
  }

  /** A digit a solution may put on a cell in state s survives its copy c,
      and if the copy commits a value it is that digit. */
  predicate KeepsCandidates(s: CellState, c: Result<CellState>) {
    forall x :: x in s.allowed && (s.value != 0 ==> x == s.value) ==>
      c.Ok? && x in c.value.allowed && (c.value.value != 0 ==> c.value.value == x)
  }

  lemma CopyCellSpec(s: CellState)
    requires s.allowed <= Digits
    ensures CopiedAs(s, CopyCell(s)) && KeepsCandidates(s, CopyCell(s))
  {
    CopyCellShape(s);
    CopyCellCandidates(s);
  }

  lemma CopyCellShape(s: CellState)
    requires s.allowed <= Digits
    ensures CopiedAs(s, CopyCell(s))
  {
    if s.value == 0 {
      CopyUnsetShape(s);
    } else {
      CopySetShape(s);
    }
  }

  lemma {:induction false} CopyUnsetShape(s: CellState)
    requires s.allowed <= Digits && s.value == 0
    ensures CopiedAs(s, CopyCell(s))
  {
    var a := Assign(Fresh, 0).value;
    assert Remaining(a, Digits - s.allowed) == s.allowed;
  }

  lemma {:induction false} CopySetShape(s: CellState)
    requires s.allowed <= Digits && s.value != 0
    ensures CopiedAs(s, CopyCell(s))
  {
    var v := s.value;
    if v in Digits {
      var a := Assign(Fresh, v).value;
      assert Remaining(a, Digits - s.allowed) == s.allowed + {v};
      CopyCommitted(s, Forbid(a, Digits - s.allowed).0);
    }
  }

  lemma {:induction false} CopyCellCandidates(s: CellState)
    requires s.allowed <= Digits
    ensures KeepsCandidates(s, CopyCell(s))
  {
    var v := s.value;
    if v == 0 || v in Digits {
      var a := Assign(Fresh, v).value;
      assert Remaining(a, Digits - s.allowed) == s.allowed + (if v == 0 then {} else {v});
      CopyKeepsCandidates(s, Forbid(a, Digits - s.allowed).0);
    }
  }

  /** The copy of a cell with a committed digit keeps that digit. */
  lemma CopyCommitted(s: CellState, c: CellState)
    requires s.value != 0 && s.value in c.allowed
    requires |c.allowed| == 1 ==> c.value in c.allowed
    requires |c.allowed| != 1 ==> c.value == s.value
    ensures c.value == s.value
  {
    if |c.allowed| == 1 {
      SingletonMember(c.allowed, s.value, c.value);
    }
  }

  /** The candidates of s survive in its copy c. */
  lemma CopyKeepsCandidates(s: CellState, c: CellState)
    requires s.allowed <= c.allowed
    requires |c.allowed| == 1 ==> c.value in c.allowed
    requires |c.allowed| != 1 ==> c.value == s.value
    requires s.value != 0 ==> c.value == s.value
    ensures forall x :: x in s.allowed && (s.value != 0 ==> x == s.value) ==>
              x in c.allowed && (c.value != 0 ==> c.value == x)
  {
    forall x | x in s.allowed && (s.value != 0 ==> x == s.value)
      ensures c.value != 0 ==> c.value == x
    {
      if c.value != 0 && s.value == 0 {
        SingletonMember(c.allowed, x, c.value);
      }
    }
  }

  /** The copy of every cell of g, each on its own. */
  ghost function CellCopies(g: Grid): (cc: map<Coord, Result<CellState>>)
    ensures cc.Keys == g.Keys
  {
    map p | p in g :: CopyCell(g[p])
  }

  /** The copy after its first k cells in row-major order, given each cell's
      copy cc: the first cell whose copy fails ends it with that cell's error. */
  ghost function CopyFrom(cc: map<Coord, Result<CellState>>, k: nat): Result<Grid>
    requires forall p :: OnBoard(p) ==> p in cc
    requires k <= 81
  {
    if k == 0 then Ok(FreshGrid())
    else
      var prev := CopyFrom(cc, k - 1);
      if prev.Err? then prev
      else
        RowMajorIndexOf(k - 1);
        var p := RowMajor()[k - 1];
        if cc[p].Err? then Err(cc[p].error) else Ok(prev.value[p := cc[p].value])
  }

  /** One more cell: the copy so far either takes cell k's copy or ends
      with its error. */
  lemma CopyFromStep(cc: map<Coord, Result<CellState>>, k: nat)
    requires forall p :: OnBoard(p) ==> p in cc
    requires k < 81 && CopyFrom(cc, k).Ok?
    ensures RowMajor()[k] in cc
    ensures CopyFrom(cc, k + 1) ==
              if cc[RowMajor()[k]].Err? then Err(cc[RowMajor()[k]].error)
              else Ok(CopyFrom(cc, k).value[RowMajor()[k] := cc[RowMajor()[k]].value])
  {
    RowMajorIndexOf(k);
  }

  /** Once a cell's copy fails, the copy has failed for good. */
  lemma {:induction false} CopyFromErr(cc: map<Coord, Result<CellState>>, k: nat)
    requires forall p :: OnBoard(p) ==> p in cc
    requires k <= 81 && CopyFrom(cc, k).Err?
    ensures CopyFrom(cc, 81) == CopyFrom(cc, k)
    decreases 81 - k
  {
    if k < 81 {
      CopyFromErr(cc, k + 1);
    }
  }

  /** copy() of board g. */
  ghost function CopyGrid(g: Grid): Result<Grid>
    requires WellFormed(g)
  {
    CopyFrom(CellCopies(g), 81)
  }

  lemma {:induction false} CopyFromSpec(cc: map<Coord, Result<CellState>>, k: nat)
    requires forall p :: OnBoard(p) ==> p in cc
    requires k <= 81
    ensures CopyFrom(cc, k).Ok? <==> forall i :: 0 <= i < k ==> cc[RowMajor()[i]].Ok?
    ensures CopyFrom(cc, k).Err? ==> exists i :: 0 <= i < k && cc[RowMajor()[i]] == Err(CopyFrom(cc, k).error)
    ensures CopyFrom(cc, k).Ok? ==> CopyFrom(cc, k).value.Keys == AllCoords
    ensures CopyFrom(cc, k).Ok? ==> forall i :: 0 <= i < k ==> CopyFrom(cc, k).value[RowMajor()[i]] == cc[RowMajor()[i]].value
    ensures CopyFrom(cc, k).Ok? ==> forall i :: k <= i < 81 ==> CopyFrom(cc, k).value[RowMajor()[i]] == Fresh
  {
    RowMajorEnumerates();
    if k > 0 {
      CopyFromSpec(cc, k - 1);
    }
  }

  /** The whole copy succeeds exactly when every cell's copy does; it then
      holds each cell's copy, and otherwise fails with the error of a
      failing cell. */
  lemma {:induction false} CopyAllSpec(cc: map<Coord, Result<CellState>>)
    requires forall p :: OnBoard(p) ==> p in cc
    ensures CopyFrom(cc, 81).Ok? <==> forall p :: OnBoard(p) ==> cc[p].Ok?
    ensures CopyFrom(cc, 81).Ok? ==> CopyFrom(cc, 81).value.Keys == AllCoords
    ensures CopyFrom(cc, 81).Ok? ==> forall p :: OnBoard(p) ==> CopyFrom(cc, 81).value[p] == cc[p].value
    ensures CopyFrom(cc, 81).Err? ==> exists p :: OnBoard(p) && cc[p] == Err(CopyFrom(cc, 81).error)
  {
    var r := CopyFrom(cc, 81);
    CopyFromSpec(cc, 81);
    RowMajorEnumerates();
    if r.Err? {
      var i :| 0 <= i < 81 && cc[RowMajor()[i]] == Err(r.error);
      assert OnBoard(RowMajor()[i]);
    } else {
      forall p | OnBoard(p)
        ensures r.value[p] == cc[p].value
      {
        assert RowMajor()[RowMajorIndex(p)] == p;
      }
    }
    if forall p :: OnBoard(p) ==> cc[p].Ok? {
      forall i | 0 <= i < 81
        ensures cc[RowMajor()[i]].Ok?
      {
        assert OnBoard(RowMajor()[i]);
      }
    }
  }

  /** Each cell of CellCopies(g) is what copying that cell gives. */
  lemma CellCopiesSpec(g: Grid)
    requires WellFormed(g)
    ensures forall p :: OnBoard(p) ==> p in CellCopies(g) && CopiedAs(g[p], CellCopies(g)[p])
    ensures forall p :: OnBoard(p) ==> KeepsCandidates(g[p], CellCopies(g)[p])
  {
    forall p | OnBoard(p)
      ensures CopiedAs(g[p], CellCopies(g)[p]) && KeepsCandidates(g[p], CellCopies(g)[p])
    {
      CopyCellSpec(g[p]);
    }
  }

  /** Copying cells as cc prescribes loses no committed value, gives every
      cell a tryout value equal to its value, and keeps the board consistent
      if it was; it succeeds only on a board whose values are in 0..9. */
  lemma {:induction false} CopyShapeFrom(g: Grid, cc: map<Coord, Result<CellState>>)
    requires WellFormed(g)
    requires forall p :: OnBoard(p) ==> p in cc && CopiedAs(g[p], cc[p])
    ensures CopyFrom(cc, 81).Ok? ==> WellFormed(CopyFrom(cc, 81).value) && KeepsCommitted(g, CopyFrom(cc, 81).value)
    ensures CopyFrom(cc, 81).Ok? ==> TryoutsAgree(CopyFrom(cc, 81).value)
    ensures CopyFrom(cc, 81).Ok? && AllConsistent(g) ==> AllConsistent(CopyFrom(cc, 81).value)
    ensures CopyFrom(cc, 81).Ok? ==> ValuesInRange(g) && ValuesInRange(CopyFrom(cc, 81).value)
  {
    var r := CopyFrom(cc, 81);
    if r.Ok? {
      CopyAllCells(g, cc);
      CopiedShape(g, cc, r.value);
    }
  }

  /** h holds, on every cell of g, the copy cc prescribes for it. */
  predicate CopiedCells(g: Grid, cc: map<Coord, Result<CellState>>, h: Grid) {
    h.Keys == g.Keys && forall p :: p in g ==> p in cc && CopiedAs(g[p], cc[p]) && cc[p] == Ok(h[p])
  }

  lemma {:induction false} CopiedShape(g: Grid, cc: map<Coord, Result<CellState>>, h: Grid)
    requires WellFormed(g) && CopiedCells(g, cc, h)
    ensures WellFormed(h) && KeepsCommitted(g, h) && TryoutsAgree(h)
    ensures AllConsistent(g) ==> AllConsistent(h)
    ensures ValuesInRange(g) && ValuesInRange(h)
  {
    forall p | p in g
      ensures h[p].allowed <= Digits
      ensures g[p].value != 0 ==> h[p].value != 0
      ensures g[p].value != 0 && g[p].value in g[p].allowed ==> h[p].value == g[p].value && h[p].value in h[p].allowed
      ensures Consistent(h[p]) && TryoutAgrees(h[p])
      ensures g[p].value == 0 || g[p].value in Digits
      ensures h[p].value == 0 || h[p].value in Digits
    {
      assert CopiedAs(g[p], cc[p]);
    }
  }

  /** Copying cells as cc prescribes loses no solution; a copy that fails
      shows the board had no solution, and on a board whose values are in
      0..9 the only failure is NoValidSolutions. */
  lemma {:induction false} CopyPreservesFrom(g: Grid, cc: map<Coord, Result<CellState>>)
    requires WellFormed(g)
    requires forall p :: OnBoard(p) ==> p in cc && CopiedAs(g[p], cc[p]) && KeepsCandidates(g[p], cc[p])
    ensures CopyFrom(cc, 81).Ok? ==> Preserves(g, CopyFrom(cc, 81).value)
    ensures CopyFrom(cc, 81).Err? ==> NoSolution(g)
    ensures CopyFrom(cc, 81).Err? && ValuesInRange(g) ==> CopyFrom(cc, 81).error == NoValidSolutions
  {
    var r := CopyFrom(cc, 81);
    CopyAllSpec(cc);
    assert forall p :: OnBoard(p) ==> KeepsCandidates(g[p], cc[p]);
    forall sol | Solution(sol) && Compatible(sol, g)
      ensures r.Ok? && Compatible(sol, r.value)
    {
      assert forall p :: p in g ==> sol[p] in g[p].allowed && (g[p].value != 0 ==> sol[p] == g[p].value);
    }
    if r.Err? {
      var p :| OnBoard(p) && cc[p] == Err(r.error);
      assert p in g;
    }
  }

  /** A copy loses no solution and no committed value, adds no unset cell,
      resets every tryout value to the cell's value, and keeps the board
      consistent if it was; it succeeds only on a board whose values are in
      0..9. A copy that fails
      shows the board had no solution; on a board whose values are in 0..9
      the only failure is NoValidSolutions. */
  lemma {:induction false} CopySound(g: Grid)
    requires WellFormed(g)
    ensures CopyGrid(g).Ok? ==>
              WellFormed(CopyGrid(g).value) && Preserves(g, CopyGrid(g).value) &&
              KeepsCommitted(g, CopyGrid(g).value) && UnsetSet(CopyGrid(g).value) <= UnsetSet(g)
    ensures CopyGrid(g).Ok? ==> TryoutsAgree(CopyGrid(g).value)
    ensures CopyGrid(g).Ok? && AllConsistent(g) ==> AllConsistent(CopyGrid(g).value)
    ensures CopyGrid(g).Ok? ==> ValuesInRange(g) && ValuesInRange(CopyGrid(g).value)
    ensures CopyGrid(g).Err? ==> NoSolution(g)
    ensures CopyGrid(g).Err? && ValuesInRange(g) ==> CopyGrid(g).error == NoValidSolutions
  {
    CellCopiesSpec(g);
    CopyShapeFrom(g, CellCopies(g));
    CopyPreservesFrom(g, CellCopies(g));
    if CopyGrid(g).Ok? {
      KeepsCommittedUnset(g, CopyGrid(g).value);
    }
  }

  /** On a consistent board the copy fails exactly when some cell allows
      nothing; otherwise it holds the same allowed sets and committed values,
      and an unset cell stays unset unless it had a single candidate, which
      the copy commits. */
  lemma {:induction false} CopyFaithfulFrom(g: Grid, cc: map<Coord, Result<CellState>>)
    requires WellFormed(g) && AllConsistent(g)
    requires forall p :: OnBoard(p) ==> p in cc && CopiedAs(g[p], cc[p])
    ensures CopyFrom(cc, 81).Ok? <==> forall p :: p in g ==> g[p].allowed != {}
    ensures CopyFrom(cc, 81).Ok? ==> CopyFrom(cc, 81).value.Keys == g.Keys
    ensures CopyFrom(cc, 81).Ok? ==> forall p :: p in g ==>
              CopyFrom(cc, 81).value[p].allowed == g[p].allowed &&
              (g[p].value != 0 || |g[p].allowed| >= 2 ==> CopyFrom(cc, 81).value[p].value == g[p].value) &&
              (g[p].value == 0 && |g[p].allowed| == 1 ==> CopyFrom(cc, 81).value[p].value in g[p].allowed)
  {
    var r := CopyFrom(cc, 81);
    CopyAllSpec(cc);
    forall p | p in g
      ensures cc[p].Ok? <==> g[p].allowed != {}
    {
      assert CopiedAs(g[p], cc[p]);
    }
    if r.Ok? {
      CopyAllCells(g, cc);
      CopiedFaithful(g, cc, r.value);
    }
  }

  lemma {:induction false} CopyAllCells(g: Grid, cc: map<Coord, Result<CellState>>)
    requires WellFormed(g)
    requires forall p :: OnBoard(p) ==> p in cc && CopiedAs(g[p], cc[p])
    ensures CopyFrom(cc, 81).Ok? ==> CopiedCells(g, cc, CopyFrom(cc, 81).value)
  {
    var r := CopyFrom(cc, 81);
    CopyAllSpec(cc);
    if r.Ok? {
      CopiedCellsOf(g, cc, r.value);
    }
  }

  /** A board holding every cell's successful copy holds the copied cells. */
  lemma CopiedCellsOf(g: Grid, cc: map<Coord, Result<CellState>>, h: Grid)
    requires WellFormed(g)
    requires forall p :: OnBoard(p) ==> p in cc && CopiedAs(g[p], cc[p])
    requires forall p :: OnBoard(p) ==> cc[p].Ok?
    requires h.Keys == AllCoords && forall p :: OnBoard(p) ==> h[p] == cc[p].value
    ensures CopiedCells(g, cc, h)
  {
    RowMajorEnumerates();
    assert h.Keys == g.Keys;
    forall p | p in g
      ensures p in cc && CopiedAs(g[p], cc[p]) && cc[p] == Ok(h[p])
    {
      assert OnBoard(p);
    }
  }

  lemma {:induction false} CopiedFaithful(g: Grid, cc: map<Coord, Result<CellState>>, h: Grid)
    requires WellFormed(g) && AllConsistent(g) && CopiedCells(g, cc, h)
    ensures forall p :: p in g ==>
              h[p].allowed == g[p].allowed &&
              (g[p].value != 0 || |g[p].allowed| >= 2 ==> h[p].value == g[p].value) &&
              (g[p].value == 0 && |g[p].allowed| == 1 ==> h[p].value in g[p].allowed)
  {
    forall p | p in g
      ensures h[p].allowed == g[p].allowed
      ensures g[p].value != 0 || |g[p].allowed| >= 2 ==> h[p].value == g[p].value
      ensures g[p].value == 0 && |g[p].allowed| == 1 ==> h[p].value in g[p].allowed
    {
      assert CopiedAs(g[p], cc[p]);
    }
  }

  lemma {:induction false} CopyFaithful(g: Grid)
    requires WellFormed(g) && AllConsistent(g)
    ensures CopyGrid(g).Ok? <==> forall p :: p in g ==> g[p].allowed != {}
    ensures CopyGrid(g).Ok? ==> CopyGrid(g).value.Keys == g.Keys
    ensures CopyGrid(g).Ok? ==> forall p :: p in g ==>
              CopyGrid(g).value[p].allowed == g[p].allowed &&
              (g[p].value != 0 || |g[p].allowed| >= 2 ==> CopyGrid(g).value[p].value == g[p].value) &&
              (g[p].value == 0 && |g[p].allowed| == 1 ==> CopyGrid(g).value[p].value in g[p].allowed)
  {
    CellCopiesSpec(g);
    CopyFaithfulFrom(g, CellCopies(g));
  }

  /** A digit still allowed on an unset cell is allowed on its copy, and if
      the copy commits that cell it commits that digit. */
  lemma {:induction false} CopyKeepsUnsetCandidate(g: Grid, p: Coord, x: int)
    requires WellFormed(g) && OnBoard(p) && CopyGrid(g).Ok?
    requires g[p].value == 0 && x in g[p].allowed
    ensures p in CopyGrid(g).value && x in CopyGrid(g).value[p].allowed
    ensures CopyGrid(g).value[p].value != 0 ==> CopyGrid(g).value[p].value == x
  {
    CellCopiesSpec(g);
    CopyCandidateFrom(g, CellCopies(g), p, x);
  }

  lemma {:induction false} CopyCandidateFrom(g: Grid, cc: map<Coord, Result<CellState>>, p: Coord, x: int)
    requires WellFormed(g) && OnBoard(p)
    requires forall q :: OnBoard(q) ==> q in cc && KeepsCandidates(g[q], cc[q])
    requires CopyFrom(cc, 81).Ok? && g[p].value == 0 && x in g[p].allowed
    ensures p in CopyFrom(cc, 81).value && x in CopyFrom(cc, 81).value[p].allowed
    ensures CopyFrom(cc, 81).value[p].value != 0 ==> CopyFrom(cc, 81).value[p].value == x
  {
    CopyAllSpec(cc);
    assert KeepsCandidates(g[p], cc[p]);
  }
}
