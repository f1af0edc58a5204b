/** The board object (class Sudoku of sudoku.py): 81 cell objects keyed by
    (row, column), updated in place by propagation, assignment and the
    tryout operations. Each method is specified by the value-level
    functions of Grids, Copies and Tryouts applied to the board's state. */
module Board {
  import opened Cells
  import opened Groups
  import opened Grids
  import opened Copies
  import opened Tryouts

  /** The cell dictionary of __init__: a fresh cell per coordinate, row by
      row. */
  method NewCells() returns (m: map<Coord, Cell>)
    ensures forall p {:trigger p in m} :: p in m <==> OnBoard(p)
    ensures forall p, q :: p in m && q in m && p != q ==> m[p] != m[q]
    ensures forall p :: p in m ==> fresh(m[p]) && m[p].State() == Fresh
  {
    m := map[];
    for i := 1 to 10
      invariant forall p :: p in m <==> OnBoard(p) && p.0 < i
      invariant forall p, q :: p in m && q in m && p != q ==> m[p] != m[q]
      invariant forall p :: p in m ==> fresh(m[p]) && m[p].State() == Fresh
    {
      m := AddRow(m, i);
    }
  }

  /** The cells of row i added to the dictionary m. */
  method AddRow(m0: map<Coord, Cell>, i: int) returns (m: map<Coord, Cell>)
    requires 1 <= i <= 9
    requires forall p :: p in m0 <==> OnBoard(p) && p.0 < i
    requires forall p, q :: p in m0 && q in m0 && p != q ==> m0[p] != m0[q]
    requires forall p :: p in m0 ==> m0[p].State() == Fresh
    ensures forall p :: p in m <==> OnBoard(p) && p.0 < i + 1
    ensures forall p, q :: p in m && q in m && p != q ==> m[p] != m[q]
    ensures forall p :: p in m ==> (p in m0 && m[p] == m0[p]) || fresh(m[p])
    ensures forall p :: p in m ==> m[p].State() == Fresh
  {
    m := m0;
    for j := 1 to 10
      invariant forall p :: p in m <==> OnBoard(p) && (p.0 < i || (p.0 == i && p.1 < j))
      invariant forall p, q :: p in m && q in m && p != q ==> m[p] != m[q]
      invariant forall p :: p in m ==> (p in m0 && m[p] == m0[p]) || fresh(m[p])
      invariant forall p :: p in m ==> m[p].State() == Fresh
    {
      var c := new Cell();
      m := m[(i, j) := c];
    }
  }

  class Sudoku {
    /** The cells, keyed by (row, column); the dictionary itself is never
        replaced, only the cells in it change. */
    const cells: map<Coord, Cell>

    /** One distinct cell object per coordinate. */
    ghost predicate Structured() {
      (forall p {:trigger p in cells} :: p in cells <==> OnBoard(p)) &&
      (forall p, q :: p in cells && q in cells && p != q ==> cells[p] != cells[q])
    }

    /** A structured board whose state is well formed and whose committed
        values equal their tryout values. */
    ghost predicate Valid()
      reads this, cells.Values
    {
      Structured() && WellFormed(State()) && TryoutsAgree(State())
    }

    /** The state of every cell, as a value. */
    function State(): Grid
      reads this, cells.Values
    {
      map p | p in cells :: cells[p].State()
    }

    /** __init__: 81 fresh cells, created row by row. The rows, columns and
        squares are the coordinate lists of Groups, read against this
        board. */
    constructor ()
      ensures Valid() && State() == FreshGrid()
      ensures fresh(cells.Values)
    {
      var m := NewCells();
      cells := m;
      new;
      assert State() == FreshGrid() by {
        forall p | p in cells
          ensures State()[p] == Fresh
        {
        }
      }
    }

    /** forbid_values(vs) on cell p, seen from the board. */
    method ForbidCell(p: Coord, vs: set<int>) returns (r: Result<bool>)
      requires Valid() && OnBoard(p)
      modifies cells[p]
      ensures Valid()
      ensures (State(), r) == ForbidAt(old(State()), p, vs)
    {
      ghost var g := State();
      r := cells[p].ForbidValues(vs);
      assert State() == g[p := cells[p].State()];
      ForbidAtMonotone(g, p, vs);
    }

    /** The body of the sweep of process_allowed_values for cell p: forbid
        the nonzero values of its row, then of its column, then of its
        square, each read from the board as the previous call left it. */
    method VisitCell(p: Coord) returns (r: Result<bool>)
      requires Valid() && OnBoard(p)
      modifies cells[p]
      ensures Valid()
      ensures (State(), r) == Visit(old(State()), p)
    {
      ghost var g0 := State();
      ForbidEachSteps(g0[p], VisitSets(g0, p));
      var r0 := ForbidGroup(p, 0, g0);
      if r0.Err? {
        return r0;
      }
      var r1 := ForbidGroup(p, 1, g0);
      if r1.Err? {
        return r1;
      }
      var r2 := ForbidGroup(p, 2, g0);
      if r2.Err? {
        return r2;
      }
      return Ok(r0.value || r1.value || r2.value);
    }

    /** One statement of the sweep: forbid_values on cell p with the nonzero
        values of its k-th group (row, column, square), read from the board
        as it is now. On a board that differs from g0 at most on p, that
        forbids the k-th set of the visit of p on g0. */
    method ForbidGroup(p: Coord, k: int, ghost g0: Grid) returns (r: Result<bool>)
      requires Valid() && OnBoard(p) && 0 <= k < 3 && WellFormed(g0)
      requires forall q :: q in g0 && q != p ==> State()[q] == g0[q]
      modifies cells[p]
      ensures Valid()
      ensures State() == g0[p := Forbid(old(State())[p], VisitSets(g0, p)[k]).0]
      ensures r == Forbid(old(State())[p], VisitSets(g0, p)[k]).1
    {
      FreshStep(g0, State(), p, k);
      r := ForbidCell(p, NonZeroValues(State(), VisitGroup(p, k)));
    }

    /** process_allowed_values: sweeps over all cells in row-major order,
        repeated while a sweep commits a new value. It loses no solution and
        no committed value and only shrinks allowed sets; a contradiction
        means the board had no solution; on a consistent board it stops only
        when every cell is settled, and a board already settled it leaves as
        it is after one quiet sweep. */
    method ProcessAllowedValues() returns (r: Outcome)
      requires Valid()
      modifies cells.Values
      ensures Valid()
      ensures Narrows(old(State()), State()) && Preserves(old(State()), State())
      ensures r.Fail? ==> r.error == NoValidSolutions && NoSolution(old(State()))
      ensures r.Pass? && AllConsistent(old(State())) ==> Settled(State())
      ensures AllConsistent(old(State())) && Settled(old(State())) ==> r.Pass? && State() == old(State())
    {
      ghost var g0 := State();
      var found := true;
      while found
        invariant Valid()
        invariant Narrows(g0, State()) && Preserves(g0, State())
        invariant !found && AllConsistent(g0) ==> Settled(State())
        invariant AllConsistent(g0) && Settled(g0) ==> State() == g0
        decreases |UnsetSet(State())| + (if found then 1 else 0)
      {
        found := false;
        ghost var start := State();
        for k := 0 to 81
          invariant Valid()
          invariant Narrows(g0, State()) && Preserves(g0, State())
          invariant Narrows(start, State())
          invariant found ==> |UnsetSet(State())| < |UnsetSet(start)|
          invariant !found ==> UnsetSet(State()) == UnsetSet(start)
          invariant !found && AllConsistent(g0) ==> SameValues(start, State()) && SettledUpTo(State(), k)
          invariant AllConsistent(g0) && Settled(g0) ==> State() == g0 && !found
        {
          RowMajorIndexOf(k);
          var p := RowMajor()[k];
          ghost var before := State();
          var res := VisitCell(p);
          if AllConsistent(g0) && Settled(g0) {
            assert SettledAt(g0, p);
            VisitSettled(before, p);
          }
          VisitSound(before, p);
          VisitNarrows(before, p);
          NarrowsTrans(g0, before, State());
          PreservesTrans(g0, before, State());
          NarrowsTrans(start, before, State());
          if res.Err? {
            PreservesNoSolution(g0, before);
            return Fail(res.error);
          }
          VisitUnset(before, p);
          SubsetCardinality(UnsetSet(State()), UnsetSet(before));
          if !found && !res.value && AllConsistent(g0) {
            QuietVisitExtends(before, k);
          }
          found := found || res.value;
        }
        if !found && AllConsistent(g0) {
          SettledUpToAll(State());
        }
      }
      return Pass;
    }

    /** set_cell_value(v, r, c): set_value(v) on cell (r, c). */
    method SetCellValue(v: int, r: int, c: int) returns (out: Outcome)
      requires Valid() && OnBoard((r, c))
      modifies cells[(r, c)]
      ensures Valid()
      ensures out.Pass? <==> Assign(old(State())[(r, c)], v).Ok?
      ensures out.Fail? ==> out.error == ValueNotAllowed && State() == old(State())
      ensures out.Pass? ==> State() == old(State())[(r, c) := Assign(old(State())[(r, c)], v).value]
    {
      ghost var g := State();
      out := cells[(r, c)].SetValue(v);
      assert State() == g[(r, c) := cells[(r, c)].State()];
    }

    /** get_cell_value(r, c): 0 exactly on an unset cell, a digit on a
        board whose values are in range. */
    function GetCellValue(r: int, c: int): (v: int)
      reads this, cells.Values
      requires Valid() && OnBoard((r, c))
      ensures v == 0 <==> (r, c) in UnsetSet(State())
      ensures ValuesInRange(State()) ==> 0 <= v <= 9
    {
      assert State()[(r, c)] == cells[(r, c)].State();
      cells[(r, c)].value
    }

    /** get_signature: the three-digit number formed by the first three
        values of the top row. */
    function GetSignature(): (s: int)
      reads this, cells.Values
      requires Valid()
      ensures ValuesInRange(State()) ==>
                0 <= s <= 999 &&
                s / 100 == State()[(1, 1)].value &&
                s / 10 % 10 == State()[(1, 2)].value &&
                s % 10 == State()[(1, 3)].value
    {
      100 * GetCellValue(1, 1) + 10 * GetCellValue(1, 2) + GetCellValue(1, 3)
    }

    /** copy: a fresh board whose state is CopyGrid of this one, or the
        error that stopped it; this board is left as it was. */
    method Copy() returns (r: Result<Sudoku>)
      requires Valid()
      ensures State() == old(State())
      ensures r.Ok? ==> fresh(r.value) && fresh(r.value.cells.Values) && r.value.Valid()
      ensures CopyGrid(State()) == (if r.Ok? then Ok(r.value.State()) else Err(r.error))
    {
      var cpy := new Sudoku();
      var out := cpy.FillFrom(State());
      if out.Fail? {
        return Err(out.error);
      }
      return Ok(cpy);
    }

    /** The loop of copy, run on the fresh board: every cell, in row-major
        order, is set from the source board's cell; the first error ends
        it. */
    method FillFrom(src: Grid) returns (r: Outcome)
      requires Valid() && State() == FreshGrid() && WellFormed(src)
      modifies cells.Values
      ensures Valid()
      ensures CopyGrid(src) == (if r.Pass? then Ok(State()) else Err(r.error))
    {
      ghost var cc := CellCopies(src);
      for k := 0 to 81
        invariant Valid()
        invariant CopyFrom(cc, k) == Ok(State())
      {
        RowMajorIndexOf(k);
        var p := RowMajor()[k];
        assert State()[p] == Fresh by {
          CopyFromSpec(cc, k);
        }
        assert cc[p] == CopyCell(src[p]);
        CopyFromStep(cc, k);
        var out := CopyCellFrom(p, src[p]);
        if out.Fail? {
          CopyFromErr(cc, k + 1);
          return out;
        }
      }
      return Pass;
    }

    /** The body of the loop of copy for cell p of a board under
        construction: set_cell_value with the source cell's value, then
        forbid_values of the digits the source cell does not allow. */
    method CopyCellFrom(p: Coord, s: CellState) returns (r: Outcome)
      requires Valid() && OnBoard(p) && State()[p] == Fresh
      modifies cells[p]
      ensures Valid()
      ensures CopyCell(s) == (if r.Pass? then Ok(State()[p]) else Err(r.error))
      ensures r.Pass? ==> State() == old(State())[p := State()[p]]
    {
      ghost var g := State();
      var out := SetCellValue(s.value, p.0, p.1);
      if out.Fail? {
        return out;
      }
      ghost var a := State()[p];
      assert Assign(Fresh, s.value) == Ok(a) && State() == g[p := a];
      ghost var f := Forbid(a, Digits - s.allowed);
      var res := ForbidCell(p, Digits - s.allowed);
      UpdateTwice(g, p, a, f.0);
      assert State() == g[p := f.0] && res == f.1;
      if res.Err? {
        return Fail(res.error);
      }
      return Pass;
    }

    /** project_tryout_values_to_undefined_cells(vals): the i-th unset cell
        in row-major order gets tryout value vals[i]; a list of the wrong
        length raises ValueError before any cell changes. */
    method ProjectTryoutValues(vals: seq<int>) returns (r: Outcome)
      requires Valid()
      modifies cells.Values
      ensures Valid()
      ensures ProjectTryouts(old(State()), vals) == (if r.Pass? then Ok(State()) else Err(r.error))
    {
      ghost var g := State();
      var us := UnsetCoords(State());
      if |vals| != |us| {
        return Fail(BadTryoutValues);
      }
      UnsetCoordsSpec(g);
      WriteTryouts(us, vals);
      ProjectTryoutsSpec(g, vals);
      return Pass;
    }

    /** The loop of project_tryout_values_to_undefined_cells: cell us[i]
        gets tryout value vals[i], in order. */
    method WriteTryouts(us: seq<Coord>, vals: seq<int>)
      requires Structured() && |us| == |vals|
      requires forall i :: 0 <= i < |us| ==> OnBoard(us[i])
      modifies cells.Values
      ensures State() == SetTryouts(old(State()), us, vals)
    {
      ghost var g := State();
      for i := 0 to |vals|
        invariant forall q :: q in cells ==> cells[q].State() == SetTryouts(g, us[..i], vals[..i])[q]
      {
        ghost var prev := SetTryouts(g, us[..i], vals[..i]);
        assert us[..i + 1][..i] == us[..i] && vals[..i + 1][..i] == vals[..i];
        assert SetTryouts(g, us[..i + 1], vals[..i + 1]) == prev[us[i] := prev[us[i]].(tryout := vals[i])];
        cells[us[i]].tryoutValue := vals[i];
      }
      assert us[..|vals|] == us && vals[..|vals|] == vals;
    }

    /** check_if_tryout_solves_it: every group passes is_tryout_valid, which
        is the case exactly when the tryout values form a solution. */
    predicate CheckIfTryoutSolvesIt()
      reads this, cells.Values
      requires Valid()
      ensures CheckIfTryoutSolvesIt() <==> Solution(TryoutValues(State()))
    {
      TryoutSolvesSpec(State());
      TryoutSolves(State())
    }

    /** set_values_from_tryouts: set_value() on every cell, which copies its
        tryout value into its value with no check. */
    method SetValuesFromTryouts()
      requires Valid()
      modifies cells.Values
      ensures Valid()
      ensures State() == CommitTryouts(old(State()))
    {
      ghost var g := State();
      ghost var c := CommitTryouts(g);
      ghost var done: set<Coord> := {};
      for k := 0 to 81
        invariant forall i :: 0 <= i < k ==> RowMajor()[i] in done
        invariant forall q :: q in cells ==> cells[q].State() == (if q in done then c[q] else g[q])
      {
        RowMajorIndexOf(k);
        var p := RowMajor()[k];
        cells[p].CommitTryout();
        done := done + {p};
      }
      forall q | q in cells
        ensures q in done
      {
        RowMajorAt(q);
      }
      assert State() == c;
      CommitTryoutsSpec(g);
    }
  }
}
