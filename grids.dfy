/** A board as a value: the state of its 81 cells, what a solution of the
    board is, and the effect of the forbid_values calls of
    Sudoku.process_allowed_values on that state. */
module Grids {
  import opened Cells
  import opened Groups

  /** The cells of a board, by coordinate. */
  type Grid = map<Coord, CellState>

  /** All 81 cells are present and no allowed set leaves 1..9. */
  ghost predicate WellFormed(g: Grid) {
    (forall p {:trigger p in g} :: p in g <==> OnBoard(p)) &&
    (forall p :: p in g ==> g[p].allowed <= Digits)
  }

  /** What well-formedness says about one cell. */
  lemma WellFormedAt(g: Grid, p: Coord)
    requires WellFormed(g) && OnBoard(p)
    ensures p in g && g[p].allowed <= Digits && 0 !in g[p].allowed
  {
    assert p in g;
  }

  predicate AllConsistent(g: Grid) {
    forall p :: p in g ==> Consistent(g[p])
  }

  /** Every committed value is a digit (no out-of-range tryout was committed). */
  predicate ValuesInRange(g: Grid) {
    forall p :: p in g ==> g[p].value == 0 || g[p].value in Digits
  }

  predicate TryoutsAgree(g: Grid) {
    forall p :: p in g ==> TryoutAgrees(g[p])
  }

  /** A board as the constructor leaves it. */
  function FreshGrid(): (g: Grid)
    ensures WellFormed(g) && AllConsistent(g) && ValuesInRange(g) && TryoutsAgree(g)
    ensures forall p :: p in g ==> g[p] == Fresh
  {
    RowMajorEnumerates();
    map p | p in AllCoords :: Fresh
  }

  /** CellSet.get_non_zero_values_set: the nonzero committed values of the
      cells cs, collected one cell at a time. */
  function NonZeroValues(g: Grid, cs: seq<Coord>): set<int>
    requires forall i :: 0 <= i < |cs| ==> cs[i] in g
  {
    if |cs| == 0 then {}
    else
      var q := cs[|cs| - 1];
      NonZeroValues(g, cs[..|cs| - 1]) + (if g[q].value != 0 then {g[q].value} else {})
  }

  /** The nonzero values of a group are exactly the values other than 0
      committed on its cells. */
  lemma {:induction false} NonZeroValuesSpec(g: Grid, cs: seq<Coord>)
    requires forall i :: 0 <= i < |cs| ==> cs[i] in g
    ensures 0 !in NonZeroValues(g, cs)
    ensures forall i :: 0 <= i < |cs| && g[cs[i]].value != 0 ==> g[cs[i]].value in NonZeroValues(g, cs)
    ensures forall x :: x in NonZeroValues(g, cs) ==> exists i :: 0 <= i < |cs| && g[cs[i]].value == x
  {
    if |cs| > 0 {
      var t := cs[..|cs| - 1];
      NonZeroValuesSpec(g, t);
      assert forall i :: 0 <= i < |t| ==> t[i] == cs[i];
    }
  }

  /** The nonzero values of a group depend only on the values of its cells. */
  lemma {:induction false} NonZeroValuesFrame(g: Grid, h: Grid, cs: seq<Coord>)
    requires forall i :: 0 <= i < |cs| ==> cs[i] in g && cs[i] in h && h[cs[i]].value == g[cs[i]].value
    ensures NonZeroValues(h, cs) == NonZeroValues(g, cs)
  {
    if |cs| > 0 {
      NonZeroValuesFrame(g, h, cs[..|cs| - 1]);
    }
  }

  /** g and h hold the same cells with the same committed values. */
  predicate SameValues(g: Grid, h: Grid) {
    g.Keys == h.Keys && forall q :: q in g ==> h[q].value == g[q].value
  }

  /** The cells not yet committed. */
  function UnsetSet(g: Grid): (u: set<Coord>)
    ensures forall p :: p in u <==> p in g && g[p].value == 0
  {
    set p | p in g && g[p].value == 0
  }

  // ---------------------------------------------------------------------
  // Solutions

  /** A complete Sudoku assignment: a digit on every cell, peers differ. */
  ghost predicate Solution(sol: map<Coord, int>) {
    (forall p {:trigger p in sol} :: p in sol <==> OnBoard(p)) &&
    (forall p :: p in sol ==> sol[p] in Digits) &&
    (forall p, q :: p in sol && q in sol && Peer(p, q) ==> sol[p] != sol[q])
  }

  /** Solution sol extends board g: on every cell its digit is still allowed
      and equals the committed value, if there is one. */
  ghost predicate Compatible(sol: map<Coord, int>, g: Grid) {
    forall p :: p in g ==> p in sol && sol[p] in g[p].allowed && (g[p].value != 0 ==> sol[p] == g[p].value)
  }

  /** Going from g to h loses no solution that extends g. */
  ghost predicate Preserves(g: Grid, h: Grid) {
    forall sol :: Solution(sol) && Compatible(sol, g) ==> Compatible(sol, h)
  }

  /** No solution extends g. */
  ghost predicate NoSolution(g: Grid) {
    forall sol :: Solution(sol) ==> !Compatible(sol, g)
  }

  /** Going from g to h never unsets a cell, and a consistent committed value
      stays committed and consistent. */
  predicate KeepsCommitted(g: Grid, h: Grid) {
    g.Keys == h.Keys &&
    forall p :: p in g ==>
      (g[p].value != 0 ==> h[p].value != 0) &&
      (g[p].value != 0 && g[p].value in g[p].allowed ==> h[p].value == g[p].value && h[p].value in h[p].allowed)
  }

  /** No allowed set grows from g to h. */
  predicate Shrinks(g: Grid, h: Grid) {
    g.Keys == h.Keys && forall p :: p in g ==> h[p].allowed <= g[p].allowed
  }

  lemma KeepsCommittedUnset(g: Grid, h: Grid)
    requires KeepsCommitted(g, h)
    ensures UnsetSet(h) <= UnsetSet(g)
  {
  }

  lemma PreservesTrans(g: Grid, h: Grid, k: Grid)
    requires Preserves(g, h) && Preserves(h, k)
    ensures Preserves(g, k)
  {
  }

  lemma KeepsCommittedTrans(g: Grid, h: Grid, k: Grid)
    requires KeepsCommitted(g, h) && KeepsCommitted(h, k)
    ensures KeepsCommitted(g, k)
  {
  }

  /** Going from g to h never unsets a cell, keeps consistent committed
      values, only shrinks allowed sets, and keeps the board consistent, its
      values in 1..9 and its tryout values in step with its values if they
      were. */
  ghost predicate Narrows(g: Grid, h: Grid) {
    KeepsCommitted(g, h) && Shrinks(g, h) &&
    (AllConsistent(g) ==> AllConsistent(h)) &&
    (ValuesInRange(g) ==> ValuesInRange(h)) &&
    (TryoutsAgree(g) ==> TryoutsAgree(h))
  }

  lemma NarrowsTrans(g: Grid, h: Grid, k: Grid)
    requires Narrows(g, h) && Narrows(h, k)
    ensures Narrows(g, k)
  {
    KeepsCommittedTrans(g, h, k);
  }

  /** Going from g to h narrows the board and changes at most cell p. */
  ghost predicate OnlyNarrows(g: Grid, h: Grid, p: Coord) {
    (forall q :: q in g && q != p ==> q in h && h[q] == g[q]) && Narrows(g, h)
  }

  /** A board without solutions stays without: if g had a solution, the
      step from g to h would have kept it. */
  lemma PreservesNoSolution(g: Grid, h: Grid)
    requires Preserves(g, h) && NoSolution(h)
    ensures NoSolution(g)
  {
  }

  /** When only cell p changed and no cell was unset, the unset cells can
      only lose p. */
  lemma UnsetShrinks(g: Grid, h: Grid, p: Coord)
    requires OnlyNarrows(g, h, p) && p in g
    ensures UnsetSet(h) <= UnsetSet(g)
    ensures g[p].value == 0 && h[p].value != 0 ==> UnsetSet(h) == UnsetSet(g) - {p}
    ensures (g[p].value == 0 <==> h[p].value == 0) ==> UnsetSet(h) == UnsetSet(g)
  {
  }

  /** Two writes to the same cell leave only the second. */
  lemma UpdateTwice(g: Grid, p: Coord, a: CellState, b: CellState)
    ensures g[p := a][p := b] == g[p := b]
  {
  }

  /** set_value(v) on cell p with a digit v that the cell allows (and that
      equals its value if it has one): it narrows the board, commits p, and
      keeps every solution that puts v on p. */
  lemma {:induction false} AssignAt(g: Grid, p: Coord, v: int)
    requires WellFormed(g) && OnBoard(p) && v in Digits && v in g[p].allowed
    requires g[p].value != 0 ==> g[p].value == v
    ensures WellFormed(g[p := Assign(g[p], v).value])
    ensures Narrows(g, g[p := Assign(g[p], v).value])
    ensures UnsetSet(g[p := Assign(g[p], v).value]) == UnsetSet(g) - {p}
    ensures forall sol :: Solution(sol) && Compatible(sol, g) && sol[p] == v ==>
              Compatible(sol, g[p := Assign(g[p], v).value])
  {
  }

  // ---------------------------------------------------------------------
  // Propagation

  /** The nonzero values in the row, column and square of cell p. */
  function GroupValues(g: Grid, p: Coord): set<int>
    requires WellFormed(g) && OnBoard(p)
  {
    NonZeroValues(g, Row(p.0)) + NonZeroValues(g, Column(p.1)) + NonZeroValues(g, SquareOf(p.0, p.1))
  }

  /** Cell p has nothing left to forbid: no value committed in one of its
      groups, other than its own, is allowed for it, and if it is unset it
      has at least two candidates. */
  predicate SettledAt(g: Grid, p: Coord)
    requires WellFormed(g) && OnBoard(p)
  {
    g[p].allowed !! (GroupValues(g, p) - {g[p].value}) &&
    (g[p].value == 0 ==> |g[p].allowed| >= 2)
  }

  /** The fixpoint process_allowed_values stops at: on a consistent board a
      sweep changes nothing here (VisitSettled). */
  ghost predicate Settled(g: Grid)
    requires WellFormed(g)
  {
    forall p {:trigger SettledAt(g, p)} :: OnBoard(p) ==> SettledAt(g, p)
  }

  /** Whether cell q is settled depends only on its own state and the
      committed values. */
  lemma SettledAtFrame(g: Grid, h: Grid, q: Coord)
    requires WellFormed(g) && WellFormed(h) && OnBoard(q)
    requires SameValues(g, h) && g[q] == h[q]
    ensures SettledAt(g, q) == SettledAt(h, q)
  {
    NonZeroValuesFrame(g, h, Row(q.0));
    NonZeroValuesFrame(g, h, Column(q.1));
    NonZeroValuesFrame(g, h, SquareOf(q.0, q.1));
  }

  /** A value committed on a member of a group is one of the group's
      nonzero values. */
  lemma MemberValue(g: Grid, cs: seq<Coord>, q: Coord)
    requires forall i :: 0 <= i < |cs| ==> cs[i] in g
    requires q in cs && g[q].value != 0
    ensures g[q].value in NonZeroValues(g, cs)
  {
    NonZeroValuesSpec(g, cs);
    var i :| 0 <= i < |cs| && cs[i] == q;
  }

  /** A value committed on a peer of p is among the values p's groups forbid. */
  lemma {:induction false} PeerValueForbidden(g: Grid, p: Coord, q: Coord)
    requires WellFormed(g) && OnBoard(p) && OnBoard(q) && Peer(p, q)
    requires g[q].value != 0
    ensures g[q].value in GroupValues(g, p)
  {
    PeersAreGroupMates(p, q);
    if q in Row(p.0) {
      MemberValue(g, Row(p.0), q);
    } else if q in Column(p.1) {
      MemberValue(g, Column(p.1), q);
    } else {
      MemberValue(g, SquareOf(p.0, p.1), q);
    }
  }

  /** On a settled board no cell still allows a value committed on one of its
      peers (unless that value is the cell's own). */
  lemma {:induction false} SettledExcludesPeerValues(g: Grid, p: Coord, q: Coord)
    requires WellFormed(g) && Settled(g) && OnBoard(p) && OnBoard(q) && Peer(p, q)
    requires g[q].value != 0 && g[q].value != g[p].value
    ensures g[q].value !in g[p].allowed
  {
    assert SettledAt(g, p);
    PeerValueForbidden(g, p, q);
  }

  /** One forbid_values call on cell p of board g, forbidding vs. */
  ghost function ForbidAt(g: Grid, p: Coord, vs: set<int>): (Grid, Result<bool>)
    requires p in g
  {
    var r := Forbid(g[p], vs);
    (g[p := r.0], r.1)
  }

  lemma ForbidAtWellFormed(g: Grid, p: Coord, vs: set<int>)
    requires WellFormed(g) && OnBoard(p)
    ensures WellFormed(ForbidAt(g, p, vs).0)
  {
    ForbidShrinks(g[p], vs);
  }

  /** One forbid_values call changes only cell p, never unsets it, keeps a
      consistent committed value, only shrinks its allowed set, keeps its
      value within 1..9 and commits a value together with its tryout. */
  lemma {:induction false} ForbidAtMonotone(g: Grid, p: Coord, vs: set<int>)
    requires WellFormed(g) && OnBoard(p)
    ensures WellFormed(ForbidAt(g, p, vs).0)
    ensures OnlyNarrows(g, ForbidAt(g, p, vs).0, p)
  {
    ForbidShrinks(g[p], vs);
    ForbidReportsNewCommit(g[p], vs);
    if Consistent(g[p]) {
      ForbidKeepsCommitted(g[p], vs);
    }
  }

  // ---------------------------------------------------------------------
  // One visit of a cell in a sweep

  /** The group whose values the k-th forbid_values call of a visit of p
      forbids: its row, then its column, then its square. Its other members
      are the peers of p in that group. */
  function VisitGroup(p: Coord, k: int): (cs: seq<Coord>)
    requires OnBoard(p) && 0 <= k < 3
    ensures NineCells(cs) && p in cs
    ensures forall q :: q in cs ==> OnBoard(q) && (q != p ==> Peer(p, q))
  {
    if k == 0 then Row(p.0) else if k == 1 then Column(p.1) else SquareOf(p.0, p.1)
  }

  /** The nonzero values committed on the members of the k-th group of p
      other than p itself: the group's values with p taken as unset. */
  function OtherValues(g: Grid, p: Coord, k: int): set<int>
    requires WellFormed(g) && OnBoard(p) && 0 <= k < 3
  {
    NonZeroValues(g[p := g[p].(value := 0)], VisitGroup(p, k))
  }

  /** The values of the other members of a group of p, by member. */
  lemma OtherValuesSpec(g: Grid, p: Coord, k: int)
    requires WellFormed(g) && OnBoard(p) && 0 <= k < 3
    ensures 0 !in OtherValues(g, p, k)
    ensures forall q :: q in VisitGroup(p, k) && q != p && g[q].value != 0 ==> g[q].value in OtherValues(g, p, k)
    ensures forall x :: x in OtherValues(g, p, k) ==> exists q :: q in VisitGroup(p, k) && q != p && g[q].value == x
  {
    var cs := VisitGroup(p, k);
    var g' := g[p := g[p].(value := 0)];
    NonZeroValuesSpec(g', cs);
    forall q | q in cs && q != p && g[q].value != 0
      ensures g[q].value in OtherValues(g, p, k)
    {
      var i :| 0 <= i < |cs| && cs[i] == q;
      assert g'[cs[i]].value == g[q].value;
    }
    forall x | x in OtherValues(g, p, k)
      ensures exists q :: q in cs && q != p && g[q].value == x
    {
      var i :| 0 <= i < |cs| && g'[cs[i]].value == x;
      assert cs[i] in cs;
    }
  }

  /** The sets the three calls of a visit of p forbid, in order. */
  function VisitSets(g: Grid, p: Coord): seq<set<int>>
    requires WellFormed(g) && OnBoard(p)
  {
    seq(3, k requires 0 <= k < 3 => OtherValues(g, p, k))
  }

  /** One visit of cell p in a sweep of process_allowed_values: forbid_values
      with the values of its row, then of its column, then of its square.
      The first contradiction ends the visit; otherwise the outcome says
      whether one of the calls committed a new value. Each call reads its
      group from the board as the previous call left it; as only p changes
      and forbid_values never removes p's own value, that is the same as
      forbidding the values of the other members of the groups as they were
      before the visit (FreshStep). */
  ghost function Visit(g: Grid, p: Coord): (r: (Grid, Result<bool>))
    requires WellFormed(g) && OnBoard(p)
    ensures WellFormed(r.0)
  {
    ForbidEachAtNarrows(g, p, VisitSets(g, p));
    ForbidEachAt(g, p, VisitSets(g, p))
  }

  /** The forbid_values calls of ForbidEach on cell p of board g. */
  ghost function ForbidEachAt(g: Grid, p: Coord, vss: seq<set<int>>): (Grid, Result<bool>)
    requires p in g
  {
    var r := ForbidEach(g[p], vss);
    (g[p := r.0], r.1)
  }

  /** A run of forbid_values calls on p only narrows the board, and only at p. */
  lemma ForbidEachAtNarrows(g: Grid, p: Coord, vss: seq<set<int>>)
    requires WellFormed(g) && OnBoard(p)
    ensures WellFormed(ForbidEachAt(g, p, vss).0)
    ensures OnlyNarrows(g, ForbidEachAt(g, p, vss).0, p)
  {
    WellFormedAt(g, p);
    ForbidEachMonotone(g[p], vss);
  }

  /** The nonzero values of a group of p are those of its other members and
      p's own value, if it has one. */
  lemma {:induction false} FreshGroupValues(g: Grid, p: Coord, k: int)
    requires WellFormed(g) && OnBoard(p) && 0 <= k < 3
    ensures NonZeroValues(g, VisitGroup(p, k)) ==
            OtherValues(g, p, k) + (if g[p].value != 0 then {g[p].value} else {})
  {
    var cs := VisitGroup(p, k);
    NonZeroValuesSpec(g, cs);
    OtherValuesSpec(g, p, k);
    var own := if g[p].value != 0 then {g[p].value} else {};
    forall x | x in NonZeroValues(g, cs)
      ensures x in OtherValues(g, p, k) + own
    {
      var i :| 0 <= i < |cs| && g[cs[i]].value == x;
      assert cs[i] in cs;
    }
    forall x | x in OtherValues(g, p, k) + own
      ensures x in NonZeroValues(g, cs)
    {
      if x in OtherValues(g, p, k) {
        var q :| q in cs && q != p && g[q].value == x;
        MemberValue(g, cs, q);
      } else {
        MemberValue(g, cs, p);
      }
    }
  }

  /** The values of the other members of a group of p do not depend on p. */
  lemma OtherValuesFrame(g: Grid, h: Grid, p: Coord, k: int)
    requires WellFormed(g) && WellFormed(h) && OnBoard(p) && 0 <= k < 3
    requires forall q :: q in g && q != p ==> h[q] == g[q]
    ensures OtherValues(h, p, k) == OtherValues(g, p, k)
  {
    NonZeroValuesFrame(g[p := g[p].(value := 0)], h[p := h[p].(value := 0)], VisitGroup(p, k));
  }

  /** A call of a visit that reads its group from board h, which differs from
      g at most on p, does what forbidding the values of the other members of
      that group on g does. */
  lemma FreshReadAgrees(g: Grid, h: Grid, p: Coord, k: int)
    requires WellFormed(g) && WellFormed(h) && OnBoard(p) && 0 <= k < 3
    requires forall q :: q in g && q != p ==> h[q] == g[q]
    ensures Forbid(h[p], NonZeroValues(h, VisitGroup(p, k))) == Forbid(h[p], OtherValues(g, p, k))
  {
    FreshGroupValues(h, p, k);
    OtherValuesFrame(g, h, p, k);
    ForbidOwnValue(h[p], OtherValues(g, p, k));
  }

  /** One call of a visit as the sweep performs it, on a board h that
      differs from g at most on p: reading the group afresh from h forbids on
      p what the k-th set of the visit of p on g forbids. */
  lemma FreshStep(g: Grid, h: Grid, p: Coord, k: int)
    requires WellFormed(g) && WellFormed(h) && OnBoard(p) && 0 <= k < 3
    requires forall q :: q in g && q != p ==> h[q] == g[q]
    ensures WellFormed(g[p := Forbid(h[p], VisitSets(g, p)[k]).0])
    ensures ForbidAt(h, p, NonZeroValues(h, VisitGroup(p, k))) ==
            (g[p := Forbid(h[p], VisitSets(g, p)[k]).0], Forbid(h[p], VisitSets(g, p)[k]).1)
  {
    FreshReadAgrees(g, h, p, k);
    ForbidAtWellFormed(h, p, VisitSets(g, p)[k]);
    var c := Forbid(h[p], VisitSets(g, p)[k]).0;
    assert h[p := c] == g[p := c];
  }

  /** No solution that extends g puts on p a value committed on another
      member of one of p's groups. */
  lemma OtherValuesSafe(g: Grid, p: Coord, k: int, sol: map<Coord, int>)
    requires WellFormed(g) && OnBoard(p) && 0 <= k < 3
    requires Solution(sol) && Compatible(sol, g)
    ensures sol[p] !in OtherValues(g, p, k)
  {
    OtherValuesSpec(g, p, k);
    forall q | q in VisitGroup(p, k) && q != p
      ensures g[q].value != sol[p]
    {
      assert Peer(p, q);
    }
  }

  /** No solution that extends g puts on p a value of one of the sets vss. */
  ghost predicate SafeSets(g: Grid, p: Coord, vss: seq<set<int>>)
    requires p in g
  {
    forall sol, i :: Solution(sol) && Compatible(sol, g) && 0 <= i < |vss| ==> sol[p] !in vss[i]
  }

  /** The sets of a visit are safe to forbid on p. */
  lemma VisitSetsSafe(g: Grid, p: Coord)
    requires WellFormed(g) && OnBoard(p)
    ensures SafeSets(g, p, VisitSets(g, p))
  {
    forall sol, i | Solution(sol) && Compatible(sol, g) && 0 <= i < 3
      ensures sol[p] !in VisitSets(g, p)[i]
    {
      OtherValuesSafe(g, p, i, sol);
    }
  }

  /** Forbidding safe sets on p loses no solution, and a contradiction means
      the board had none. */
  lemma {:induction false} ForbidEachAtSound(g: Grid, p: Coord, vss: seq<set<int>>)
    requires WellFormed(g) && OnBoard(p) && SafeSets(g, p, vss)
    ensures Preserves(g, ForbidEachAt(g, p, vss).0)
    ensures ForbidEachAt(g, p, vss).1.Err? ==>
              ForbidEachAt(g, p, vss).1.error == NoValidSolutions && NoSolution(g)
  {
    WellFormedAt(g, p);
    ForbidEachMonotone(g[p], vss);
    forall sol | Solution(sol) && Compatible(sol, g)
      ensures Compatible(sol, ForbidEachAt(g, p, vss).0) && ForbidEachAt(g, p, vss).1.Ok?
    {
      ForbidEachKeepsCandidate(g[p], vss, sol[p]);
    }
  }

  /** A visit loses no solution, and a contradiction it meets means the
      board had no solution. */
  lemma VisitSound(g: Grid, p: Coord)
    requires WellFormed(g) && OnBoard(p)
    ensures Preserves(g, Visit(g, p).0)
    ensures Visit(g, p).1.Err? ==> Visit(g, p).1.error == NoValidSolutions && NoSolution(g)
  {
    VisitSetsSafe(g, p);
    ForbidEachAtSound(g, p, VisitSets(g, p));
  }

  /** A visit of p only narrows the board, and only at p. */
  lemma {:induction false} VisitNarrows(g: Grid, p: Coord)
    requires WellFormed(g) && OnBoard(p)
    ensures WellFormed(Visit(g, p).0)
    ensures OnlyNarrows(g, Visit(g, p).0, p)
  {
    ForbidEachAtNarrows(g, p, VisitSets(g, p));
  }

  /** A visit never adds an unset cell. When it reports a new commit there
      are strictly fewer unset cells; when it reports none the unset cells
      are the same. */
  lemma {:induction false} VisitUnset(g: Grid, p: Coord)
    requires WellFormed(g) && OnBoard(p)
    ensures UnsetSet(Visit(g, p).0) <= UnsetSet(g)
    ensures Visit(g, p).1 == Ok(true) ==> |UnsetSet(Visit(g, p).0)| < |UnsetSet(g)|
    ensures Visit(g, p).1 == Ok(false) ==> UnsetSet(Visit(g, p).0) == UnsetSet(g)
  {
    var (h, r) := Visit(g, p);
    WellFormedAt(g, p);
    ForbidEachProgress(g[p], VisitSets(g, p));
    VisitNarrows(g, p);
    UnsetShrinks(g, h, p);
    if r == Ok(true) {
      assert p in UnsetSet(g);
      SubsetCardinality(UnsetSet(h), UnsetSet(g));
    }
  }

  /** A run of forbid_values calls on a consistent cell p that reports no
      new commit keeps every committed value, leaves none of the forbidden
      values (other than p's own) allowed on p, and leaves p, if unset, at
      least two candidates. */
  lemma ForbidEachAtQuiet(g: Grid, p: Coord, vss: seq<set<int>>)
    requires WellFormed(g) && OnBoard(p) && Consistent(g[p])
    requires ForbidEachAt(g, p, vss).1 == Ok(false)
    ensures SameValues(g, ForbidEachAt(g, p, vss).0)
    ensures forall i :: 0 <= i < |vss| ==>
              ForbidEachAt(g, p, vss).0[p].allowed !! (vss[i] - {g[p].value})
    ensures |vss| > 0 && g[p].value == 0 ==> |ForbidEachAt(g, p, vss).0[p].allowed| >= 2
  {
    WellFormedAt(g, p);
    ForbidEachQuiet(g[p], vss);
  }

  /** Cell p is settled on board h once it excludes the values of the other
      members of its groups on a board g that h differs from at most on p. */
  lemma {:induction false} SettledByOtherValues(g: Grid, h: Grid, p: Coord)
    requires WellFormed(g) && WellFormed(h) && OnBoard(p)
    requires forall q :: q in g && q != p ==> h[q] == g[q]
    requires h[p].value == g[p].value
    requires forall k :: 0 <= k < 3 ==> h[p].allowed !! (VisitSets(g, p)[k] - {g[p].value})
    requires h[p].value == 0 ==> |h[p].allowed| >= 2
    ensures SettledAt(h, p)
  {
    assert forall k :: 0 <= k < 3 ==> VisitSets(g, p)[k] == OtherValues(g, p, k);
    GroupExcluded(g, h, p, 0);
    GroupExcluded(g, h, p, 1);
    GroupExcluded(g, h, p, 2);
    assert VisitGroup(p, 0) == Row(p.0) && VisitGroup(p, 1) == Column(p.1);
    assert VisitGroup(p, 2) == SquareOf(p.0, p.1);
  }

  /** One group of SettledByOtherValues. */
  lemma GroupExcluded(g: Grid, h: Grid, p: Coord, k: int)
    requires WellFormed(g) && WellFormed(h) && OnBoard(p) && 0 <= k < 3
    requires forall q :: q in g && q != p ==> h[q] == g[q]
    requires h[p].value == g[p].value
    requires h[p].allowed !! (OtherValues(g, p, k) - {g[p].value})
    ensures h[p].allowed !! (NonZeroValues(h, VisitGroup(p, k)) - {h[p].value})
  {
    FreshGroupValues(h, p, k);
    OtherValuesFrame(g, h, p, k);
    DisjointBesidesOwn(h[p].allowed, OtherValues(g, p, k), NonZeroValues(h, VisitGroup(p, k)), h[p].value);
  }

  /** A set disjoint from the other values is disjoint from them together
      with the own value, once the own value is taken out. */
  lemma DisjointBesidesOwn(a: set<int>, others: set<int>, all: set<int>, v: int)
    requires all == others + (if v != 0 then {v} else {})
    requires a !! (others - {v})
    ensures a !! (all - {v})
  {
    assert all - {v} == others - {v};
  }

  /** A visit of a consistent cell that reports no new commit leaves every
      committed value as it was and the cell settled. */
  lemma VisitQuietSettles(g: Grid, p: Coord)
    requires WellFormed(g) && OnBoard(p) && Consistent(g[p])
    requires Visit(g, p).1 == Ok(false)
    ensures SameValues(g, Visit(g, p).0) && SettledAt(Visit(g, p).0, p)
  {
    var vss := VisitSets(g, p);
    ForbidEachAtQuiet(g, p, vss);
    ForbidEachAtNarrows(g, p, vss);
    SettledByOtherValues(g, Visit(g, p).0, p);
  }

  /** A visit of p that reports no new commit keeps every other settled
      cell settled. */
  lemma {:induction false} VisitKeepsSettled(g: Grid, p: Coord, q: Coord)
    requires WellFormed(g) && OnBoard(p) && OnBoard(q) && p != q && Consistent(g[p])
    requires Visit(g, p).1 == Ok(false) && SettledAt(g, q)
    ensures SettledAt(Visit(g, p).0, q)
  {
    VisitQuietSettles(g, p);
    VisitNarrows(g, p);
    SettledAtFrame(g, Visit(g, p).0, q);
  }

  /** A visit of a settled, consistent cell changes nothing and reports no
      new commit: the sweep leaves a settled board as it is. */
  lemma {:induction false} VisitSettled(g: Grid, p: Coord)
    requires WellFormed(g) && OnBoard(p) && SettledAt(g, p)
    requires Consistent(g[p]) && TryoutAgrees(g[p])
    ensures Visit(g, p) == (g, Ok(false))
  {
    var vss := VisitSets(g, p);
    forall k | 0 <= k < 3
      ensures g[p].allowed !! (vss[k] - {g[p].value})
    {
      FreshGroupValues(g, p, k);
      assert vss[k] == OtherValues(g, p, k);
      assert VisitGroup(p, 0) == Row(p.0) && VisitGroup(p, 1) == Column(p.1);
      assert VisitGroup(p, 2) == SquareOf(p.0, p.1);
      assert OtherValues(g, p, k) <= GroupValues(g, p);
    }
    ForbidEachSettled(g[p], vss);
    assert g[p := g[p]] == g;
  }

  /** The first k cells in row-major order are settled. */
  predicate SettledUpTo(g: Grid, k: int)
    requires WellFormed(g) && 0 <= k <= 81
  {
    RowMajorEnumerates();
    forall i :: 0 <= i < k ==> SettledAt(g, RowMajor()[i])
  }

  /** A quiet visit of the k-th cell in row-major order on a consistent
      board settles it and keeps the cells before it settled. */
  lemma {:induction false} QuietVisitExtends(g: Grid, k: int)
    requires WellFormed(g) && AllConsistent(g) && 0 <= k < 81 && SettledUpTo(g, k)
    requires OnBoard(RowMajor()[k]) && Visit(g, RowMajor()[k]).1 == Ok(false)
    ensures SameValues(g, Visit(g, RowMajor()[k]).0)
    ensures SettledUpTo(Visit(g, RowMajor()[k]).0, k + 1)
  {
    var p := RowMajor()[k];
    var h := Visit(g, p).0;
    VisitQuietSettles(g, p);
    RowMajorEnumerates();
    forall i | 0 <= i < k + 1
      ensures SettledAt(h, RowMajor()[i])
    {
      if i < k {
        VisitKeepsSettled(g, p, RowMajor()[i]);
      }
    }
  }

  /** A sweep that settled all 81 cells leaves the board settled. */
  lemma SettledUpToAll(g: Grid)
    requires WellFormed(g) && SettledUpTo(g, 81)
    ensures Settled(g)
  {
    RowMajorEnumerates();
    forall p | OnBoard(p)
      ensures SettledAt(g, p)
    {
      assert RowMajor()[RowMajorIndex(p)] == p;
    }
  }

  // ---------------------------------------------------------------------
  // Unset cells in row-major order

  /** The unset cells at row-major position k or later, in row-major order. */
  function UnsetFrom(g: Grid, k: nat): (us: seq<Coord>)
    requires WellFormed(g) && k <= 81
    ensures forall i :: 0 <= i < |us| ==> OnBoard(us[i]) && k <= RowMajorIndex(us[i]) && us[i] in UnsetSet(g)
    ensures forall i, j :: 0 <= i < j < |us| ==> RowMajorIndex(us[i]) < RowMajorIndex(us[j])
    decreases 81 - k
  {
    if k == 81 then []
    else
      var p := RowMajor()[k];
      RowMajorIndexOf(k);
      if g[p].value == 0 then [p] + UnsetFrom(g, k + 1) else UnsetFrom(g, k + 1)
  }

  /** UnsetFrom(g, k) misses no unset cell at position k or later. */
  lemma {:induction false} UnsetFromComplete(g: Grid, k: nat, p: Coord)
    requires WellFormed(g) && k <= 81
    requires p in UnsetSet(g) && k <= RowMajorIndex(p)
    ensures p in UnsetFrom(g, k)
    decreases 81 - k
  {
    assert OnBoard(p);
    RowMajorAt(p);
    if RowMajorIndex(p) > k {
      UnsetFromComplete(g, k + 1, p);
    }
  }

  /** get_udefined_cells: the unset cells, in the board's row-major order. */
  function UnsetCoords(g: Grid): (us: seq<Coord>)
    requires WellFormed(g)
  {
    UnsetFrom(g, 0)
  }

  lemma {:induction false} DistinctCard<T>(s: seq<T>)
    requires forall i, j :: 0 <= i < j < |s| ==> s[i] != s[j]
    ensures |set i | 0 <= i < |s| :: s[i]| == |s|
  {
    if |s| > 0 {
      var t := s[..|s| - 1];
      DistinctCard(t);
      var ts := set i | 0 <= i < |t| :: t[i];
      var ss := set i | 0 <= i < |s| :: s[i];
      assert ss == ts + {s[|s| - 1]};
      assert s[|s| - 1] !in ts;
    }
  }

  /** The enumeration lists exactly the unset cells, each once and in
      row-major order, so it is as long as there are unset cells; when there
      is one, its head is the unset cell that comes first in row-major order. */
  lemma {:induction false} UnsetCoordsSpec(g: Grid)
    requires WellFormed(g)
    ensures forall p :: p in UnsetCoords(g) <==> p in UnsetSet(g)
    ensures forall i, j :: 0 <= i < j < |UnsetCoords(g)| ==> UnsetCoords(g)[i] != UnsetCoords(g)[j]
    ensures |UnsetCoords(g)| == |UnsetSet(g)|
    ensures |UnsetCoords(g)| > 0 ==>
              forall p :: p in UnsetSet(g) ==> RowMajorIndex(UnsetCoords(g)[0]) <= RowMajorIndex(p)
  {
    var us := UnsetCoords(g);
    forall p | p in UnsetSet(g)
      ensures p in us
    {
      UnsetFromComplete(g, 0, p);
    }
    forall i, j | 0 <= i < j < |us|
      ensures us[i] != us[j]
    {
      assert RowMajorIndex(us[i]) < RowMajorIndex(us[j]);
    }
    DistinctCard(us);
    assert (set i | 0 <= i < |us| :: us[i]) == UnsetSet(g);
    if |us| > 0 {
      forall p | p in UnsetSet(g)
        ensures RowMajorIndex(us[0]) <= RowMajorIndex(p)
      {
        var i :| 0 <= i < |us| && us[i] == p;
        if i > 0 {
          assert RowMajorIndex(us[0]) < RowMajorIndex(us[i]);
        }
      }
    }
  }
}
