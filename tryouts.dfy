/** The group checks of CellSet (is_valid, is_tryout_valid) and the tryout
    operations of Sudoku: spreading a list of tryout values over the unset
    cells, checking whether the tryouts solve the board, and committing
    them. */
module Tryouts {
  import opened Cells
  import opened Groups
  import opened Grids

  /** The committed values of a board. */
  function Values(g: Grid): (m: map<Coord, int>)
    ensures m.Keys == g.Keys
  {
    map p | p in g :: g[p].value
  }

  /** The tryout values of a board. */
  function TryoutValues(g: Grid): (m: map<Coord, int>)
    ensures m.Keys == g.Keys
  {
    map p | p in g :: g[p].tryout
  }

  /** The set of the numbers m puts on the cells cs. */
  function GroupSet(m: map<Coord, int>, cs: seq<Coord>): set<int>
    requires forall i :: 0 <= i < |cs| ==> cs[i] in m
  {
    set i | 0 <= i < |cs| :: m[cs[i]]
  }

  /** get_values_set(tryout): the values, or the tryout values, of group cs. */
  function ValuesSet(g: Grid, cs: seq<Coord>, tryout: bool): set<int>
    requires forall i :: 0 <= i < |cs| ==> cs[i] in g
  {
    GroupSet(if tryout then TryoutValues(g) else Values(g), cs)
  }

  /** is_valid: every digit occurs among the group's values and no value
      lies outside 1..9. */
  predicate IsValid(g: Grid, cs: seq<Coord>)
    requires forall i :: 0 <= i < |cs| ==> cs[i] in g
  {
    var vs := ValuesSet(g, cs, false);
    var missing := exists x :: 1 <= x <= 9 && x !in vs;
    var outOfRange := exists x :: x in vs && !(0 < x <= 9);
    !(missing || outOfRange)
  }

  /** is_tryout_valid: the group's tryout values are nine different numbers,
      none outside 1..9. */
  predicate IsTryoutValid(g: Grid, cs: seq<Coord>)
    requires forall i :: 0 <= i < |cs| ==> cs[i] in g
  {
    var vs := ValuesSet(g, cs, true);
    var wrongCount := |vs| != 9;
    var outOfRange := exists x :: x in vs && !(0 < x <= 9);
    !(wrongCount || outOfRange)
  }

  /** A set of numbers in 1..9 with nine members is all of 1..9. */
  lemma NineDigits(vs: set<int>)
    requires vs <= Digits && |vs| == 9
    ensures vs == Digits
  {
    assert |Digits| == 9;
    SubsetCardinality(vs, Digits);
  }

  lemma DigitsRange()
    ensures forall x :: x in Digits <==> 1 <= x <= 9
    ensures |Digits| == 9
  {
  }

  /** is_valid says that the group's values are exactly the digits 1..9. */
  lemma {:induction false} IsValidSpec(g: Grid, cs: seq<Coord>)
    requires forall i :: 0 <= i < |cs| ==> cs[i] in g
    ensures IsValid(g, cs) <==> ValuesSet(g, cs, false) == Digits
  {
    DigitsRange();
    var vs := ValuesSet(g, cs, false);
    if IsValid(g, cs) {
      assert forall x :: x in Digits ==> x in vs;
      assert forall x :: x in vs ==> x in Digits;
    }
  }

  /** is_tryout_valid says that the group's tryout values are exactly the
      digits 1..9. */
  lemma {:induction false} IsTryoutValidSpec(g: Grid, cs: seq<Coord>)
    requires forall i :: 0 <= i < |cs| ==> cs[i] in g
    ensures IsTryoutValid(g, cs) <==> ValuesSet(g, cs, true) == Digits
  {
    DigitsRange();
    var ts := ValuesSet(g, cs, true);
    if IsTryoutValid(g, cs) {
      assert forall x :: x in ts ==> x in Digits;
      NineDigits(ts);
    }
  }

  /** The set of n numbers has at most n members, exactly n when they are
      pairwise different, and fewer when two of them are equal. */
  lemma {:induction false} GroupSetCard(m: map<Coord, int>, cs: seq<Coord>)
    requires forall i :: 0 <= i < |cs| ==> cs[i] in m
    ensures |GroupSet(m, cs)| <= |cs|
    ensures (forall i, j :: 0 <= i < j < |cs| ==> m[cs[i]] != m[cs[j]]) ==> |GroupSet(m, cs)| == |cs|
    ensures (exists i, j :: 0 <= i < j < |cs| && m[cs[i]] == m[cs[j]]) ==> |GroupSet(m, cs)| < |cs|
  {
    if |cs| > 0 {
      var n := |cs| - 1;
      var t := cs[..n];
      GroupSetCard(m, t);
      var x := m[cs[n]];
      assert GroupSet(m, cs) == GroupSet(m, t) + {x};
      if exists i, j :: 0 <= i < j < |cs| && m[cs[i]] == m[cs[j]] {
        var i, j :| 0 <= i < j < |cs| && m[cs[i]] == m[cs[j]];
        if j == n {
          assert x == m[t[i]];
          assert GroupSet(m, cs) == GroupSet(m, t);
        } else {
          assert m[t[i]] == m[t[j]];
        }
      }
      if forall i, j :: 0 <= i < j < |cs| ==> m[cs[i]] != m[cs[j]] {
        assert forall i, j :: 0 <= i < j < |t| ==> m[t[i]] != m[t[j]];
        assert x !in GroupSet(m, t);
      }
    }
  }

  /** Two different cells of one of the 27 groups are peers. */
  lemma {:induction false} GroupMatesArePeers(k: int, i: int, j: int)
    requires 0 <= k < 27 && 0 <= i < j < 9
    ensures Peer(GroupAt(k)[i], GroupAt(k)[j])
  {
    var cs := GroupAt(k);
    var p, q := cs[i], cs[j];
    assert p in cs && q in cs;
    if 18 <= k {
      var sr, sc := (k - 18) / 3 + 1, (k - 18) % 3 + 1;
      assert Box(p) == (sr - 1, sc - 1) && Box(q) == (sr - 1, sc - 1);
    }
  }

  /** Every peer of p lies in a group of p, at a position other than p's. */
  lemma {:induction false} PeerShareGroup(p: Coord, q: Coord) returns (k: int, i: int, j: int)
    requires OnBoard(p) && OnBoard(q) && Peer(p, q)
    ensures 0 <= k < 27 && 0 <= i < 9 && 0 <= j < 9 && i != j
    ensures GroupAt(k)[i] == p && GroupAt(k)[j] == q
  {
    PeersAreGroupMates(p, q);
    CellGroups(p);
    if q in Row(p.0) {
      k := p.0 - 1;
    } else if q in Column(p.1) {
      k := p.1 + 8;
    } else {
      k := 18 + (p.0 - 1) / 3 * 3 + (p.1 - 1) / 3;
    }
    var cs := GroupAt(k);
    assert p in cs && q in cs;
    i :| 0 <= i < 9 && cs[i] == p;
    j :| 0 <= j < 9 && cs[j] == q;
  }

  /** When each of the 27 groups holds every digit 1..9, the numbers on the
      81 cells form a solution. */
  lemma {:induction false} CompleteGroupsSolve(m: map<Coord, int>)
    requires forall p {:trigger p in m} :: p in m <==> OnBoard(p)
    requires forall k :: 0 <= k < 27 ==> GroupSet(m, GroupAt(k)) == Digits
    ensures Solution(m)
  {
    forall p | p in m
      ensures m[p] in Digits
    {
      CellGroups(p);
      var i :| 0 <= i < 9 && GroupAt(p.0 - 1)[i] == p;
      assert m[p] in GroupSet(m, GroupAt(p.0 - 1));
    }
    forall p, q | p in m && q in m && Peer(p, q)
      ensures m[p] != m[q]
    {
      CompletePeersDiffer(m, p, q);
    }
  }

  lemma {:induction false} CompletePeersDiffer(m: map<Coord, int>, p: Coord, q: Coord)
    requires forall p {:trigger p in m} :: p in m <==> OnBoard(p)
    requires forall k :: 0 <= k < 27 ==> GroupSet(m, GroupAt(k)) == Digits
    requires OnBoard(p) && OnBoard(q) && Peer(p, q)
    ensures m[p] != m[q]
  {
    var k, i, j := PeerShareGroup(p, q);
    var cs := GroupAt(k);
    assert GroupSet(m, cs) == Digits;
    if i < j {
      CompleteGroupDistinct(m, cs, i, j);
    } else {
      CompleteGroupDistinct(m, cs, j, i);
    }
  }

  /** A group of nine cells holding every digit holds each only once. */
  lemma CompleteGroupDistinct(m: map<Coord, int>, cs: seq<Coord>, i: int, j: int)
    requires forall p {:trigger p in m} :: p in m <==> OnBoard(p)
    requires NineCells(cs)
    requires GroupSet(m, cs) == Digits && 0 <= i < j < 9
    ensures m[cs[i]] != m[cs[j]]
  {
    DigitsRange();
    GroupSetCard(m, cs);
  }

  /** In a solution each of the 27 groups holds every digit 1..9. */
  lemma {:induction false} SolutionCompletesGroups(m: map<Coord, int>, k: int)
    requires Solution(m) && 0 <= k < 27
    ensures GroupSet(m, GroupAt(k)) == Digits
  {
    var cs := GroupAt(k);
    forall i, j | 0 <= i < j < 9
      ensures m[cs[i]] != m[cs[j]]
    {
      GroupMatesArePeers(k, i, j);
    }
    GroupSetCard(m, cs);
    NineDigits(GroupSet(m, cs));
  }

  /** An assignment of numbers to the 81 cells is a solution exactly when
      each of the 27 groups holds every digit 1..9. */
  lemma {:induction false} GroupsCompleteIffSolution(m: map<Coord, int>)
    requires forall p {:trigger p in m} :: p in m <==> OnBoard(p)
    ensures (forall k :: 0 <= k < 27 ==> GroupSet(m, GroupAt(k)) == Digits) <==> Solution(m)
  {
    if forall k :: 0 <= k < 27 ==> GroupSet(m, GroupAt(k)) == Digits {
      CompleteGroupsSolve(m);
    }
    if Solution(m) {
      forall k | 0 <= k < 27
        ensures GroupSet(m, GroupAt(k)) == Digits
      {
        SolutionCompletesGroups(m, k);
      }
    }
  }

  /** check_if_tryout_solves_it: every row, column and square passes
      is_tryout_valid. */
  predicate TryoutSolves(g: Grid)
    requires WellFormed(g)
  {
    forall k :: 0 <= k < 27 ==> IsTryoutValid(g, GroupAt(k))
  }

  /** The tryout values solve the board exactly when they form a solution. */
  lemma {:induction false} TryoutSolvesSpec(g: Grid)
    requires WellFormed(g)
    ensures TryoutSolves(g) <==> Solution(TryoutValues(g))
  {
    forall k | 0 <= k < 27
      ensures IsTryoutValid(g, GroupAt(k)) <==> GroupSet(TryoutValues(g), GroupAt(k)) == Digits
    {
      IsTryoutValidSpec(g, GroupAt(k));
    }
    GroupsCompleteIffSolution(TryoutValues(g));
  }

  /** Every group of the board passes is_valid exactly when the committed
      values form a solution. */
  lemma {:induction false} AllValidSpec(g: Grid)
    requires WellFormed(g)
    ensures (forall k :: 0 <= k < 27 ==> IsValid(g, GroupAt(k))) <==> Solution(Values(g))
  {
    forall k | 0 <= k < 27
      ensures IsValid(g, GroupAt(k)) <==> GroupSet(Values(g), GroupAt(k)) == Digits
    {
      IsValidSpec(g, GroupAt(k));
    }
    GroupsCompleteIffSolution(Values(g));
  }

  /** The board after the first |us| assignments of the loop of
      project_tryout_values_to_undefined_cells: the i-th cell of us gets
      tryout value vals[i]. */
  function SetTryouts(g: Grid, us: seq<Coord>, vals: seq<int>): (h: Grid)
    requires |us| == |vals| && forall i :: 0 <= i < |us| ==> us[i] in g
    ensures h.Keys == g.Keys
  {
    if |us| == 0 then g
    else
      var n := |us| - 1;
      var h := SetTryouts(g, us[..n], vals[..n]);
      h[us[n] := h[us[n]].(tryout := vals[n])]
  }

  /** Over distinct cells, the i-th cell gets tryout vals[i] and nothing
      else changes. */
  lemma {:induction false} SetTryoutsSpec(g: Grid, us: seq<Coord>, vals: seq<int>)
    requires |us| == |vals| && forall i :: 0 <= i < |us| ==> us[i] in g
    requires forall i, j :: 0 <= i < j < |us| ==> us[i] != us[j]
    ensures forall i :: 0 <= i < |us| ==> SetTryouts(g, us, vals)[us[i]] == g[us[i]].(tryout := vals[i])
    ensures forall q :: q in g && q !in us ==> SetTryouts(g, us, vals)[q] == g[q]
  {
    if |us| > 0 {
      var n := |us| - 1;
      SetTryoutsSpec(g, us[..n], vals[..n]);
      assert forall i :: 0 <= i < n ==> us[..n][i] == us[i] && us[i] != us[n];
      assert forall q :: q !in us ==> q !in us[..n];
    }
  }

  /** project_tryout_values_to_undefined_cells(vals) on board g. */
  function ProjectTryouts(g: Grid, vals: seq<int>): Result<Grid>
    requires WellFormed(g)
  {
    var us := UnsetCoords(g);
    if |vals| != |us| then Err(BadTryoutValues) else Ok(SetTryouts(g, us, vals))
  }

  /** The projection fails exactly when the list length differs from the
      number of unset cells. Otherwise the i-th unset cell in row-major order
      gets tryout value vals[i], and nothing else changes: committed cells
      are untouched and every value and allowed set is kept. */
  lemma {:induction false} ProjectTryoutsSpec(g: Grid, vals: seq<int>)
    requires WellFormed(g)
    ensures ProjectTryouts(g, vals).Err? <==> |vals| != |UnsetSet(g)|
    ensures ProjectTryouts(g, vals).Err? ==> ProjectTryouts(g, vals).error == BadTryoutValues
    ensures ProjectTryouts(g, vals).Ok? ==>
              var h := ProjectTryouts(g, vals).value;
              WellFormed(h) && SameValues(g, h) &&
              (forall q :: q in g ==> h[q].allowed == g[q].allowed) &&
              (forall q :: q in g && g[q].value != 0 ==> h[q] == g[q]) &&
              (forall i :: 0 <= i < |vals| ==> h[UnsetCoords(g)[i]].tryout == vals[i])
  {
    var us := UnsetCoords(g);
    UnsetCoordsSpec(g);
    if |vals| == |us| {
      SetTryoutsSpec(g, us, vals);
      var h := SetTryouts(g, us, vals);
      forall q | q in g
        ensures h[q].value == g[q].value && h[q].allowed == g[q].allowed
        ensures g[q].value != 0 ==> h[q] == g[q]
      {
        if q in us {
          var i :| 0 <= i < |us| && us[i] == q;
        }
      }
    }
  }

  /** set_values_from_tryouts: every cell's tryout value becomes its value. */
  function CommitTryouts(g: Grid): (h: Grid)
    ensures h.Keys == g.Keys
  {
    map p | p in g :: g[p].(value := g[p].tryout)
  }

  /** When every committed value equals its tryout value (which every
      operation but a projection keeps, and a projection keeps on committed
      cells), committing the tryouts changes no committed value: it only
      fills unset cells, with their tryouts. The board's values are then its
      tryout values, so they form a solution, with no unset cell left,
      exactly when the tryouts solved the board. */
  lemma {:induction false} CommitTryoutsSpec(g: Grid)
    requires WellFormed(g) && TryoutsAgree(g)
    ensures WellFormed(CommitTryouts(g)) && TryoutsAgree(CommitTryouts(g))
    ensures forall p :: p in g && g[p].value != 0 ==> CommitTryouts(g)[p] == g[p]
    ensures forall p :: p in g ==> CommitTryouts(g)[p].value == g[p].tryout
    ensures TryoutSolves(g) <==> Solution(Values(CommitTryouts(g)))
    ensures TryoutSolves(g) ==> UnsetSet(CommitTryouts(g)) == {}
  {
    var h := CommitTryouts(g);
    assert Values(h) == TryoutValues(g);
    TryoutSolvesSpec(g);
    if TryoutSolves(g) {
      forall p | p in h
        ensures h[p].value != 0
      {
        assert Values(h)[p] in Digits;
      }
    }
  }

  /** Projecting values onto a board whose committed values equal their
      tryouts, then committing the tryouts, fills the i-th unset cell with
      vals[i] and leaves every committed cell as it was. */
  lemma {:induction false} ProjectThenCommit(g: Grid, vals: seq<int>)
    requires WellFormed(g) && TryoutsAgree(g) && |vals| == |UnsetSet(g)|
    ensures ProjectTryouts(g, vals).Ok?
    ensures TryoutsAgree(ProjectTryouts(g, vals).value)
    ensures var h := CommitTryouts(ProjectTryouts(g, vals).value);
              (forall p :: p in g && g[p].value != 0 ==> h[p].value == g[p].value) &&
              (forall i :: 0 <= i < |vals| ==> h[UnsetCoords(g)[i]].value == vals[i])
  {
    ProjectTryoutsSpec(g, vals);
    var h := ProjectTryouts(g, vals).value;
    assert forall q :: q in h ==> TryoutAgrees(h[q]);
    UnsetCoordsSpec(g);
  }
}
