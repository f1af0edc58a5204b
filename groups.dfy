/** Board geometry: coordinates, the row-major cell order and the 27 groups
    (Row, Column and Square of sudoku.py, held as coordinate lists). */
module Groups {

  /** (row, column), both in 1..9. */
  type Coord = (int, int)

  predicate OnBoard(p: Coord) {
    1 <= p.0 <= 9 && 1 <= p.1 <= 9
  }

  const AllCoords: set<Coord> := set r, c | 1 <= r <= 9 && 1 <= c <= 9 :: (r, c)

  /** The order in which the board's dictionary holds its cells: row by row,
      column by column within a row. */
  function RowMajor(): (cs: seq<Coord>)
    ensures |cs| == 81
  {
    seq(81, k => (k / 9 + 1, k % 9 + 1))
  }

  /** The position of a cell in row-major order. */
  function RowMajorIndex(p: Coord): int {
    (p.0 - 1) * 9 + (p.1 - 1)
  }

  lemma RowMajorIndexOf(k: int)
    requires 0 <= k < 81
    ensures OnBoard(RowMajor()[k]) && RowMajorIndex(RowMajor()[k]) == k
  {
  }

  lemma RowMajorAt(p: Coord)
    requires OnBoard(p)
    ensures 0 <= RowMajorIndex(p) < 81 && RowMajor()[RowMajorIndex(p)] == p
  {
    var k := RowMajorIndex(p);
    assert k / 9 == p.0 - 1 && k % 9 == p.1 - 1;
  }

  /** Row-major order lists every cell exactly once. */
  lemma {:induction false} RowMajorEnumerates()
    ensures forall p :: p in AllCoords <==> OnBoard(p)
    ensures forall p :: OnBoard(p) ==> 0 <= RowMajorIndex(p) < 81 && RowMajor()[RowMajorIndex(p)] == p
    ensures forall i, j :: 0 <= i < j < 81 ==> RowMajor()[i] != RowMajor()[j]
    ensures forall k :: 0 <= k < 81 ==> RowMajor()[k] in AllCoords
  {
    forall p | OnBoard(p)
      ensures 0 <= RowMajorIndex(p) < 81 && RowMajor()[RowMajorIndex(p)] == p
    {
      RowMajorAt(p);
    }
    forall i, j | 0 <= i < j < 81
      ensures RowMajor()[i] != RowMajor()[j]
    {
      RowMajorIndexOf(i);
      RowMajorIndexOf(j);
    }
  }

  /** Nine distinct cells of the board. */
  predicate NineCells(g: seq<Coord>) {
    |g| == 9 &&
    (forall i :: 0 <= i < 9 ==> OnBoard(g[i])) &&
    (forall i, j :: 0 <= i < j < 9 ==> g[i] != g[j])
  }

  /** Row(n): the cells (n, 1) .. (n, 9). */
  function Row(n: int): (g: seq<Coord>)
    requires 1 <= n <= 9
    ensures NineCells(g)
    ensures forall q {:trigger q in g} :: q in g <==> q.0 == n && 1 <= q.1 <= 9
  {
    var g := seq(9, i => (n, i + 1));
    assert forall q: Coord :: q.0 == n && 1 <= q.1 <= 9 ==> g[q.1 - 1] == q;
    g
  }

  /** Column(n): the cells (1, n) .. (9, n). */
  function Column(n: int): (g: seq<Coord>)
    requires 1 <= n <= 9
    ensures NineCells(g)
    ensures forall q {:trigger q in g} :: q in g <==> q.1 == n && 1 <= q.0 <= 9
  {
    var g := seq(9, i => (i + 1, n));
    assert forall q: Coord :: q.1 == n && 1 <= q.0 <= 9 ==> g[q.0 - 1] == q;
    g
  }

  /** The 3x3 block a cell lies in, numbered from 0 in each direction. */
  function Box(p: Coord): (int, int) {
    ((p.0 - 1) / 3, (p.1 - 1) / 3)
  }

  /** The i-th cell (i in 0..8) of square (sr, sc), counted row by row. */
  function SquareCell(sr: int, sc: int, i: int): Coord {
    ((sr - 1) * 3 + 1 + i / 3, (sc - 1) * 3 + 1 + i % 3)
  }

  lemma SquareCellsDistinct(sr: int, sc: int, i: int, j: int)
    requires 0 <= i < j < 9
    ensures SquareCell(sr, sc, i) != SquareCell(sr, sc, j)
  {
    assert i == i / 3 * 3 + i % 3 && j == j / 3 * 3 + j % 3;
  }

  /** The i-th cell of square (sr, sc) is on the board and in that block. */
  lemma SquareCellInBox(sr: int, sc: int, i: int)
    requires 1 <= sr <= 3 && 1 <= sc <= 3 && 0 <= i < 9
    ensures OnBoard(SquareCell(sr, sc, i)) && Box(SquareCell(sr, sc, i)) == (sr - 1, sc - 1)
  {
    var a, b := i / 3, i % 3;
    assert 0 <= a < 3 && 0 <= b < 3;
    assert ((sr - 1) * 3 + a) / 3 == sr - 1;
    assert ((sc - 1) * 3 + b) / 3 == sc - 1;
  }

  /** A cell of block (sr - 1, sc - 1) is the square's cell number
      3 * ((r - 1) % 3) + (c - 1) % 3. */
  lemma BoxCellIndex(sr: int, sc: int, q: Coord)
    requires 1 <= sr <= 3 && 1 <= sc <= 3
    requires OnBoard(q) && Box(q) == (sr - 1, sc - 1)
    ensures 0 <= (q.0 - 1) % 3 * 3 + (q.1 - 1) % 3 < 9
    ensures SquareCell(sr, sc, (q.0 - 1) % 3 * 3 + (q.1 - 1) % 3) == q
  {
    var a, b := (q.0 - 1) % 3, (q.1 - 1) % 3;
    assert q.0 - 1 == (sr - 1) * 3 + a;
    assert q.1 - 1 == (sc - 1) * 3 + b;
    var i := a * 3 + b;
    assert i / 3 == a && i % 3 == b;
  }

  /** Square(sr, sc), sr and sc in 1..3: the block's cells row by row. */
  function Square(sr: int, sc: int): (g: seq<Coord>)
    requires 1 <= sr <= 3 && 1 <= sc <= 3
    ensures NineCells(g)
    ensures forall q {:trigger q in g} :: q in g <==> OnBoard(q) && Box(q) == (sr - 1, sc - 1)
  {
    var g := seq(9, i => SquareCell(sr, sc, i));
    forall i | 0 <= i < 9
      ensures OnBoard(g[i]) && Box(g[i]) == (sr - 1, sc - 1)
    {
      SquareCellInBox(sr, sc, i);
    }
    forall q | OnBoard(q) && Box(q) == (sr - 1, sc - 1)
      ensures q in g
    {
      BoxCellIndex(sr, sc, q);
      assert g[(q.0 - 1) % 3 * 3 + (q.1 - 1) % 3] == q;
    }
    forall i, j | 0 <= i < j < 9
      ensures g[i] != g[j]
    {
      SquareCellsDistinct(sr, sc, i, j);
    }
    g
  }

  /** get_square_of_a_cell(r, c): square ((r-1)//3+1, (c-1)//3+1). */
  function SquareOf(r: int, c: int): (g: seq<Coord>)
    requires OnBoard((r, c))
    ensures g == Square((r - 1) / 3 + 1, (c - 1) / 3 + 1)
    ensures (r, c) in g
    ensures forall q {:trigger q in g} :: q in g <==> OnBoard(q) && Box(q) == Box((r, c))
  {
    Square((r - 1) / 3 + 1, (c - 1) / 3 + 1)
  }

  /** Two distinct cells that must hold different values. */
  predicate Peer(p: Coord, q: Coord) {
    p != q && (p.0 == q.0 || p.1 == q.1 || Box(p) == Box(q))
  }

  /** Every other member of one of p's groups is a peer of p, and every peer
      of p lies in one of p's groups. */
  lemma {:induction false} PeersAreGroupMates(p: Coord, q: Coord)
    requires OnBoard(p) && OnBoard(q)
    ensures Peer(p, q) <==> p != q && (q in Row(p.0) || q in Column(p.1) || q in SquareOf(p.0, p.1))
  {
  }

  /** The k-th of the 27 groups in the order the board chains them: the nine
      rows, the nine columns, then the squares (1,1), (1,2), .. (3,3). */
  function GroupAt(k: int): (g: seq<Coord>)
    requires 0 <= k < 27
    ensures NineCells(g)
  {
    if k < 9 then Row(k + 1)
    else if k < 18 then Column(k - 8)
    else Square((k - 18) / 3 + 1, (k - 18) % 3 + 1)
  }

  /** Cell (r, c) lies in row r, column c and its own square, and in exactly
      one row, one column and one square. */
  lemma {:induction false} CellGroups(p: Coord)
    requires OnBoard(p)
    ensures p in Row(p.0) && p in Column(p.1) && p in SquareOf(p.0, p.1)
    ensures forall n :: 1 <= n <= 9 ==> (p in Row(n) <==> n == p.0)
    ensures forall n :: 1 <= n <= 9 ==> (p in Column(n) <==> n == p.1)
    ensures forall sr, sc :: 1 <= sr <= 3 && 1 <= sc <= 3 ==>
              (p in Square(sr, sc) <==> sr == (p.0 - 1) / 3 + 1 && sc == (p.1 - 1) / 3 + 1)
  {
  }
}
