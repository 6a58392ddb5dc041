/** Positions on a rectangular board, counting lemmas about sets of positions,
    the exclusion zone around the first click, and the win condition. */
module Grid {

  /** A (row, col) position. */
  type Pos = (int, int)

  /** The w positions (top, left), ..., (top, left + w - 1) of one row segment. */
  ghost function Row(top: int, left: int, w: nat): set<Pos>
  {
    if w == 0 then {} else Row(top, left, w - 1) + {(top, left + w - 1)}
  }

  /** All positions (a, b) with top <= a < top + h and left <= b < left + w. */
  ghost function Rect(top: int, left: int, h: nat, w: nat): set<Pos>
  {
    if h == 0 then {} else Rect(top, left, h - 1, w) + Row(top + h - 1, left, w)
  }

  /** Every position of an R x C board. */
  ghost function AllCells(rows: nat, cols: nat): set<Pos>
  {
    Rect(0, 0, rows, cols)
  }

  lemma {:induction false} InRow(top: int, left: int, w: nat, p: Pos)
    ensures p in Row(top, left, w) <==> p.0 == top && left <= p.1 < left + w
  {
    if w > 0 {
      InRow(top, left, w - 1, p);
    }
  }

  lemma {:induction false} InRect(top: int, left: int, h: nat, w: nat, p: Pos)
    ensures p in Rect(top, left, h, w) <==> top <= p.0 < top + h && left <= p.1 < left + w
  {
    if h > 0 {
      InRect(top, left, h - 1, w, p);
      InRow(top + h - 1, left, w, p);
    }
  }

  /** A row segment of width w holds exactly w positions. */
  lemma {:induction false} RowSize(top: int, left: int, w: nat)
    ensures |Row(top, left, w)| == w
  {
    if w > 0 {
      RowSize(top, left, w - 1);
      InRow(top, left, w - 1, (top, left + w - 1));
    }
  }

  /** An h x w rectangle holds exactly h * w positions. */
  lemma {:induction false} RectSize(top: int, left: int, h: nat, w: nat)
    ensures |Rect(top, left, h, w)| == h * w
  {
    if h > 0 {
      var above, last := Rect(top, left, h - 1, w), Row(top + h - 1, left, w);
      RectSize(top, left, h - 1, w);
      RowSize(top + h - 1, left, w);
      NextRowIsNew(top, left, h, w);
      DisjointUnionSize(above, last);
      assert Rect(top, left, h, w) == above + last;
      assert |Rect(top, left, h, w)| == (h - 1) * w + w;
      assert (h - 1) * w + w == h * w;
    }
  }

  lemma DisjointUnionSize<T>(a: set<T>, b: set<T>)
    requires a * b == {}
    ensures |a + b| == |a| + |b|
  {
    assert |a + b| + |a * b| == |a| + |b|;
  }

  /** The last row of a rectangle shares no position with the rows above it. */
  lemma NextRowIsNew(top: int, left: int, h: nat, w: nat)
    requires h > 0
    ensures Rect(top, left, h - 1, w) * Row(top + h - 1, left, w) == {}
  {
    var above, last := Rect(top, left, h - 1, w), Row(top + h - 1, left, w);
    forall p | p in above ensures p !in last {
      InRect(top, left, h - 1, w, p);
      InRow(top + h - 1, left, w, p);
    }
  }

  /** An R x C board has R * C cells. */
  lemma GridSize(rows: nat, cols: nat)
    ensures |AllCells(rows, cols)| == rows * cols
  {
    RectSize(0, 0, rows, cols);
  }

  /** A subset is no larger, and what it leaves out is the difference of sizes. */
  lemma {:induction false} SubsetSize<T>(a: set<T>, b: set<T>)
    requires a <= b
    ensures |b - a| == |b| - |a|
    ensures |a| <= |b|
  {
    assert b == a + (b - a);
    assert a * (b - a) == {};
  }

  /** A subset of the same size is the whole set. */
  lemma SameSizeSubset<T>(a: set<T>, b: set<T>)
    requires a <= b && |a| == |b|
    ensures a == b
  {
    SubsetSize(a, b);
    assert b - a == {};
  }

  lemma UnionSize<T>(a: set<T>, b: set<T>)
    ensures |a + b| <= |a| + |b|
  {
    assert |a + b| + |a * b| == |a| + |b|;
  }

  /** Squared Euclidean distance between two positions. */
  function SqDist(p: Pos, q: Pos): nat
  {
    (p.0 - q.0) * (p.0 - q.0) + (p.1 - q.1) * (p.1 - q.1)
  }

  /** A mine may go at p only if p is more than distance 2 from the clicked
      cell q: for integer squared distances d, sqrt(d) > 2 exactly when d > 4. */
  predicate FarFrom(p: Pos, q: Pos)
  {
    SqDist(p, q) > 4
  }

  /** The positions of the board where a mine may be placed after a click at q. */
  ghost function Allowed(rows: nat, cols: nat, q: Pos): set<Pos>
  {
    set p | p in AllCells(rows, cols) && FarFrom(p, q)
  }

  /** The disc of 13 positions within distance 2 of q: rows of width 1, 3, 5, 3, 1. */
  ghost function Disc(q: Pos): set<Pos>
  {
    Row(q.0 - 2, q.1, 1) + Row(q.0 - 1, q.1 - 1, 3) + Row(q.0, q.1 - 2, 5)
      + Row(q.0 + 1, q.1 - 1, 3) + Row(q.0 + 2, q.1, 1)
  }

  lemma UnionOfFive<T>(a: set<T>, b: set<T>, c: set<T>, d: set<T>, e: set<T>)
    ensures |a + b + c + d + e| <= |a| + |b| + |c| + |d| + |e|
  {
    UnionSize(a, b);
    UnionSize(a + b, c);
    UnionSize(a + b + c, d);
    UnionSize(a + b + c + d, e);
  }

  lemma DiscSize(q: Pos)
    ensures |Disc(q)| <= 13
  {
    var a, b, c := Row(q.0 - 2, q.1, 1), Row(q.0 - 1, q.1 - 1, 3), Row(q.0, q.1 - 2, 5);
    var d, e := Row(q.0 + 1, q.1 - 1, 3), Row(q.0 + 2, q.1, 1);
    RowSize(q.0 - 2, q.1, 1);
    RowSize(q.0 - 1, q.1 - 1, 3);
    RowSize(q.0, q.1 - 2, 5);
    RowSize(q.0 + 1, q.1 - 1, 3);
    RowSize(q.0 + 2, q.1, 1);
    assert |a| + |b| + |c| + |d| + |e| == 13;
    UnionOfFive(a, b, c, d, e);
  }

  /** Every position that is not far from q lies in the disc around q. */
  lemma NearIsInDisc(p: Pos, q: Pos)
    requires !FarFrom(p, q)
    ensures p in Disc(q)
  {
    var dr, dc := p.0 - q.0, p.1 - q.1;
    SmallSquares(dr, dc);
    InRow(q.0 - 2, q.1, 1, p);
    InRow(q.0 - 1, q.1 - 1, 3, p);
    InRow(q.0, q.1 - 2, 5, p);
    InRow(q.0 + 1, q.1 - 1, 3, p);
    InRow(q.0 + 2, q.1, 1, p);
  }

  /** The integer offsets with dr^2 + dc^2 <= 4 form the rows of the disc. */
  lemma SmallSquares(dr: int, dc: int)
    requires dr * dr + dc * dc <= 4
    ensures -2 <= dr <= 2
    ensures dr == -2 || dr == 2 ==> dc == 0
    ensures dr == -1 || dr == 1 ==> -1 <= dc <= 1
    ensures dr == 0 ==> -2 <= dc <= 2
  {
    assert -2 <= dr <= 2 && -2 <= dc <= 2;
  }

  /** Whatever the clicked cell, at most 13 cells of the board are excluded
      from mine placement. */
  lemma AllowedSize(rows: nat, cols: nat, q: Pos)
    ensures |Allowed(rows, cols, q)| >= rows * cols - 13
  {
    var all := AllCells(rows, cols);
    var allowed := Allowed(rows, cols, q);
    forall p | p in all - allowed ensures p in Disc(q) {
      NearIsInDisc(p, q);
    }
    SubsetSize(allowed, all);
    SubsetSize(all - allowed, Disc(q));
    DiscSize(q);
    GridSize(rows, cols);
  }

  /** Neighbours of q are never far from q, so no mine is ever placed next to
      (or on) the clicked cell. */
  lemma NeighbourIsNear(p: Pos, q: Pos)
    requires -1 <= p.0 - q.0 <= 1 && -1 <= p.1 - q.1 <= 1
    ensures !FarFrom(p, q)
  {
    var dr, dc := p.0 - q.0, p.1 - q.1;
    assert dr * dr <= 1 && dc * dc <= 1;
  }

  /** The clear test: given that the mines are exactly the given set of cells
      and no mine is revealed, the revealed count reaches R * C - M exactly
      when every mine-free cell is revealed. */
  lemma WinCondition(rows: nat, cols: nat, mines: set<Pos>, revealed: set<Pos>)
    requires mines <= AllCells(rows, cols) && revealed <= AllCells(rows, cols)
    requires revealed * mines == {}
    ensures |revealed| == rows * cols - |mines| <==> revealed == AllCells(rows, cols) - mines
  {
    var safe := AllCells(rows, cols) - mines;
    GridSize(rows, cols);
    SubsetSize(mines, AllCells(rows, cols));
    assert revealed <= safe;
    if |revealed| == rows * cols - |mines| {
      SameSizeSubset(revealed, safe);
    }
  }
}
