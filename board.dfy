/** Snapshots of the board's cells and the facts about them that the game's
    operations rely on: how a flood-fill reveal may change the cell states,
    and how clues relate to the mines around a cell. */
module Board {
  import opened Grid

  /** The concealment state of one cell. */
  datatype CellState = Hidden | Revealed | Flagged

  /** The only change a reveal may make to a cell: hidden becomes revealed. */
  predicate Evolved(before: CellState, after: CellState)
  {
    after == before || (before == Hidden && after == Revealed)
  }

  /** A snapshot of the cell states, keyed by position. */
  type Cells = map<Pos, CellState>

  /** The positions whose cell is in state v. */
  ghost function Where(s: Cells, v: CellState): set<Pos>
  {
    set p | p in s && s[p] == v
  }

  /** The cells that went from hidden to revealed between two snapshots. */
  ghost function Newly(s0: Cells, s1: Cells): set<Pos>
  {
    set p | p in s0 && p in s1 && s0[p] == Hidden && s1[p] == Revealed
  }

  /** s1 is s0 after some reveals: same cells, and only hidden cells changed,
      each to revealed. */
  ghost predicate Evolves(s0: Cells, s1: Cells)
  {
    s0.Keys == s1.Keys && forall p :: p in s0 ==> Evolved(s0[p], s1[p])
  }

  /** q is p or one of its 8 neighbours. */
  predicate Near(p: Pos, q: Pos)
  {
    -1 <= q.0 - p.0 <= 1 && -1 <= q.1 - p.1 <= 1
  }

  /** No cell around p is hidden. */
  ghost predicate Settled(s: Cells, p: Pos)
  {
    forall q :: q in s && Near(p, q) ==> s[q] != Hidden
  }

  /** The neighbours of p up to, but not including, (ar, ac) in row-major
      scanning order are not hidden. */
  ghost predicate ScanDone(s: Cells, p: Pos, ar: int, ac: int)
  {
    forall q :: q in s && Near(p, q) && (q.0 < ar || (q.0 == ar && q.1 < ac)) ==> s[q] != Hidden
  }

  /** One more scanning step: once the cell at (ar, ac) is not hidden, the
      scan has advanced past it, and a later evolution keeps it so. */
  lemma ScanStep(s1: Cells, s2: Cells, p: Pos, ar: int, ac: int)
    requires Evolves(s1, s2) && ScanDone(s1, p, ar, ac)
    requires (ar, ac) in s2 && s2[(ar, ac)] != Hidden
    ensures ScanDone(s2, p, ar, ac + 1)
  {
  }

  /** Progress of the neighbour loops of a reveal at p, started from s0 and
      now at s, with the scan up to (ar, ac): only reveals happened, p stays
      revealed, the scanned neighbours are not hidden, every newly revealed
      zero cell other than p is settled and, when safe, no new mine was
      revealed. */
  ghost predicate RowScan(s0: Cells, s: Cells, zeros: set<Pos>, mines: set<Pos>, p: Pos, ar: int, ac: int, safe: bool)
  {
    Evolves(s0, s) && p in s && s[p] == Revealed &&
    |Where(s, Hidden)| <= |Where(s0, Hidden)| &&
    ScanDone(s, p, ar, ac) &&
    ClosedExcept(s0, s, zeros, p) &&
    (safe ==> NoNewMines(s0, s, mines, p))
  }

  /** The scan starts with nothing done at row ar. */
  lemma ScanStart(s: Cells, zeros: set<Pos>, mines: set<Pos>, p: Pos, ar: int, safe: bool)
    requires p in s && s[p] == Revealed && ScanDone(s, p, ar, p.1 - 1)
    ensures RowScan(s, s, zeros, mines, p, ar, p.1 - 1, safe)
  {
    assert Newly(s, s) == {};
  }

  /** The scan steps over a position that is not a cell. */
  lemma ScanSkip(s0: Cells, s: Cells, zeros: set<Pos>, mines: set<Pos>, p: Pos, ar: int, ac: int, safe: bool)
    requires RowScan(s0, s, zeros, mines, p, ar, ac, safe) && (ar, ac) !in s
    ensures RowScan(s0, s, zeros, mines, p, ar, ac + 1, safe)
  {
  }

  /** One step of the neighbour loops at p: the reveal started at q = (ar, ac)
      took s1 to s2, and the scan moves past q. */
  lemma NeighbourDone(s0: Cells, s1: Cells, s2: Cells, zeros: set<Pos>, mines: set<Pos>, p: Pos, q: Pos, safe: bool)
    requires RowScan(s0, s1, zeros, mines, p, q.0, q.1, safe)
    requires Evolves(s1, s2) && q in s2 && s2[q] != Hidden && Closed(s1, s2, zeros)
    requires safe ==> NoNewMines(s1, s2, mines, q)
    requires safe && q != p ==> q !in mines
    ensures RowScan(s0, s2, zeros, mines, p, q.0, q.1 + 1, safe)
    ensures |Newly(s0, s2)| == |Newly(s0, s1)| + |Newly(s1, s2)|
  {
    EvolvesCounts(s1, s2);
    ComposeReveals(s0, s1, s2, zeros, p);
    ScanStep(s1, s2, p, q.0, q.1);
    if safe {
      assert q !in mines || (q in s1 && s1[q] != Hidden);
      ComposeSafe(s0, s1, s2, mines, p, q);
    }
  }

  /** One step of the outer neighbour loop at p: the pass over row ar took
      s1 to s2. */
  lemma RowDone(s0: Cells, s1: Cells, s2: Cells, zeros: set<Pos>, mines: set<Pos>, p: Pos, ar: int, safe: bool)
    requires RowScan(s0, s1, zeros, mines, p, ar, p.1 - 1, safe)
    requires RowScan(s1, s2, zeros, mines, p, ar + 1, p.1 - 1, safe)
    ensures RowScan(s0, s2, zeros, mines, p, ar + 1, p.1 - 1, safe)
    ensures |Newly(s0, s2)| == |Newly(s0, s1)| + |Newly(s1, s2)|
  {
    ComposeReveals(s0, s1, s2, zeros, p);
    if safe {
      ComposeSafe(s0, s1, s2, mines, p, p);
    }
  }

  /** A scan over the whole row moves on to the next row. */
  lemma ScanNextRow(s0: Cells, s: Cells, zeros: set<Pos>, mines: set<Pos>, p: Pos, ar: int, safe: bool)
    requires RowScan(s0, s, zeros, mines, p, ar, p.1 + 2, safe)
    ensures RowScan(s0, s, zeros, mines, p, ar + 1, p.1 - 1, safe)
  {
  }

  /** Once all three rows are scanned, p is settled and the closure holds
      for every newly revealed zero cell, p included. */
  lemma ScanFinished(s0: Cells, s: Cells, zeros: set<Pos>, mines: set<Pos>, p: Pos, safe: bool)
    requires RowScan(s0, s, zeros, mines, p, p.0 + 2, p.1 - 1, safe)
    requires p in s0 && s0[p] == Revealed
    ensures Evolves(s0, s) && Settled(s, p) && Closed(s0, s, zeros)
    ensures safe ==> NoNewMines(s0, s, mines, p)
  {
    assert p !in Newly(s0, s);
  }

  /** Flood-fill closure: every newly revealed cell with clue 0, except
      possibly x, has no hidden neighbour left. */
  ghost predicate ClosedExcept(s0: Cells, s1: Cells, zeros: set<Pos>, x: Pos)
  {
    forall p :: p in Newly(s0, s1) && p in zeros && p != x ==> Settled(s1, p)
  }

  /** Flood-fill closure for every newly revealed cell with clue 0. */
  ghost predicate Closed(s0: Cells, s1: Cells, zeros: set<Pos>)
  {
    forall p :: p in Newly(s0, s1) && p in zeros ==> Settled(s1, p)
  }

  /** What a reveal started at p did to the cells: only reveals happened;
      nothing changed if p was already revealed or flagged, and otherwise p is
      now revealed, and is the only cell revealed when its clue is not 0; the
      flood fill is closed; and, when safe, no mine other than possibly p was
      revealed. */
  ghost predicate Opened(s0: Cells, s1: Cells, zeros: set<Pos>, mines: set<Pos>, p: Pos, safe: bool)
  {
    Evolves(s0, s1) && p in s0 &&
    (s0[p] != Hidden ==> s1 == s0) &&
    (s0[p] == Hidden ==> s1[p] == Revealed) &&
    (s0[p] == Hidden && p !in zeros ==> s1 == s0[p := Revealed]) &&
    Closed(s0, s1, zeros) &&
    (safe ==> NoNewMines(s0, s1, mines, p))
  }

  /** No newly revealed cell except possibly x holds a mine. */
  ghost predicate NoNewMines(s0: Cells, s1: Cells, mines: set<Pos>, x: Pos)
  {
    forall p :: p in Newly(s0, s1) && p != x ==> p !in mines
  }

  /** A click at p, which holds no mine, on a board where no mine is revealed:
      afterwards still no mine is revealed, p is revealed if it was hidden,
      and the revealed cells number R * C - M exactly when they are all the
      cells without a mine. */
  lemma ClickOffMine(rows: nat, cols: nat, s0: Cells, s1: Cells, mines: set<Pos>, p: Pos)
    requires s0.Keys == AllCells(rows, cols) && Evolves(s0, s1)
    requires mines <= AllCells(rows, cols) && p !in mines
    requires Where(s0, Revealed) * mines == {} && NoNewMines(s0, s1, mines, p)
    requires p in s0 && (s0[p] == Hidden ==> s1[p] == Revealed)
    ensures Where(s1, Revealed) * mines == {}
    ensures s0[p] != Flagged ==> p in Where(s1, Revealed)
    ensures |Where(s1, Revealed)| == rows * cols - |mines| <==> Where(s1, Revealed) == AllCells(rows, cols) - mines
  {
    EvolvesCounts(s0, s1);
    WinCondition(rows, cols, mines, Where(s1, Revealed));
  }

  /** Revealing one hidden cell is an evolution that reveals exactly that cell. */
  lemma RevealOne(s0: Cells, p: Pos)
    requires p in s0 && s0[p] == Hidden
    ensures Evolves(s0, s0[p := Revealed])
    ensures Newly(s0, s0[p := Revealed]) == {p}
  {
    var s1 := s0[p := Revealed];
    assert p in Newly(s0, s1);
  }

  /** How the three groups of cells change over an evolution: the revealed
      cells gain exactly the newly revealed ones, which the hidden cells lose,
      and the flagged cells stay as they are. */
  lemma {:induction false} EvolvesCounts(s0: Cells, s1: Cells)
    requires Evolves(s0, s1)
    ensures Where(s1, Revealed) == Where(s0, Revealed) + Newly(s0, s1)
    ensures |Where(s1, Revealed)| == |Where(s0, Revealed)| + |Newly(s0, s1)|
    ensures |Where(s1, Hidden)| == |Where(s0, Hidden)| - |Newly(s0, s1)|
    ensures Where(s1, Flagged) == Where(s0, Flagged)
  {
    var n := Newly(s0, s1);
    assert Where(s1, Revealed) == Where(s0, Revealed) + n;
    assert Where(s0, Revealed) * n == {};
    assert Where(s0, Hidden) == Where(s1, Hidden) + n;
    assert Where(s1, Hidden) * n == {};
    assert Where(s1, Flagged) == Where(s0, Flagged);
  }

  /** Sequencing two evolutions: the newly revealed cells add up, and the
      closure established by each part survives the later one. */
  lemma {:induction false} ComposeReveals(s0: Cells, s1: Cells, s2: Cells, zeros: set<Pos>, x: Pos)
    requires Evolves(s0, s1) && Evolves(s1, s2)
    requires ClosedExcept(s0, s1, zeros, x) && ClosedExcept(s1, s2, zeros, x)
    ensures Evolves(s0, s2)
    ensures Newly(s0, s2) == Newly(s0, s1) + Newly(s1, s2)
    ensures |Newly(s0, s2)| == |Newly(s0, s1)| + |Newly(s1, s2)|
    ensures ClosedExcept(s0, s2, zeros, x)
  {
    assert Newly(s0, s2) == Newly(s0, s1) + Newly(s1, s2);
    assert Newly(s0, s1) * Newly(s1, s2) == {};
    forall p | p in Newly(s0, s2) && p in zeros && p != x
      ensures Settled(s2, p)
    {
      if p in Newly(s0, s1) {
        assert Settled(s1, p);
      }
    }
  }

  /** Sequencing two evolutions keeps mines out of the newly revealed cells,
      provided the start y of the second one is mine-free or was not hidden. */
  lemma {:induction false} ComposeSafe(s0: Cells, s1: Cells, s2: Cells, mines: set<Pos>, x: Pos, y: Pos)
    requires Evolves(s0, s1) && Evolves(s1, s2)
    requires NoNewMines(s0, s1, mines, x) && NoNewMines(s1, s2, mines, y)
    requires y !in mines || (y in s1 && s1[y] != Hidden)
    ensures NoNewMines(s0, s2, mines, x)
  {
    forall p | p in Newly(s0, s2) && p != x
      ensures p !in mines
    {
      if p !in Newly(s0, s1) {
        assert p in Newly(s1, s2);
      }
    }
  }

  /** 1 if p is a cell holding a mine, else 0. */
  function MineAt(mines: map<Pos, bool>, p: Pos): nat
  {
    if p in mines && mines[p] then 1 else 0
  }

  /** The mines among the cells (ar, p.1 - 1), ..., (ar, ac - 1), p itself excluded. */
  function RowMines(mines: map<Pos, bool>, p: Pos, ar: int, ac: int): (n: nat)
    decreases ac - p.1 + 1
    ensures n <= if ac <= p.1 - 1 then 0 else ac - p.1 + 1
  {
    if ac <= p.1 - 1 then 0
    else RowMines(mines, p, ar, ac - 1) + (if ar == p.0 && ac - 1 == p.1 then 0 else MineAt(mines, (ar, ac - 1)))
  }

  /** The mines among the rows p.0 - 1, ..., ar - 1 of the 3 x 3 block around p,
      p itself excluded. */
  function BlockMines(mines: map<Pos, bool>, p: Pos, ar: int): (n: nat)
    decreases ar - p.0 + 1
    ensures n <= if ar <= p.0 - 1 then 0 else 3 * (ar - p.0 + 1)
  {
    if ar <= p.0 - 1 then 0
    else BlockMines(mines, p, ar - 1) + RowMines(mines, p, ar - 1, p.1 + 2)
  }

  /** The contribution of one cell of the block around p to its count. */
  function Around(mines: map<Pos, bool>, p: Pos, q: Pos): nat
  {
    if q.0 == p.0 && q.1 == p.1 then 0 else MineAt(mines, q)
  }

  /** A scan of one whole row of the block adds its three cells. */
  lemma RowOfThree(mines: map<Pos, bool>, p: Pos, ar: int)
    ensures RowMines(mines, p, ar, p.1 + 2) ==
      Around(mines, p, (ar, p.1 - 1)) + Around(mines, p, (ar, p.1)) + Around(mines, p, (ar, p.1 + 1))
  {
    var c := p.1;
    assert RowMines(mines, p, ar, c - 1) == 0;
    assert RowMines(mines, p, ar, c) == Around(mines, p, (ar, c - 1));
    assert RowMines(mines, p, ar, c + 1) == RowMines(mines, p, ar, c) + Around(mines, p, (ar, c));
  }

  /** Scanning the whole 3 x 3 block counts each of the eight neighbours
      of p once. */
  lemma BlockIsNeighbours(mines: map<Pos, bool>, p: Pos)
    ensures BlockMines(mines, p, p.0 + 2) ==
      MineAt(mines, (p.0 - 1, p.1 - 1)) + MineAt(mines, (p.0 - 1, p.1)) + MineAt(mines, (p.0 - 1, p.1 + 1)) +
      MineAt(mines, (p.0, p.1 - 1)) + MineAt(mines, (p.0, p.1 + 1)) +
      MineAt(mines, (p.0 + 1, p.1 - 1)) + MineAt(mines, (p.0 + 1, p.1)) + MineAt(mines, (p.0 + 1, p.1 + 1))
  {
    var r := p.0;
    RowOfThree(mines, p, r - 1);
    RowOfThree(mines, p, r);
    RowOfThree(mines, p, r + 1);
    assert BlockMines(mines, p, r - 1) == 0;
    assert BlockMines(mines, p, r) == RowMines(mines, p, r - 1, p.1 + 2);
    assert BlockMines(mines, p, r + 1) == BlockMines(mines, p, r) + RowMines(mines, p, r, p.1 + 2);
  }

  /** The number of mines among the cells around p, p itself excluded: the
      3 x 3 block around p scanned row by row. */
  function MinedNeighbours(mines: map<Pos, bool>, p: Pos): (n: nat)
    ensures n <= 8
  {
    BlockIsNeighbours(mines, p);
    BlockMines(mines, p, p.0 + 2)
  }

  /** The cells holding a mine. */
  ghost function Mines(mines: map<Pos, bool>): set<Pos>
  {
    set p | p in mines && mines[p]
  }

  /** The cells whose clue is 0. */
  ghost function Zeros(clue: map<Pos, int>): set<Pos>
  {
    set p | p in clue && clue[p] == 0
  }

  /** Every clue counts the mines around its cell. */
  ghost predicate CluesMatch(clue: map<Pos, int>, mines: map<Pos, bool>)
  {
    forall p :: p in clue ==> clue[p] == MinedNeighbours(mines, p)
  }

  /** The cells are exactly keys, each hidden, mine-free and with clue 0. */
  ghost predicate AllFresh(s: Cells, m: map<Pos, bool>, c: map<Pos, int>, keys: set<Pos>)
  {
    s.Keys == keys && m.Keys == keys && c.Keys == keys &&
    forall p :: p in s ==> s[p] == Hidden && !m[p] && c[p] == 0
  }

  /** Adding one more fresh cell. */
  lemma AddFresh(s: Cells, m: map<Pos, bool>, c: map<Pos, int>, keys: set<Pos>, q: Pos)
    requires AllFresh(s, m, c, keys)
    ensures AllFresh(s[q := Hidden], m[q := false], c[q := 0], keys + {q})
  {
  }

  /** Nothing has happened on a board: every cell hidden, no mine, every
      clue 0. */
  ghost predicate Untouched(s: Cells, m: map<Pos, bool>, c: map<Pos, int>)
  {
    Mines(m) == {} && (forall p :: p in s ==> s[p] == Hidden) && (forall p :: p in c ==> c[p] == 0)
  }

  /** On an untouched board no cell is revealed or flagged. */
  lemma NothingShown(s: Cells, m: map<Pos, bool>, c: map<Pos, int>)
    requires Untouched(s, m, c)
    ensures Where(s, Revealed) == {} && Where(s, Flagged) == {}
  {
    assert Where(s, Revealed) == {};
    assert Where(s, Flagged) == {};
  }

  /** A game under way: count cells are revealed, at least one; every clue
      counts the mines around its cell; there are exactly numMines mines and
      none of them is revealed. */
  ghost predicate Underway(s: Cells, m: map<Pos, bool>, c: map<Pos, int>, numMines: nat, count: int)
  {
    CluesMatch(c, m) && |Mines(m)| == numMines && Where(s, Revealed) * Mines(m) == {} && count > 0
  }

  /** A cell whose clue correctly says 0 has no mine around it. */
  lemma ZeroClueSafe(clue: map<Pos, int>, mines: map<Pos, bool>, p: Pos, q: Pos)
    requires CluesMatch(clue, mines) && p in clue && clue[p] == 0
    requires Near(p, q) && q != p
    ensures q !in Mines(mines)
  {
    assert MinedNeighbours(mines, p) == 0;
    BlockIsNeighbours(mines, p);
    assert MineAt(mines, q) == 0 by {
      var (r, c) := p;
      if q.0 == r - 1 {
        assert q == (r - 1, c - 1) || q == (r - 1, c) || q == (r - 1, c + 1);
      } else if q.0 == r {
        assert q == (r, c - 1) || q == (r, c + 1);
      } else {
        assert q == (r + 1, c - 1) || q == (r + 1, c) || q == (r + 1, c + 1);
      }
    }
  }

  /** Revealing cells in two stretches is revealing cells. */
  lemma EvolvesTrans(s0: Cells, s1: Cells, s2: Cells)
    requires Evolves(s0, s1) && Evolves(s1, s2)
    ensures Evolves(s0, s2)
  {
  }

  /** What a right click may do to an unrevealed cell: flag it or remove its flag. */
  function Toggled(v: CellState): CellState
  {
    if v == Flagged then Hidden else Flagged
  }

  /** Toggling the flag on an unrevealed cell moves that cell into or out of
      the flagged group and leaves the revealed group alone. */
  lemma {:induction false} ToggleCounts(s: Cells, p: Pos)
    requires p in s && s[p] != Revealed
    ensures Where(s[p := Toggled(s[p])], Revealed) == Where(s, Revealed)
    ensures s[p] == Hidden ==> |Where(s[p := Flagged], Flagged)| == |Where(s, Flagged)| + 1
    ensures s[p] == Flagged ==> |Where(s[p := Hidden], Flagged)| == |Where(s, Flagged)| - 1
  {
    var t := s[p := Toggled(s[p])];
    assert Where(t, Revealed) == Where(s, Revealed);
    if s[p] == Hidden {
      assert Where(t, Flagged) == Where(s, Flagged) + {p};
    } else {
      assert Where(s, Flagged) == Where(t, Flagged) + {p};
    }
  }

  /** Placing a mine on a mine-free cell adds exactly that cell to the mines. */
  lemma {:induction false} AddMine(m: map<Pos, bool>, p: Pos)
    requires p in m && !m[p]
    ensures Mines(m[p := true]) == Mines(m) + {p}
    ensures |Mines(m[p := true])| == |Mines(m)| + 1
  {
    assert Mines(m[p := true]) == Mines(m) + {p};
  }

  /** Mine placement took the mine map m0 to m1: the same cells, no mine
      removed, every new mine more than distance 2 from the click and among
      the draws, and count more mines unless the draws ran out; they run out
      only when fewer than count mines were added and every draw far from the
      click holds a mine, so never while count far draws are still mine-free. */
  ghost predicate Placed(m0: map<Pos, bool>, m1: map<Pos, bool>, click: Pos, draws: seq<Pos>, count: nat, stalled: bool)
  {
    m1.Keys == m0.Keys && Mines(m0) <= Mines(m1) &&
    (forall q :: q in Mines(m1) && q !in Mines(m0) ==> FarFrom(q, click) && q in draws) &&
    (!stalled ==> |Mines(m1)| == |Mines(m0)| + count) &&
    (stalled ==> FarDraws(draws, click) <= Mines(m1) && |Mines(m1)| < |Mines(m0)| + count) &&
    (|FarDraws(draws, click) - Mines(m0)| >= count ==> !stalled)
  }

  /** The first placement of a game, on a board without mines, leaves the
      clicked cell and its eight neighbours mine-free, so the clue of the
      clicked cell is 0 and revealing it opens the area around it. */
  lemma FirstClickClear(m0: map<Pos, bool>, m1: map<Pos, bool>, click: Pos, draws: seq<Pos>, count: nat, stalled: bool)
    requires Placed(m0, m1, click, draws, count, stalled) && Mines(m0) == {}
    ensures forall q :: Near(click, q) ==> q !in Mines(m1)
    ensures MinedNeighbours(m1, click) == 0
  {
    forall q | Near(click, q)
      ensures q !in Mines(m1) && MineAt(m1, q) == 0
    {
      NeighbourIsNear(q, click);
    }
    var (r, c) := click;
    assert Near(click, (r - 1, c - 1)) && Near(click, (r - 1, c)) && Near(click, (r - 1, c + 1));
    assert Near(click, (r, c - 1)) && Near(click, (r, c + 1));
    assert Near(click, (r + 1, c - 1)) && Near(click, (r + 1, c)) && Near(click, (r + 1, c + 1));
    BlockIsNeighbours(m1, click);
  }

  /** Each clue of c0 grew by the number of mines around its cell. */
  ghost predicate CluesAdded(c0: map<Pos, int>, c1: map<Pos, int>, mines: map<Pos, bool>)
  {
    c1.Keys == c0.Keys && forall q {:trigger c1[q]} :: q in c1 ==> c1[q] == c0[q] + MinedNeighbours(mines, q)
  }

  /** Clues added to all-zero clues are exactly the counts of mines around
      each cell, each between 0 and 8. */
  lemma CluesFromZero(c0: map<Pos, int>, c1: map<Pos, int>, mines: map<Pos, bool>)
    requires CluesAdded(c0, c1, mines) && forall q :: q in c0 ==> c0[q] == 0
    ensures CluesMatch(c1, mines)
    ensures forall q :: q in c1 ==> 0 <= c1[q] <= 8
  {
    forall q | q in c1
      ensures c1[q] == MinedNeighbours(mines, q) && 0 <= c1[q] <= 8
    {
      assert c1[q] == c0[q] + MinedNeighbours(mines, q);
    }
  }

  /** The draws at more than distance 2 from the click. */
  ghost function FarDraws(draws: seq<Pos>, click: Pos): set<Pos>
  {
    set i | 0 <= i < |draws| && FarFrom(draws[i], click) :: draws[i]
  }
}
