/** The game itself: the dictionary of cells, the counters beside it, mine
    placement, clues, flood-fill reveal and the two mouse buttons. */
module Minesweeper {
  import opened Grid
  import opened Board
  import opened Difficulty

  /** The cell hit by a click, if any. */
  datatype Option<T> = None | Some(value: T)

  /** One game. The dictionary of cells keyed by (row, col) is held as three
      maps with the same keys, one per attribute of a cell that the game
      updates: its state, whether it holds a mine, and its clue. */
  class Game {
    const rows: nat
    const cols: nat
    const numMines: nat
    /** The positions of the board. */
    ghost const board: set<Pos>
    var state: map<Pos, CellState>
    var hasMine: map<Pos, bool>
    var clue: map<Pos, int>
    var revealedCount: int
    var flagCount: int
    var gameover: bool

    /** The dictionary holds exactly the cells of the board. */
    ghost predicate Shaped()
      reads this
    {
      board == AllCells(rows, cols) && state.Keys == board && hasMine.Keys == state.Keys && clue.Keys == state.Keys
    }

    /** The counters agree with the cells. */
    ghost predicate Valid()
      reads this
    {
      Shaped() &&
      revealedCount == |Where(state, Revealed)| &&
      flagCount == |Where(state, Flagged)|
    }

    /** Nothing has happened on the board yet. */
    ghost predicate Pristine()
      reads this
    {
      Shaped() && Untouched(state, hasMine, clue)
    }

    /** A game under way. */
    ghost predicate InPlay()
      reads this
    {
      Valid() && Underway(state, hasMine, clue, numMines, revealedCount)
    }

    /** Every cell without a mine is revealed. */
    ghost predicate Cleared()
      reads this
    {
      Where(state, Revealed) == board - Mines(hasMine)
    }

    /** A new game at the named difficulty; a name that is not one of the
        three presets keeps the previous configuration. */
    constructor NewGame(difficulty: string, previous: Config)
      ensures Config(rows, cols, numMines) == SetDifficulty(difficulty, previous)
      ensures Fresh()
    {
      var cfg := SetDifficulty(difficulty, previous);
      rows, cols, numMines := cfg.rows, cfg.cols, cfg.mines;
      board := AllCells(cfg.rows, cfg.cols);
      gameover := false;
      state, hasMine, clue := map[], map[], map[];
      revealedCount, flagCount := 0, 0;
      new;
      CreateCells();
    }

    /** A game that has just started: every cell hidden, no mine, clues 0,
        counters 0, and not over. */
    ghost predicate Fresh()
      reads this
    {
      Valid() && Pristine() && revealedCount == 0 && flagCount == 0 && !gameover
    }

    /** Fill the empty dictionary with a hidden, mine-free cell with clue 0
        at every position of the board, row by row. */
    method CreateCells()
      requires board == AllCells(rows, cols) && state == map[] && hasMine == map[] && clue == map[]
      requires revealedCount == 0 && flagCount == 0 && !gameover
      modifies `state, `hasMine, `clue
      ensures Fresh()
    {
      for row := 0 to rows
        invariant FreshCells(Rect(0, 0, row, cols))
      {
        CreateRow(row);
      }
      assert Mines(hasMine) == {};
      NothingShown(state, hasMine, clue);
    }

    /** The dictionary holds exactly the given positions, each with a hidden,
        mine-free cell with clue 0. */
    ghost predicate FreshCells(keys: set<Pos>)
      reads this
    {
      AllFresh(state, hasMine, clue, keys)
    }

    /** The inner loop of CreateCells: add the cells of one row. */
    method CreateRow(row: nat)
      requires FreshCells(Rect(0, 0, row, cols))
      modifies `state, `hasMine, `clue
      ensures FreshCells(Rect(0, 0, row + 1, cols))
    {
      ghost var keys := Rect(0, 0, row, cols);
      for col := 0 to cols
        invariant keys == Rect(0, 0, row, cols) + Row(row, 0, col)
        invariant FreshCells(keys)
      {
        AddFresh(state, hasMine, clue, keys, (row, col));
        state := state[(row, col) := Hidden];
        hasMine := hasMine[(row, col) := false];
        clue := clue[(row, col) := 0];
        keys := keys + {(row, col)};
      }
      assert Rect(0, 0, row + 1, cols) == Rect(0, 0, row, cols) + Row(row, 0, cols);
    }

    /** The right mouse button. While the game runs, a click on a cell that
        is not revealed flags it, or removes its flag, and the flag counter
        follows; anything else changes nothing. */
    method RightClick(hit: Option<Pos>)
      requires Valid() && (hit.Some? ==> hit.value in state)
      modifies `state, `flagCount
      ensures Valid() && (old(InPlay()) ==> InPlay())
      ensures gameover || hit.None? || old(state[hit.value]) == Revealed ==>
        state == old(state) && flagCount == old(flagCount)
      ensures !gameover && hit.Some? && old(state[hit.value]) == Flagged ==>
        state == old(state)[hit.value := Hidden] && flagCount == old(flagCount) - 1
      ensures !gameover && hit.Some? && old(state[hit.value]) == Hidden ==>
        state == old(state)[hit.value := Flagged] && flagCount == old(flagCount) + 1
    {
      if gameover {
        return;
      }
      if hit.Some? && state[hit.value] != Revealed {
        var p := hit.value;
        ToggleCounts(state, p);
        if state[p] == Flagged {
          state := state[p := Hidden];
          flagCount := flagCount - 1;
        } else {
          state := state[p := Flagged];
          flagCount := flagCount + 1;
        }
      }
    }

    /** Place numMines new mines, taking candidate cells from draws in order:
        a candidate gets a mine when it is more than distance 2 from the click
        and has none yet, and is skipped otherwise. Returns whether the draws
        ran out before all mines were placed. */
    method PlaceMines(click: Pos, draws: seq<Pos>) returns (stalled: bool)
      requires forall i :: 0 <= i < |draws| ==> draws[i] in hasMine
      modifies `hasMine
      ensures hasMine.Keys == old(hasMine).Keys
      ensures Mines(old(hasMine)) <= Mines(hasMine)
      ensures forall p :: p in Mines(hasMine) && p !in Mines(old(hasMine)) ==> FarFrom(p, click) && p in draws
      ensures !stalled ==> |Mines(hasMine)| == |Mines(old(hasMine))| + numMines
      ensures stalled ==> |Mines(hasMine)| < |Mines(old(hasMine))| + numMines
      ensures stalled ==> FarDraws(draws, click) <= Mines(hasMine)
      ensures |FarDraws(draws, click) - Mines(old(hasMine))| >= numMines ==> !stalled
    {
      var mineCount := 0;
      var i := 0;
      while mineCount < numMines && i < |draws|
        invariant 0 <= i <= |draws| && mineCount <= numMines
        invariant hasMine.Keys == old(hasMine).Keys
        invariant Mines(old(hasMine)) <= Mines(hasMine)
        invariant |Mines(hasMine)| == |Mines(old(hasMine))| + mineCount
        invariant forall p :: p in Mines(hasMine) && p !in Mines(old(hasMine)) ==> FarFrom(p, click) && p in draws
        invariant forall j :: 0 <= j < i && FarFrom(draws[j], click) ==> draws[j] in Mines(hasMine)
      {
        var cell := draws[i];
        if FarFrom(cell, click) && !hasMine[cell] {
          AddMine(hasMine, cell);
          hasMine := hasMine[cell := true];
          mineCount := mineCount + 1;
        }
        i := i + 1;
      }
      stalled := mineCount < numMines;
      if stalled {
        var added := Mines(hasMine) - Mines(old(hasMine));
        SubsetSize(Mines(old(hasMine)), Mines(hasMine));
        SubsetSize(FarDraws(draws, click) - Mines(old(hasMine)), added);
      }
    }

    /** Add to each cell's clue the number of mines around it, visiting the
        cells of the dictionary in an unspecified order. */
    method UpdateClues()
      requires hasMine.Keys == state.Keys
      modifies `clue
      ensures clue.Keys == old(clue).Keys
      ensures forall p {:trigger clue[p]} :: p in clue ==> clue[p] == old(clue)[p] + MinedNeighbours(hasMine, p)
    {
      ghost var c0 := clue;
      var todo := clue.Keys;
      while todo != {}
        invariant clue.Keys == c0.Keys && todo <= c0.Keys
        invariant forall q {:trigger clue[q]} :: q in clue ==> clue[q] == c0[q] + (if q in todo then 0 else MinedNeighbours(hasMine, q))
        decreases todo
      {
        var p :| p in todo;
        ghost var c1 := clue;
        AddNeighbourMines(p);
        todo := todo - {p};
        forall q | q in clue
          ensures clue[q] == c0[q] + (if q in todo then 0 else MinedNeighbours(hasMine, q))
        {
          if q != p {
            assert clue[q] == c1[q];
          }
        }
      }
    }

    /** The body of UpdateClues for the cell p: look at each position of the
        3 x 3 block around p, row by row, and add 1 to the clue of p for each
        one, other than p itself, that is a cell holding a mine. */
    method AddNeighbourMines(p: Pos)
      requires hasMine.Keys == state.Keys && p in clue
      modifies `clue
      ensures clue == old(clue)[p := old(clue)[p] + MinedNeighbours(hasMine, p)]
    {
      ghost var c0 := clue;
      for ar := p.0 - 1 to p.0 + 2
        invariant clue == c0[p := c0[p] + BlockMines(hasMine, p, ar)]
      {
        AddRowMines(p, ar);
      }
    }

    /** The inner loop of AddNeighbourMines: add 1 to the clue of p for each
        position of row ar of the 3 x 3 block around p, other than p itself,
        that is a cell holding a mine. */
    method AddRowMines(p: Pos, ar: int)
      requires hasMine.Keys == state.Keys && p in clue
      modifies `clue
      ensures clue == old(clue)[p := old(clue)[p] + RowMines(hasMine, p, ar, p.1 + 2)]
    {
      ghost var c0 := clue;
      for ac := p.1 - 1 to p.1 + 2
        invariant clue == c0[p := c0[p] + RowMines(hasMine, p, ar, ac)]
      {
        if ar == p.0 && ac == p.1 {
          continue;
        }
        if (ar, ac) in state && hasMine[(ar, ac)] {
          clue := clue[p := clue[p] + 1];
        }
      }
    }

    /** The left mouse button. While the game runs, a click on a cell is
        handled by ClickCell; anything else changes nothing. */
    method LeftClick(hit: Option<Pos>, draws: seq<Pos>) returns (stalled: bool)
      requires Valid() && (hit.Some? ==> hit.value in state)
      requires forall i :: 0 <= i < |draws| ==> draws[i] in state
      modifies `state, `hasMine, `clue, `revealedCount, `gameover
      ensures Valid() && flagCount == old(flagCount)
      ensures old(gameover) || hit.None? ==>
        !stalled && state == old(state) && hasMine == old(hasMine) && clue == old(clue) &&
        revealedCount == old(revealedCount) && gameover == old(gameover)
      ensures !old(gameover) && hit.Some? ==> Clicked(old(state), old(hasMine), old(clue), old(revealedCount), hit.value, draws, stalled)
      ensures old(Pristine()) && !old(gameover) && hit.Some? && !stalled ==>
        InPlay() && !hasMine[hit.value] && clue[hit.value] == 0 && (gameover <==> Cleared())
      ensures old(InPlay()) && !old(gameover) && hit.Some? && !hasMine[hit.value] ==>
        InPlay() && (gameover <==> Cleared())
    {
      stalled := false;
      if gameover || hit.None? {
        return;
      }
      ghost var s0, m0, c0, r0 := state, hasMine, clue, revealedCount;
      stalled := ClickCell(hit.value, draws);
      if !stalled {
        PlayGoesOn(s0, m0, c0, r0, hit.value, draws);
      }
    }

    /** A successful left click at p on a fresh board hits no mine and
        lands on a cell whose clue is 0; and any left click off a mine keeps
        the game under way and ends it exactly when the board is cleared. */
    lemma PlayGoesOn(s0: Cells, m0: map<Pos, bool>, c0: map<Pos, int>, r0: int, p: Pos, draws: seq<Pos>)
      requires Valid() && s0.Keys == board && p in s0
      requires Clicked(s0, m0, c0, r0, p, draws, false)
      ensures Untouched(s0, m0, c0) && r0 == 0 ==> !hasMine[p] && clue[p] == 0
      ensures (Untouched(s0, m0, c0) && r0 == 0) || Underway(s0, m0, c0, numMines, r0) ==>
        !hasMine[p] ==> InPlay() && (gameover <==> Cleared())
    {
      if Untouched(s0, m0, c0) && r0 == 0 {
        FirstClickClear(m0, hasMine, p, draws, numMines, false);
        assert !FarFrom(p, p);
        assert p !in Mines(hasMine);
        assert Where(s0, Revealed) == {};
        assert CluesMatch(clue, hasMine);
      }
      if !hasMine[p] && ((Untouched(s0, m0, c0) && r0 == 0) || Underway(s0, m0, c0, numMines, r0)) {
        assert Mines(hasMine) <= board;
        ClickOffMine(rows, cols, s0, state, Mines(hasMine), p);
      }
    }

    /** A first left click on a flagged cell reveals nothing, so the
        revealed counter stays 0 although mines were placed; the next left
        click places numMines more. The game still ends if that cell holds a
        mine. */
    lemma FlaggedFirstClick(s0: Cells, m0: map<Pos, bool>, c0: map<Pos, int>, p: Pos, draws: seq<Pos>)
      requires p in s0 && s0[p] == Flagged
      requires Clicked(s0, m0, c0, 0, p, draws, false)
      ensures state == s0 && revealedCount == 0
      ensures |Mines(hasMine)| == |Mines(m0)| + numMines
      ensures hasMine[p] ==> gameover
    {
      assert Newly(s0, state) == {};
    }

    /** What a left click at p did, starting from the cells s0, mine map m0,
        clues c0 and revealed counter r0: mines are placed and clues added
        only when r0 is 0; if placement ran out of draws, nothing else
        changed; otherwise p was revealed with a flood fill, the counter grew
        by the number of newly revealed cells, and the game is over exactly
        when p holds a mine or the counter equals the number of mine-free
        cells. */
    ghost predicate Clicked(s0: Cells, m0: map<Pos, bool>, c0: map<Pos, int>, r0: int, p: Pos, draws: seq<Pos>, stalled: bool)
      reads this
    {
      (r0 != 0 ==> !stalled && hasMine == m0 && clue == c0) &&
      (r0 == 0 ==> Placed(m0, hasMine, p, draws, numMines, stalled)) &&
      (r0 == 0 && !stalled ==> CluesAdded(c0, clue, hasMine)) &&
      (stalled ==> state == s0 && clue == c0 && revealedCount == r0 && !gameover) &&
      (!stalled ==>
        Opened(s0, state, Zeros(clue), Mines(hasMine), p, CluesMatch(clue, hasMine)) &&
        revealedCount == r0 + |Newly(s0, state)| &&
        p in hasMine && gameover == (hasMine[p] || revealedCount == rows * cols - numMines))
    }

    /** A left click at p while the game runs: if no cell is revealed yet,
        place the mines and compute the clues first, then open p. */
    method ClickCell(p: Pos, draws: seq<Pos>) returns (stalled: bool)
      requires Valid() && p in state && !gameover
      requires forall i :: 0 <= i < |draws| ==> draws[i] in state
      modifies `state, `hasMine, `clue, `revealedCount, `gameover
      ensures Valid() && flagCount == old(flagCount)
      ensures Clicked(old(state), old(hasMine), old(clue), old(revealedCount), p, draws, stalled)
    {
      stalled := false;
      if revealedCount == 0 {
        stalled := Arm(p, draws);
        if stalled {
          return;
        }
      }
      Open(p);
    }

    /** The first click of a game at p: place the mines, then, unless the
        draws ran out, compute the clues. */
    method Arm(p: Pos, draws: seq<Pos>) returns (stalled: bool)
      requires Valid()
      requires forall i :: 0 <= i < |draws| ==> draws[i] in state
      modifies `hasMine, `clue
      ensures Valid()
      ensures Placed(old(hasMine), hasMine, p, draws, numMines, stalled)
      ensures stalled ==> clue == old(clue)
      ensures !stalled ==> CluesAdded(old(clue), clue, hasMine)
    {
      stalled := PlaceMines(p, draws);
      if stalled {
        return;
      }
      UpdateClues();
    }

    /** The rest of a left click at p once the mines are in place: reveal p,
        add what was revealed to the counter, and end the game on a mine or
        when the counter reaches the number of mine-free cells. */
    method Open(p: Pos)
      requires Valid() && p in state && !gameover
      modifies `state, `revealedCount, `gameover
      ensures Valid()
      ensures Opened(old(state), state, Zeros(clue), Mines(hasMine), p, CluesMatch(clue, hasMine))
      ensures revealedCount == old(revealedCount) + |Newly(old(state), state)|
      ensures gameover == (hasMine[p] || revealedCount == rows * cols - numMines)
    {
      ghost var s0 := state;
      var n := Reveal(p);
      EvolvesCounts(s0, state);
      assert Opened(s0, state, Zeros(clue), Mines(hasMine), p, CluesMatch(clue, hasMine));
      revealedCount := revealedCount + n;
      if hasMine[p] {
        gameover := true;
      }
      if revealedCount == rows * cols - numMines {
        gameover := true;
      }
    }

    /** Reveal every cell of the dictionary, in an unspecified order, adding
        what each reveal returns to the counter: afterwards every cell that
        was flagged still is, and every other cell is revealed. */
    method RevealAllCells()
      requires Valid()
      modifies `state, `revealedCount
      ensures Valid()
      ensures state.Keys == old(state).Keys
      ensures forall q :: q in state ==> state[q] == if old(state)[q] == Flagged then Flagged else Revealed
    {
      ghost var s0 := state;
      var todo := state.Keys;
      while todo != {}
        invariant Valid() && Evolves(s0, state) && todo <= state.Keys
        invariant forall q :: q in state && q !in todo ==> state[q] != Hidden
        decreases todo
      {
        var p :| p in todo;
        ghost var s1 := state;
        RevealCounted(p);
        EvolvesTrans(s0, s1, state);
        todo := todo - {p};
      }
    }

    /** The body of RevealAllCells for the cell p: reveal it and add what the
        reveal returns to the counter. */
    method RevealCounted(p: Pos)
      requires Valid() && p in state
      modifies `state, `revealedCount
      ensures Valid() && Evolves(old(state), state) && state[p] != Hidden
      ensures revealedCount == old(revealedCount) + |Newly(old(state), state)|
    {
      ghost var s0 := state;
      var n := Reveal(p);
      EvolvesCounts(s0, state);
      revealedCount := revealedCount + n;
    }

    /** Reveal the cell at p: a hidden cell becomes revealed and, when its
        clue is 0, the cells around it are revealed in turn. Returns the number
        of cells this call revealed. */
    method Reveal(p: Pos) returns (n: nat)
      requires clue.Keys == state.Keys && p in state
      modifies `state
      decreases |Where(state, Hidden)|, 2
      ensures state.Keys == old(state).Keys
      ensures Evolves(old(state), state)
      ensures old(state[p]) != Hidden ==> n == 0 && state == old(state)
      ensures old(state[p]) == Hidden ==> state[p] == Revealed
      ensures old(state[p]) == Hidden && clue[p] != 0 ==> state == old(state)[p := Revealed] && n == 1
      ensures n == |Newly(old(state), state)|
      ensures Closed(old(state), state, Zeros(clue))
      ensures CluesMatch(clue, hasMine) ==> NoNewMines(old(state), state, Mines(hasMine), p)
    {
      ghost var s0 := state;
      if state[p] == Revealed || state[p] == Flagged {
        return 0;
      }
      state := state[p := Revealed];
      ghost var s1 := state;
      RevealOne(s0, p);
      EvolvesCounts(s0, s1);
      n := 1;
      if clue[p] == 0 {
        var k := RevealNeighbours(p);
        n := n + k;
        ComposeReveals(s0, s1, state, Zeros(clue), p);
        if CluesMatch(clue, hasMine) {
          ComposeSafe(s0, s1, state, Mines(hasMine), p, p);
        }
      }
    }

    /** The loops of a reveal at a revealed cell p whose clue is 0: reveal
        each cell of the 3 x 3 block around p that is in the dictionary, row by
        row. */
    method RevealNeighbours(p: Pos) returns (n: nat)
      requires clue.Keys == state.Keys && p in state && state[p] == Revealed
      modifies `state
      decreases |Where(state, Hidden)| + 1, 1
      ensures state.Keys == old(state).Keys
      ensures Evolves(old(state), state)
      ensures n == |Newly(old(state), state)|
      ensures Settled(state, p)
      ensures Closed(old(state), state, Zeros(clue))
      ensures CluesMatch(clue, hasMine) && clue[p] == 0 ==> NoNewMines(old(state), state, Mines(hasMine), p)
    {
      ghost var s0 := state;
      ghost var zeros, mines := Zeros(clue), Mines(hasMine);
      ghost var safe := CluesMatch(clue, hasMine) && clue[p] == 0;
      ScanStart(s0, zeros, mines, p, p.0 - 1, safe);
      n := 0;
      for ar := p.0 - 1 to p.0 + 2
        invariant clue == old(clue) && hasMine == old(hasMine) && state.Keys == s0.Keys
        invariant RowScan(s0, state, zeros, mines, p, ar, p.1 - 1, safe)
        invariant n == |Newly(s0, state)|
      {
        ghost var s1 := state;
        var k := RevealRow(p, ar);
        n := n + k;
        RowDone(s0, s1, state, zeros, mines, p, ar, safe);
      }
      ScanFinished(s0, state, zeros, mines, p, safe);
    }

    /** The inner loop of RevealNeighbours: reveal, left to right, the cells
        of row ar of the 3 x 3 block around p that are in the dictionary. */
    method RevealRow(p: Pos, ar: int) returns (n: nat)
      requires clue.Keys == state.Keys && p in state && state[p] == Revealed
      requires p.0 - 1 <= ar <= p.0 + 1 && ScanDone(state, p, ar, p.1 - 1)
      modifies `state
      decreases |Where(state, Hidden)| + 1, 0
      ensures state.Keys == old(state).Keys
      ensures RowScan(old(state), state, Zeros(clue), Mines(hasMine), p, ar + 1, p.1 - 1, CluesMatch(clue, hasMine) && clue[p] == 0)
      ensures n == |Newly(old(state), state)|
    {
      ghost var s0 := state;
      ghost var zeros, mines := Zeros(clue), Mines(hasMine);
      ghost var safe := CluesMatch(clue, hasMine) && clue[p] == 0;
      ScanStart(s0, zeros, mines, p, ar, safe);
      n := 0;
      for ac := p.1 - 1 to p.1 + 2
        invariant clue == old(clue) && hasMine == old(hasMine) && state.Keys == s0.Keys
        invariant RowScan(s0, state, zeros, mines, p, ar, ac, safe)
        invariant n == |Newly(s0, state)|
      {
        ghost var s1 := state;
        if (ar, ac) in state {
          var k := Reveal((ar, ac));
          assert k == |Newly(s1, state)|;
          n := n + k;
          if safe && (ar, ac) != p {
            ZeroClueSafe(clue, hasMine, p, (ar, ac));
          }
          NeighbourDone(s0, s1, state, zeros, mines, p, (ar, ac), safe);
          assert n == |Newly(s0, state)|;
        } else {
          ScanSkip(s0, s1, zeros, mines, p, ar, ac, safe);
        }
      }
      ScanNextRow(s0, state, zeros, mines, p, ar, safe);
    }
  }
}
