# Minesweeper board engine in Dafny

This project models the board logic of a pygame Minesweeper game
(`minesweeper.py`), with the drawing, menus and timer stripped away, and
proves what each operation does to the board.

The game object (`Minesweeper.Game`, in `game.dfy`) keeps the source's fields:

- the board size and mine count chosen by the difficulty presets;
- the dictionary of cells keyed by `(row, col)`;
- `revealedCount`, `flagCount` and `gameover`.

The dictionary is held as three maps with the same keys, one for each
attribute of a cell that the game changes:

- `state`: hidden, revealed or flagged;
- `hasMine`;
- `clue`.

Each operation is a method that updates these fields in place, as the
Python code does:

- the nested `for` loops of `create_cells`;
- the rejection-sampling `while` loop of `place_mines`;
- the nested neighbour loops of `update_clues`;
- the recursive flood fill of `Cell.reveal`;
- the two click handlers;
- `reveal_all_cells`.

A Python `for (row, col) in self.cells` loop visits keys in the
dictionary's insertion order. The model picks the next key from the set of
keys not yet visited, in any order, so what is proved holds for every order.

The facts about board snapshots live in two modules:

- `board.dfy` (module `Board`): how a reveal may change cell states, the
  flood-fill closure, how many cells are revealed or flagged, the clue as
  a count of mined neighbours, and mine placement;
- `grid.dfy` (module `Grid`): counting positions on an R x C board, the
  13-cell exclusion zone around the first click, and the win test.

`difficulty.dfy` holds the three presets.

Three quirks of the code that the model reproduces:

- Mines are placed on every left click made while `revealed_count == 0`
  (`minesweeper.py:174`). A first left click on
  a flagged cell reveals nothing (`Cell.reveal` returns 0 for a flagged
  cell), so the next left click places `num_mines` more mines. It also adds
  the neighbour counts to the clues a second time, because `update_clues`
  never resets a clue. `FlaggedFirstClick`, together with the `Clicked`
  relation in `LeftClick`'s contract, states this.
- A left click on a flagged cell that holds a mine still ends the game
  (`minesweeper.py:182-183`), although `Cell.reveal` leaves that cell
  flagged and returns 0.
- The placement loop draws until every mine is placed, with no bound on the
  number of draws, and nothing checks the configuration first. The model
  takes the random draws as a finite sequence. It reports `stalled` only
  when the sequence runs out with fewer mines placed and every far draw
  already holding a mine, where the Python loop would go on drawing. `PlacementFits` shows that on each preset the
  exclusion zone leaves enough cells for the mines, wherever the first
  click lands.

## Model

| member | source | states |
|---|---|---|
| Difficulty.SetDifficulty | minesweeper.py:40-50 | the three names give 8x8 with 10 mines, 16x16 with 40 and 16x30 with 99, each leaving room for the mines outside the exclusion zone; any other name keeps the previous configuration |
| Difficulty.PlacementFits | minesweeper.py:212-223 | on a playable configuration at least as many cells are eligible for a mine as there are mines to place, whatever the first click |
| Grid.AllowedSize | minesweeper.py:219-223 | at most 13 cells of the board lie within distance 2 of the clicked cell |
| Grid.NeighbourIsNear | minesweeper.py:219-223 | the clicked cell and its 8 neighbours are never far enough away to receive a mine |
| Grid.GridSize | minesweeper.py:118-124 | the rows x cols loops of create_cells cover exactly rows * cols positions |
| Grid.WinCondition | minesweeper.py:186 | when no mine is revealed, the revealed count equals rows * cols - mines exactly when every mine-free cell is revealed |
| Minesweeper.Game.NewGame | minesweeper.py:58-90 | a new game has the preset's size and mine count, a cell at every position, every cell hidden, mine-free and with clue 0, both counters 0 and gameover false |
| Minesweeper.Game.CreateCells | minesweeper.py:115-124 | filling the empty dictionary row by row yields a hidden, mine-free, clue-0 cell at exactly the positions of the board |
| Minesweeper.Game.CreateRow | minesweeper.py:119-124 | one pass of the inner loop adds the fresh cells of one row and keeps every earlier cell |
| Board.AddFresh | minesweeper.py:254-271 | a new Cell is hidden, without a mine and with clue 0 |
| Minesweeper.Game.RightClick | minesweeper.py:190-207 | no change when the game is over, no cell was hit or the cell is revealed; otherwise hidden becomes flagged with flagCount + 1, or flagged becomes hidden with flagCount - 1; the flag counter keeps matching the flagged cells |
| Board.ToggleCounts | minesweeper.py:202-207 | toggling a flag moves exactly that cell into or out of the flagged cells and leaves the revealed cells alone |
| Minesweeper.Game.PlaceMines | minesweeper.py:209-225 | the same cells, no mine removed, every new mine more than distance 2 from the click and among the draws, and exactly numMines new mines unless the draws ran out; the draws run out only after every far draw has a mine |
| Board.AddMine | minesweeper.py:223-225 | placing a mine on a mine-free cell adds exactly one mine |
| Board.FirstClickClear | minesweeper.py:209-225 | placement on a mine-free board leaves the clicked cell and its neighbours mine-free, so the clicked cell's clue is 0 |
| Minesweeper.Game.UpdateClues | minesweeper.py:227-245 | every clue grows by the number of mined cells among its in-board neighbours, whatever order the cells are visited in |
| Minesweeper.Game.AddNeighbourMines | minesweeper.py:234-245 | the neighbour loops for one cell add the block's mine count to that cell's clue and change no other clue |
| Minesweeper.Game.AddRowMines | minesweeper.py:235-245 | one row of the neighbour block adds its mined cells, the cell itself excluded |
| Board.RowMines | minesweeper.py:235-245 | the running count of one row of the block stays within the number of positions scanned |
| Board.BlockMines | minesweeper.py:234-245 | the running count of the block stays within 3 per scanned row |
| Board.BlockIsNeighbours | minesweeper.py:234-245 | scanning the 3 x 3 block row by row and skipping the centre counts each of the 8 neighbours once |
| Board.MinedNeighbours | minesweeper.py:234-245 | the mined-neighbour count of a cell is at most 8 |
| Board.CluesFromZero | minesweeper.py:227-245 | starting from clue 0, every clue equals its cell's mined-neighbour count and lies in [0, 8] |
| Board.ZeroClueSafe | minesweeper.py:355-362 | a correct clue of 0 means no neighbour holds a mine |
| Minesweeper.Game.LeftClick | minesweeper.py:163-188 | no change when the game is over or no cell was hit; otherwise what ClickCell does; the first successful click of a fresh game hits a cell with no mine and clue 0; a click off a mine keeps the game under way, and the game is then over exactly when every mine-free cell is revealed |
| Minesweeper.Game.ClickCell | minesweeper.py:174-187 | mines and clues are set up only when the revealed count is 0, with a stall only when the draws run out as PlaceMines states; then the clicked cell is revealed, the counter grows by the number of newly revealed cells, and gameover is set exactly on a mine or on the win count |
| Minesweeper.Game.Arm | minesweeper.py:174-176 | placement as PlaceMines states, including when it may stall, then every clue grows by its mined-neighbour count unless the draws ran out |
| Minesweeper.Game.Open | minesweeper.py:179-187 | the flood fill from the clicked cell (only that cell when its clue is not 0), the counter increase by what it revealed, and gameover set exactly when the cell holds a mine or the counter reaches rows * cols - numMines |
| Minesweeper.Game.PlayGoesOn | minesweeper.py:163-188 | after a successful click on a fresh board, or a click off a mine during play, the clues match the mines, there are numMines mines, no mine is revealed, and gameover holds exactly when the board is cleared |
| Minesweeper.Game.FlaggedFirstClick | minesweeper.py:174-183 | a first click on a flagged cell places the mines but reveals nothing, so the revealed counter stays 0, and a mine under the flag still ends the game |
| Board.ClickOffMine | minesweeper.py:179-187 | revealing from a mine-free cell reveals no mine, and the win count is reached exactly when all mine-free cells are revealed |
| Minesweeper.Game.RevealAllCells | minesweeper.py:247-250 | afterwards every flagged cell is still flagged and every other cell is revealed, and the revealed counter matches the revealed cells |
| Minesweeper.Game.RevealCounted | minesweeper.py:249-250 | one pass of the loop: the cell is no longer hidden, only reveals happened, and the counter grows by the number of newly revealed cells |
| Minesweeper.Game.Reveal | minesweeper.py:343-364 | a revealed or flagged cell gives 0 and no change; otherwise the cell becomes revealed, and when its clue is not 0 it is the only change and the result is 1; only hidden cells change, each to revealed; the result is the number of newly revealed cells; every newly revealed cell with clue 0 has no hidden neighbour; when the clues are correct, no mine other than the start cell is revealed |
| Minesweeper.Game.RevealNeighbours | minesweeper.py:355-362 | the neighbour loops at a zero-clue cell leave none of its neighbours hidden, return the number of cells they revealed and keep the closure |
| Minesweeper.Game.RevealRow | minesweeper.py:358-362 | one row of the neighbour block: its cells are no longer hidden, the count is the number of newly revealed cells, and the closure holds |
| Board.RevealOne | minesweeper.py:350-351 | revealing one hidden cell changes exactly that cell |
| Board.EvolvesCounts | minesweeper.py:350-364 | a sequence of reveals adds the newly revealed cells to the revealed ones, removes them from the hidden ones and leaves the flagged ones alone |
| Board.ComposeReveals | minesweeper.py:358-362 | two reveals in a row: their newly revealed cells add up and the flood-fill closure of each survives |
| Board.ComposeSafe | minesweeper.py:358-362 | two reveals in a row that each reveal no mine together reveal no mine |

## Left out

- Drawing, the window, fonts and colours are not modelled. This covers `draw_cells`, `draw_top_panel`, `Cell.draw` and `setup_window`. They only present the state.
- The pygame_menu menus are not modelled. This includes the game-over menu that `left_click` opens on a win. They are a UI framework.
- The timer event and the `time` counter are not modelled. They depend on the wall clock and do not touch the board.
- The main event loop is not modelled. It is I/O plumbing.
- `Game.__init__` is not modelled. It sets the beginner preset and opens the menus; `NewGame` takes the configuration in force as a parameter instead.
- `get_clicked_cell`'s hit test on screen coordinates is left out. The clicks take an optional `(row, col)` of a cell of the dictionary instead.
- The pixel geometry of a `Cell` (`left`, `top`, `width`, `height`) is left out. The model keeps no `row`/`col` fields either, because the dictionary key gives the position.
- `random.randint` becomes the sequence `draws` of candidate positions, each a cell of the board.
- Minesweeper.Game.PlaceMines: when `draws` runs out first, it returns `stalled` instead of looping forever as the source may.
- Minesweeper.Game.LeftClick: after a stalled placement, the click stops without revealing anything. A stall happens only when `draws` runs out with fewer than `numMines` mines placed and every far draw holding a mine.
- `math.sqrt(d) > 2` becomes `d > 4` on the integer squared distance. The two tests agree on every integer `d`.
- Python's recursion depth limit on `Cell.reveal` is not modelled. The flood fill here recurses without bound.
- Dictionary insertion order in `update_clues` and `reveal_all_cells` is not modelled. The contracts hold for every visiting order.
- Minesweeper.Game.Reveal: does not state that a fill from a zero-clue cell is minimal, that is, that every newly revealed cell is connected to the start through revealed zero-clue cells. Stating it needs a reachability relation over the board and an invariant tying each nested reveal to it, which the model does not define. The reveal of a cell whose clue is not 0 is pinned exactly: it reveals only that cell and returns 1.
- `new_game` reuses the Python object. The model builds a new `Game` instead, because every logical field is reset.
- The order of `new_game`'s assignments is not modelled. The source sets the counters after creating the cells; no assignment reads another, so the order does not matter.
