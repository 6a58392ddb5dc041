/** The three difficulty presets of a game. */
module Difficulty {
  import opened Grid

  /** Board size and number of mines. */
  datatype Config = Config(rows: nat, cols: nat, mines: nat)

  predicate Known(name: string)
  {
    name == "beginner" || name == "intermediate" || name == "expert"
  }

  /** A board on which mine placement can always finish: it is not empty and,
      whatever cell is clicked first, at least `mines` cells lie outside the
      13-cell exclusion zone around it. */
  predicate Playable(cfg: Config)
  {
    cfg.rows >= 1 && cfg.cols >= 1 && cfg.mines + 13 <= cfg.rows * cfg.cols
  }

  /** The configuration after choosing a difficulty by name; an unknown name
      leaves the current configuration in place. */
  function SetDifficulty(name: string, current: Config): (r: Config)
    ensures Known(name) ==> Playable(r) && r.mines < r.rows * r.cols
    ensures !Known(name) ==> r == current
  {
    if name == "beginner" then Config(8, 8, 10)
    else if name == "intermediate" then Config(16, 16, 40)
    else if name == "expert" then Config(16, 30, 99)
    else current
  }

  /** On a playable board there are always at least as many cells where a mine
      may go as there are mines to place, wherever the first click lands. */
  lemma PlacementFits(cfg: Config, click: Pos)
    requires Playable(cfg)
    ensures |Allowed(cfg.rows, cfg.cols, click)| >= cfg.mines
  {
    AllowedSize(cfg.rows, cfg.cols, click);
  }
}
