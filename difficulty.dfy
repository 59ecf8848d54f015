/** The three difficulty tiers and how many cells each leaves filled. */
module Difficulties {

  datatype Difficulty = Easy | Medium | Hard {

    /** The number of cells a new game of this tier keeps filled; at most the 81 cells of
        a board, so `81 - CellsToFill()` is a valid number of cells to empty. */
    function CellsToFill(): (n: nat)
      ensures n <= 81
    {
      match this
      case Easy => 45
      case Medium => 30
      case Hard => 17
    }
  }

  /** The tier constants, and harder tiers keep fewer cells. */
  lemma TierConstants()
    ensures Easy.CellsToFill() == 45 && Medium.CellsToFill() == 30 && Hard.CellsToFill() == 17
    ensures Hard.CellsToFill() < Medium.CellsToFill() < Easy.CellsToFill()
  {
  }
}
