/** The hard-coded activation pattern shared by the three snapshots: three bands of columns in
    row 0 and three single columns in row 1 are switched on; every other node is left alone. */
module Pattern {

  /** Whether the pattern switches on the node at row i, column j, following the nested
      column tests of the source. */
  function PatternOn(i: nat, j: nat): (on: bool)
    ensures on <==> (i == 0 && j in {0, 1, 2, 4, 5, 6, 8, 9, 10}) || (i == 1 && j in {0, 4, 8})
  {
    (i == 0 && (j < 3 || (j > 3 && j < 7) || (j > 7 && j < 11))) ||
    (i == 1 && (j < 1 || (j > 3 && j < 5) || (j > 7 && j < 9)))
  }
}
