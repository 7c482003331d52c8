/** The n-tuple feature table of the TD-learning slider: eight tuples of four
    cell indices on a 4x4 board, numbered row by row from 0 to 15. */
module Features {

  const FeatureSize: nat := 4
  const FeatureNum: nat := 8

  /** The four rows, then the four columns. */
  const Feature: seq<seq<int>> := [
    [0, 1, 2, 3],
    [4, 5, 6, 7],
    [8, 9, 10, 11],
    [12, 13, 14, 15],
    [0, 4, 8, 12],
    [1, 5, 9, 13],
    [2, 6, 10, 14],
    [3, 7, 11, 15]
  ]

  /** Row of a cell index (`i / 4`; indices are never negative, so C++
      truncation and Dafny's division agree). */
  function Row(i: int): (r: int)
    requires i >= 0
    ensures 0 <= r && (i < 16 ==> r < 4)
  {
    i / 4
  }

  /** Column of a cell index (`i % 4`). */
  function Column(i: int): (c: int)
    requires i >= 0
    ensures 0 <= c < 4
  {
    i % 4
  }

  /** The cell at a row and a column. */
  function Cell(row: int, column: int): int {
    4 * row + column
  }

  /** The table has `FeatureNum` tuples of `FeatureSize` cells, every cell
      index is on the board, and its row and column are in 0..3. */
  lemma FeatureShape()
    ensures |Feature| == FeatureNum
    ensures forall t :: 0 <= t < FeatureNum ==> |Feature[t]| == FeatureSize
    ensures forall t, j :: 0 <= t < FeatureNum && 0 <= j < FeatureSize ==>
      0 <= Feature[t][j] < 16 && 0 <= Row(Feature[t][j]) < 4 && 0 <= Column(Feature[t][j]) < 4
  {
  }

  /** Row and column name a board cell uniquely. */
  lemma RowColumnRoundTrip(i: int, row: int, column: int)
    requires 0 <= i < 16
    requires 0 <= row < 4 && 0 <= column < 4
    ensures Cell(Row(i), Column(i)) == i
    ensures 0 <= Cell(row, column) < 16
    ensures Row(Cell(row, column)) == row && Column(Cell(row, column)) == column
  {
  }

  /** Tuples 0..3 walk the rows left to right; tuples 4..7 walk the columns
      top to bottom. */
  lemma RowsThenColumns(t: int, j: int)
    requires 0 <= t < FeatureNum && 0 <= j < FeatureSize
    ensures t < 4 ==> Feature[t][j] == Cell(t, j)
    ensures t >= 4 ==> Feature[t][j] == Cell(j, t - 4)
  {
  }

  /** The (row, column) pairs `FindTileIndex` reads for tuple `t`. */
  function Coordinates(t: int): (rc: seq<(int, int)>)
    requires 0 <= t < FeatureNum
    ensures |rc| == FeatureSize
    ensures forall j :: 0 <= j < FeatureSize ==> 0 <= rc[j].0 < 4 && 0 <= rc[j].1 < 4
    ensures forall j :: 0 <= j < FeatureSize ==> rc[j] == if t < 4 then (t, j) else (j, t - 4)
  {
    seq(FeatureSize, j requires 0 <= j < FeatureSize => (Row(Feature[t][j]), Column(Feature[t][j])))
  }

  /** Every cell belongs to exactly two tuples: the one of its row and the
      one of its column. */
  lemma CellInTwoTuples(c: int, t: int)
    requires 0 <= c < 16 && 0 <= t < FeatureNum
    ensures c in Feature[t] <==> t == Row(c) || t == 4 + Column(c)
  {
    var row, column := Row(c), Column(c);
    RowColumnRoundTrip(c, 0, 0);
    assert 0 <= row < 4 && 0 <= column < 4;
    if t < 4 {
      forall j | 0 <= j < FeatureSize ensures Feature[t][j] == c ==> t == row {
        RowsThenColumns(t, j);
        RowColumnRoundTrip(c, t, j);
      }
      if t == row {
        RowsThenColumns(t, column);
        assert Feature[t][column] == c;
      }
    } else {
      forall j | 0 <= j < FeatureSize ensures Feature[t][j] == c ==> t == 4 + column {
        RowsThenColumns(t, j);
        RowColumnRoundTrip(c, j, t - 4);
      }
      if t == 4 + column {
        RowsThenColumns(t, row);
        assert Feature[t][row] == c;
      }
    }
  }
}
