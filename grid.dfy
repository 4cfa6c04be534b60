/** The maze grid as the decoder lays it out: a 25 x 41 character array,
    zero-filled, with row `y` of a `size_x`-wide maze starting at index
    `y * (size_x + 1)`, so that each row keeps a zero terminator. */
module Grid {
  import Arith

  /** The size of the grid array, `25 * 41`. */
  const GRID_SIZE := 25 * 41

  /** The grid as it is before the fill: every entry zero. */
  function Blank(): (g: seq<char>)
  {
    seq(GRID_SIZE, _ => 0 as char)
  }

  /** The entry of column `x` in row `y` of a grid whose rows hold `sizeX` cells. */
  function Index(sizeX: nat, x: nat, y: nat): (i: nat)
  {
    y * (sizeX + 1) + x
  }

  /** An entry of a row, terminator included, is found again from its index:
      the row is the index divided by `sizeX + 1`, the column the remainder. */
  lemma IndexRowColumn(sizeX: nat, x: nat, y: nat)
    requires x <= sizeX
    ensures Index(sizeX, x, y) / (sizeX + 1) == y && Index(sizeX, x, y) % (sizeX + 1) == x
  {
    Arith.DivModUnique(Index(sizeX, x, y), sizeX + 1, y, x);
  }

  /** The number of cells in `rows` rows of `sizeX` cells each: the count
      of `getbyte` calls the fill loop makes for those rows. */
  function CellCount(sizeX: nat, rows: nat): (n: nat)
    ensures n > 0 <==> sizeX > 0 && rows > 0
  {
    if rows == 0 then 0 else CellCount(sizeX, rows - 1) + sizeX
  }

  /** The count is the product of the width and the number of rows. */
  lemma {:induction false} CellCountIsProduct(sizeX: nat, rows: nat)
    ensures CellCount(sizeX, rows) == rows * sizeX
  {
    if rows > 0 {
      CellCountIsProduct(sizeX, rows - 1);
    }
  }

  /** More rows hold at least as many cells. */
  lemma {:induction false} CellCountMono(sizeX: nat, rows: nat, rows': nat)
    requires rows <= rows'
    ensures CellCount(sizeX, rows) <= CellCount(sizeX, rows')
  {
    if rows < rows' {
      CellCountMono(sizeX, rows, rows' - 1);
    }
  }

  /** Any column below 40 of any row below 25 lies inside the array, for
      every width the prolog admits. */
  lemma IndexInGrid(sizeX: nat, x: nat, y: nat)
    requires sizeX < 40 && x < 40 && y < 25
    ensures Index(sizeX, x, y) < GRID_SIZE
  {
    Arith.MulMono(y, 24, sizeX + 1);
    Arith.MulMono(sizeX + 1, 40, 24);
  }

  /** Where the `j`-th decoded cell goes when cells arrive row by row:
      every full row of `sizeX` cells before it moves it one array row of
      `sizeX + 1` entries further on. */
  function SlotIndex(sizeX: nat, j: nat): (i: nat)
    requires sizeX > 0
  {
    if j < sizeX then j else SlotIndex(sizeX, j - sizeX) + sizeX + 1
  }

  /** The `x`-th cell of row `y` is decoded after the cells of the `y`
      rows before it. */
  lemma {:induction false} SlotOfRowColumn(sizeX: nat, x: nat, y: nat)
    requires x < sizeX
    ensures SlotIndex(sizeX, CellCount(sizeX, y) + x) == Index(sizeX, x, y)
  {
    if y > 0 {
      SlotOfRowColumn(sizeX, x, y - 1);
      assert y * (sizeX + 1) == (y - 1) * (sizeX + 1) + sizeX + 1;
    }
  }

  /** The slot of cell `j` is column `j % sizeX` of row `j / sizeX`. */
  lemma SlotIsIndex(sizeX: nat, j: nat)
    requires sizeX > 0
    ensures j == CellCount(sizeX, j / sizeX) + j % sizeX
    ensures SlotIndex(sizeX, j) == Index(sizeX, j % sizeX, j / sizeX)
  {
    var x, y := j % sizeX, j / sizeX;
    assert j == y * sizeX + x && x < sizeX;
    CellCountIsProduct(sizeX, y);
    var k := CellCount(sizeX, y) + x;
    assert k == j;
    SlotOfRowColumn(sizeX, x, y);
  }

  /** A slot's column, within its row of `sizeX + 1` entries, is the cell's
      column: never the terminator column `sizeX`. */
  lemma SlotColumn(sizeX: nat, j: nat)
    requires sizeX > 0
    ensures SlotIndex(sizeX, j) / (sizeX + 1) == j / sizeX
    ensures SlotIndex(sizeX, j) % (sizeX + 1) == j % sizeX < sizeX
    ensures 0 <= j / sizeX && j == (j / sizeX) * sizeX + j % sizeX
  {
    SlotIsIndex(sizeX, j);
    Arith.DivModUnique(SlotIndex(sizeX, j), sizeX + 1, j / sizeX, j % sizeX);
  }

  /** Distinct cells go to distinct entries. */
  lemma SlotInjective(sizeX: nat, j1: nat, j2: nat)
    requires sizeX > 0 && j1 != j2
    ensures SlotIndex(sizeX, j1) != SlotIndex(sizeX, j2)
  {
    SlotColumn(sizeX, j1);
    SlotColumn(sizeX, j2);
    assert j1 == (j1 / sizeX) * sizeX + j1 % sizeX;
    assert j2 == (j2 / sizeX) * sizeX + j2 % sizeX;
  }

  /** Every one of the `sizeX * sizeY` cells goes inside the array. */
  lemma SlotInGrid(sizeX: nat, sizeY: nat, j: nat)
    requires sizeX < 40 && sizeY < 25 && j < CellCount(sizeX, sizeY)
    ensures sizeX > 0 && SlotIndex(sizeX, j) < GRID_SIZE
  {
    CellCountIsProduct(sizeX, sizeY);
    SlotColumn(sizeX, j);
    SlotIsIndex(sizeX, j);
    var row := j / sizeX;
    if row >= sizeY {
      Arith.MulMono(sizeY, row, sizeX);
      assert false;
    }
    IndexInGrid(sizeX, j % sizeX, row);
  }

  /** The grid after the decoded `cells` have been stored, in order. */
  function Fill(sizeX: nat, sizeY: nat, cells: seq<char>): (g: seq<char>)
    requires sizeX < 40 && sizeY < 25 && |cells| <= CellCount(sizeX, sizeY)
    ensures |g| == GRID_SIZE
  {
    if cells == [] then Blank()
    else
      var k := |cells| - 1;
      SlotInGrid(sizeX, sizeY, k);
      Fill(sizeX, sizeY, cells[..k])[SlotIndex(sizeX, k) := cells[k]]
  }

  /** Storing one more cell updates its slot and nothing else. */
  lemma FillSnoc(sizeX: nat, sizeY: nat, cells: seq<char>, c: char)
    requires sizeX < 40 && sizeY < 25 && |cells| < CellCount(sizeX, sizeY)
    ensures sizeX > 0 && SlotIndex(sizeX, |cells|) < GRID_SIZE
    ensures Fill(sizeX, sizeY, cells + [c]) == Fill(sizeX, sizeY, cells)[SlotIndex(sizeX, |cells|) := c]
  {
    SlotInGrid(sizeX, sizeY, |cells|);
    assert (cells + [c])[..|cells|] == cells;
  }

  /** Each decoded cell is found at its slot, whatever came after it. */
  lemma {:induction false} FillAt(sizeX: nat, sizeY: nat, cells: seq<char>, j: nat)
    requires sizeX < 40 && sizeY < 25 && |cells| <= CellCount(sizeX, sizeY) && j < |cells|
    ensures sizeX > 0 && SlotIndex(sizeX, j) < GRID_SIZE
    ensures Fill(sizeX, sizeY, cells)[SlotIndex(sizeX, j)] == cells[j]
  {
    SlotInGrid(sizeX, sizeY, j);
    var k := |cells| - 1;
    var front := cells[..k];
    if j < k {
      SlotInjective(sizeX, j, k);
      FillAt(sizeX, sizeY, front, j);
      assert front[j] == cells[j];
    }
  }

  /** An entry that is no cell's slot keeps the zero of the blank grid. */
  lemma {:induction false} FillElsewhere(sizeX: nat, sizeY: nat, cells: seq<char>, i: nat)
    requires sizeX < 40 && sizeY < 25 && |cells| <= CellCount(sizeX, sizeY) && i < GRID_SIZE
    requires forall j :: 0 <= j < |cells| ==> SlotIndex(sizeX, j) != i
    ensures Fill(sizeX, sizeY, cells)[i] == 0 as char
  {
    if cells != [] {
      FillElsewhere(sizeX, sizeY, cells[..|cells| - 1], i);
    }
  }

  /** Every entry of a filled grid is zero or one of the decoded cells. */
  lemma FillEntry(sizeX: nat, sizeY: nat, cells: seq<char>, i: nat)
    requires sizeX < 40 && sizeY < 25 && |cells| <= CellCount(sizeX, sizeY) && i < GRID_SIZE
    ensures Fill(sizeX, sizeY, cells)[i] == 0 as char
         || exists j :: 0 <= j < |cells| && SlotIndex(sizeX, j) == i && Fill(sizeX, sizeY, cells)[i] == cells[j]
  {
    if j :| 0 <= j < |cells| && SlotIndex(sizeX, j) == i {
      FillAt(sizeX, sizeY, cells, j);
    } else {
      FillElsewhere(sizeX, sizeY, cells, i);
    }
  }

  /** Cell `x` of row `y` is one of the `sizeX * sizeY` cells. */
  lemma CellNumberInRange(sizeX: nat, sizeY: nat, x: nat, y: nat)
    requires x < sizeX && y < sizeY
    ensures CellCount(sizeX, y) + x < CellCount(sizeX, sizeY)
  {
    CellCountMono(sizeX, y + 1, sizeY);
  }

  /** A complete fill is row-major: column `x` of row `y` holds the
      `(y * sizeX + x)`-th cell decoded. */
  lemma RowMajor(sizeX: nat, sizeY: nat, cells: seq<char>, x: nat, y: nat)
    requires sizeX < 40 && sizeY < 25 && |cells| == CellCount(sizeX, sizeY) && x < sizeX && y < sizeY
    ensures 0 <= y * sizeX + x < |cells| && Index(sizeX, x, y) < GRID_SIZE
    ensures Fill(sizeX, sizeY, cells)[Index(sizeX, x, y)] == cells[y * sizeX + x]
  {
    CellNumberInRange(sizeX, sizeY, x, y);
    CellCountIsProduct(sizeX, y);
    IndexInGrid(sizeX, x, y);
    SlotOfRowColumn(sizeX, x, y);
    FillAt(sizeX, sizeY, cells, y * sizeX + x);
  }

  /** The terminator entry after each row keeps its zero. */
  lemma TerminatorKept(sizeX: nat, sizeY: nat, cells: seq<char>, y: nat)
    requires sizeX < 40 && sizeY < 25 && |cells| <= CellCount(sizeX, sizeY)
    requires Index(sizeX, sizeX, y) < GRID_SIZE
    ensures Fill(sizeX, sizeY, cells)[Index(sizeX, sizeX, y)] == 0 as char
  {
    var t := Index(sizeX, sizeX, y);
    forall j | 0 <= j < |cells|
      ensures SlotIndex(sizeX, j) != t
    {
      SlotColumn(sizeX, j);
      Arith.DivModUnique(t, sizeX + 1, y, sizeX);
    }
    FillElsewhere(sizeX, sizeY, cells, t);
  }
}
