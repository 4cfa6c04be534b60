/** Small images decoded by hand: one square, and one run of two walls,
    each a prolog, one packed byte of cell codes and an epilog. */
module Scenarios {
  import opened Common
  import opened BitStream
  import opened Symbols
  import opened Grid
  import Maps
  import Encoding

  /** A five-byte image: the prolog `sizeX, sizeY`, the one byte `b` of cell
      codes, and the epilog placing the player at column 0 of row 0. */
  predicate OneByteImage(exe: seq<Byte>, sizeX: Byte, sizeY: Byte, b: Byte)
  {
    |exe| == 5 && exe[0] == sizeX && exe[1] == sizeY && exe[2] == b && exe[3] == 0 && exe[4] == 0
  }

  /** The bits after the prolog are those of the packed byte, most
      significant first. */
  lemma OneByteBits(exe: seq<Byte>, sizeX: Byte, sizeY: Byte, b: Byte, k: nat)
    requires OneByteImage(exe, sizeX, sizeY, b) && k < 8
    ensures |Stream(exe)| == 40
    ensures Stream(exe)[16 + k] == BitOf(b, 7 - k)
  {
    StreamAt(exe, 16 + k);
  }

  /** Counter `0` and cell code `00`: one empty square, read from three bits. */
  lemma EmptySquareCells(s: seq<Bit>)
    requires |s| == 40 && s[16] == 0 && s[17] == 0 && s[18] == 0
    ensures var r := DecodeCells(s, FreshState(16), 1);
            r.Ok? && |r.value.0| == 1 && r.value.0[0] == ' ' && r.value.1 == DecoderState(19, 0, ' ')
  {
    var st0 := FreshState(16);
    assert ReadCounter(s, 16) == Ok((0, 17));
    assert ReadCell(s, 17) == Ok((Empty, 19));
    DecodeCellsStep(s, st0, 0, [], st0);
    assert [] + [' '] == [' '];
  }

  /** A one-by-one maze holding an empty square, player on it: the grid's
      first row reads `"@"` followed by its zero terminator. */
  lemma EmptySquare(exe: seq<Byte>)
    requires OneByteImage(exe, 1, 1, 0)
    ensures var r := Maps.DecodeMap(exe, 0);
            r.Ok? && r.value.sizeX == 1 && r.value.sizeY == 1 && r.value.end == 5
            && r.value.grid[0] == '@' && r.value.grid[1] == 0 as char
  {
    var s := Stream(exe);
    OneByteBits(exe, 1, 1, 0, 0);
    OneByteBits(exe, 1, 1, 0, 1);
    OneByteBits(exe, 1, 1, 0, 2);
    EmptySquareCells(s);
    var d := DecodeCells(s, FreshState(16), 1);
    assert CellCount(1, 1) == 1;
    Encoding.LayoutOfParts(exe, s, 0, 1, 1, d.value.0, d.value.1, 0, 0, 5);
    EmptySquarePlaced(Maps.Layout(1, 1, d.value.0, 0, 0, d.value.1.pos, 5));
  }

  /** The player goes on the one empty square, and the terminator after it
      stays zero. */
  lemma EmptySquarePlaced(l: Maps.Layout)
    requires l.sizeX == 1 && l.sizeY == 1 && |l.cells| == 1 && l.cells[0] == ' '
    requires l.manX == 0 && l.manY == 0 && l.end == 5
    ensures Maps.WellFormed(l)
    ensures var r := Maps.Place(l);
            r.Ok? && r.value.sizeX == 1 && r.value.sizeY == 1 && r.value.end == 5
            && r.value.grid[0] == '@' && r.value.grid[1] == 0 as char
  {
    assert CellCount(l.sizeX, l.sizeY) == 1 && IsGlyph(l.cells[0]);
    assert Maps.WellFormed(l);
    FillAt(l.sizeX, l.sizeY, l.cells, 0);
    TerminatorKept(l.sizeX, l.sizeY, l.cells, 0);
    assert Maps.ManIndex(l) == 0 == SlotIndex(l.sizeX, 0) && Index(l.sizeX, l.sizeX, 0) == 1;
  }

  /** Counter `0` and cell code `01`: one wall, read from three bits. */
  lemma WallSquareCells(s: seq<Bit>)
    requires |s| == 40 && s[16] == 0 && s[17] == 0 && s[18] == 1
    ensures var r := DecodeCells(s, FreshState(16), 1);
            r.Ok? && |r.value.0| == 1 && r.value.0[0] == 'X' && r.value.1 == DecoderState(19, 0, 'X')
  {
    var st0 := FreshState(16);
    assert ReadCounter(s, 16) == Ok((0, 17));
    assert ReadCell(s, 17) == Ok((Wall, 19));
    DecodeCellsStep(s, st0, 0, [], st0);
    assert [] + ['X'] == ['X'];
  }

  /** A one-by-one maze holding a wall cannot take the player: decoding fails
      at the placement check, at entry 0, which holds the wall. */
  lemma WallSquareRejected(exe: seq<Byte>)
    requires OneByteImage(exe, 1, 1, 0x20)
    ensures Maps.DecodeMap(exe, 0) == Err(InvalidPlayerPlacement(0, 'X'))
  {
    var s := Stream(exe);
    OneByteBits(exe, 1, 1, 0x20, 0);
    OneByteBits(exe, 1, 1, 0x20, 1);
    OneByteBits(exe, 1, 1, 0x20, 2);
    WallSquareCells(s);
    var d := DecodeCells(s, FreshState(16), 1);
    assert CellCount(1, 1) == 1;
    Encoding.LayoutOfParts(exe, s, 0, 1, 1, d.value.0, d.value.1, 0, 0, 5);
    WallSquareUnplaced(Maps.Layout(1, 1, d.value.0, 0, 0, d.value.1.pos, 5));
  }

  /** The placement check finds the wall at the player's entry. */
  lemma WallSquareUnplaced(l: Maps.Layout)
    requires l.sizeX == 1 && l.sizeY == 1 && |l.cells| == 1 && l.cells[0] == 'X' && l.manX == 0 && l.manY == 0
    ensures Maps.WellFormed(l)
    ensures Maps.Place(l) == Err(InvalidPlayerPlacement(0, 'X'))
  {
    assert CellCount(l.sizeX, l.sizeY) == 1 && IsGlyph(l.cells[0]);
    assert Maps.WellFormed(l);
    FillAt(l.sizeX, l.sizeY, l.cells, 0);
    assert Maps.ManIndex(l) == 0 == SlotIndex(l.sizeX, 0);
  }

  /** Counter `1 0 0 0` and cell code `01`: a run of two walls, read from
      six bits, with nothing left pending. */
  lemma TwoWallsCells(s: seq<Bit>)
    requires |s| == 40 && s[16] == 1 && s[17] == 0 && s[18] == 0 && s[19] == 0 && s[20] == 0 && s[21] == 1
    ensures DecodeCells(s, FreshState(16), 2) == Ok((['X', 'X'], DecoderState(22, 0, 'X')))
  {
    assert ReadCounter(s, 16) == Ok((1, 20));
    assert ReadCell(s, 20) == Ok((Wall, 22));
    var st0, st1 := FreshState(16), DecoderState(22, 1, 'X');
    assert Next(s, st0) == Ok(('X', st1));
    assert Next(s, st1) == Ok(('X', DecoderState(22, 0, 'X')));
    DecodeCellsStep(s, st0, 0, [], st0);
    assert [] + ['X'] == ['X'];
    DecodeCellsStep(s, st0, 1, ['X'], st1);
    assert ['X'] + ['X'] == ['X', 'X'];
  }

  /** A two-by-one maze coded as one run of two walls reads as two walls; the
      epilog is the byte after the packed one. */
  lemma TwoWalls(exe: seq<Byte>)
    requires OneByteImage(exe, 2, 1, 0x84)
    ensures Maps.DecodeLayout(exe, Stream(exe), 0) == Ok(Maps.Layout(2, 1, ['X', 'X'], 0, 0, 22, 5))
  {
    var s := Stream(exe);
    OneByteBits(exe, 2, 1, 0x84, 0);
    OneByteBits(exe, 2, 1, 0x84, 1);
    OneByteBits(exe, 2, 1, 0x84, 2);
    OneByteBits(exe, 2, 1, 0x84, 3);
    OneByteBits(exe, 2, 1, 0x84, 4);
    OneByteBits(exe, 2, 1, 0x84, 5);
    TwoWallsCells(s);
    assert CellCount(2, 1) == 2;
    Encoding.LayoutOfParts(exe, s, 0, 2, 1, ['X', 'X'], DecoderState(22, 0, 'X'), 0, 0, 5);
  }

  /** An image that stops right after the prolog of a one-by-one maze: the
      first counter bit is missing, so decoding fails at byte 2. */
  lemma TruncatedImage(exe: seq<Byte>)
    requires |exe| == 2 && exe[0] == 1 && exe[1] == 1
    ensures Maps.DecodeMap(exe, 0) == Err(BufferExhausted(2))
  {
    var s := Stream(exe);
    var st0 := FreshState(16);
    assert |s| == 16 && CellCount(1, 1) == 1;
    assert ReadCounter(s, 16) == Err(BufferExhausted(2));
    DecodeCellsStep(s, st0, 0, [], st0);
    assert DecodeCells(s, st0, 1) == Err(BufferExhausted(2));
  }

  /** The coordinates are compared only with 40 and 25: a three-by-two maze
      of empty squares accepts a player at column 5 of row 0, outside the
      maze. The reported coordinates stay `(5, 0)`, and the marker lands on
      entry 5, which is column 1 of row 1. */
  lemma PlayerOutsideMaze(l: Maps.Layout)
    requires l.sizeX == 3 && l.sizeY == 2 && |l.cells| == 6 && l.manX == 5 && l.manY == 0
    requires forall i :: 0 <= i < 6 ==> l.cells[i] == ' '
    ensures Maps.WellFormed(l)
    ensures Maps.Place(l).Ok? && Maps.Place(l).value.manX == 5 && Maps.Place(l).value.manX >= l.sizeX
    ensures Maps.ManIndex(l) == Index(l.sizeX, 1, 1)
  {
    assert CellCount(l.sizeX, l.sizeY) == 6;
    assert Maps.WellFormed(l);
    SlotOfRowColumn(l.sizeX, 1, 1);
    assert CellCount(l.sizeX, 1) + 1 == 4;
    FillAt(l.sizeX, l.sizeY, l.cells, 4);
  }

  /** Every bit of a zero byte is zero. */
  lemma BitsOfZero(k: nat)
    ensures BitOf(0, k) == 0
  {
  }

  /** A three-by-one maze whose only byte of codes is zero: two empty squares
      decode from bits 16 to 21, and the third runs out of bits at its cell
      code, so decoding fails at byte 3. */
  lemma CutOffCells(exe: seq<Byte>)
    requires |exe| == 3 && exe[0] == 3 && exe[1] == 1 && exe[2] == 0
    ensures Maps.DecodeMap(exe, 0) == Err(BufferExhausted(3))
  {
    var s := Stream(exe);
    assert |s| == 24;
    forall k | 16 <= k < 24
      ensures s[k] == 0
    {
      StreamAt(exe, k);
      BitsOfZero(7 - k % 8);
    }
    var st0 := FreshState(16);
    assert ReadCounter(s, 16) == Ok((0, 17)) && ReadCell(s, 17) == Ok((Empty, 19));
    DecodeCellsStep(s, st0, 0, [], st0);
    assert [] + [' '] == [' '];
    var st1 := DecoderState(19, 0, ' ');
    assert DecodeCells(s, st0, 1) == Ok(([' '], st1));
    assert ReadCounter(s, 19) == Ok((0, 20)) && ReadCell(s, 20) == Ok((Empty, 22));
    DecodeCellsStep(s, st0, 1, [' '], st1);
    var st2 := DecoderState(22, 0, ' ');
    assert DecodeCells(s, st0, 2) == Ok(([' '] + [' '], st2));
    assert ReadCounter(s, 22) == Ok((0, 23)) && ReadCell(s, 23) == Err(BufferExhausted(3));
    DecodeCellsStep(s, st0, 2, [' '] + [' '], st2);
    assert CellCount(3, 1) == 3;
    assert DecodeCells(s, st0, 3) == Err(BufferExhausted(3));
  }
}
