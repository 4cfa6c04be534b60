/** The decoder as the program runs it: the reader's and the symbol
    decoder's globals as the fields of one object, `getbit` and `getbyte` as
    methods that update them, and the per-maze body of the main loop as a
    method that fills the grid array in place. Each method is proved to
    compute what the functions of `BitStream`, `Symbols` and `Maps`
    describe. */
module PusherMaps {
  import opened Common
  import opened BitStream
  import opened Symbols
  import opened Grid
  import Maps
  import Arith

  class Decoder {
    /** The loaded image. */
    const exe: seq<Byte>
    /** The image as the bit reader sees it, `Stream(exe)`. */
    ghost const bits: seq<Bit>
    /** The byte cursor: the next byte `GetBit` loads, or the next prolog or
        epilog byte. */
    var offset: int
    /** The next bit of `currentByte` to deliver; negative when it is used up. */
    var bitCounter: int
    /** The byte the bit reader is taking apart. */
    var currentByte: int
    /** The character the last fresh token decoded to. */
    var currentChar: char
    /** How many more copies of `currentChar` are pending. */
    var repeatCounter: int
    /** The position in `bits` of the next bit `GetBit` delivers. */
    ghost var pos: nat
    /** The number of `GetByte` calls made so far. */
    ghost var calls: nat

    /** The reader's state between calls: `bitCounter` is at most 6 because
        a freshly loaded byte has already delivered its top bit, and while
        bits remain `currentByte` is the byte before the cursor. */
    ghost predicate Valid()
      reads this`offset, this`bitCounter, this`currentByte, this`pos
    {
      0 <= offset <= |exe| && -1 <= bitCounter <= 6 && pos == 8 * offset - 1 - bitCounter
      && (bitCounter >= 0 ==> 1 <= offset && currentByte == exe[offset - 1])
      && Unpacked()
    }

    /** `bits` holds every byte of the image, most significant bit first.
        It speaks only of constants, so it holds in every state once it
        holds in one. */
    ghost predicate Unpacked()
    {
      |bits| == 8 * |exe|
      && forall o {:trigger ByteBits(bits, o)} :: 0 <= o < |exe| ==> ByteBits(bits, o) == MsbFirst(exe[o], 8)
    }

    /** `bits` is the bit stream of the image. */
    ghost predicate Loaded()
    {
      bits == Stream(exe) && Unpacked()
    }

    /** The abstract state of the symbol decoder. */
    ghost function State(): DecoderState
      reads this`pos, this`repeatCounter, this`currentChar
      requires 0 <= repeatCounter
    {
      DecoderState(pos, repeatCounter, currentChar)
    }

    /** The program's initial globals. The program starts `current_char` at
        -1; its value is never observed, because no copies are pending. */
    constructor (image: seq<Byte>)
      ensures Valid() && Loaded() && exe == image
      ensures offset == 0 && bitCounter == -1 && repeatCounter == 0 && calls == 0
    {
      exe := image;
      bits := Stream(image);
      forall o | 0 <= o < |image|
        ensures ByteBits(Stream(image), o) == MsbFirst(image[o], 8)
      {
        StreamBytes(image, o);
      }
      offset := 0;
      bitCounter := -1;
      currentByte := 0;
      currentChar := '?';
      repeatCounter := 0;
      pos := 0;
      calls := 0;
    }

    /** `getbit`: the next bit of the stream, loading a new byte when the
        current one is used up. */
    method GetBit() returns (r: Result<Bit>)
      requires Valid()
      modifies this`offset, this`bitCounter, this`currentByte, this`pos
      ensures Valid()
      ensures r == ReadBit(bits, old(pos))
      ensures pos == old(pos) + (if r.Ok? then 1 else 0)
    {
      if bitCounter < 0 {
        if offset >= |exe| {
          return Err(BufferExhausted(offset));
        }
        bitCounter := 7;
        currentByte := exe[offset];
        offset := offset + 1;
      }
      assert ByteBits(bits, offset - 1)[7 - bitCounter] == bits[pos];
      MsbFirstDigit(exe[offset - 1], 8, 7 - bitCounter);
      r := Ok(BitOf(currentByte, bitCounter));
      bitCounter := bitCounter - 1;
      pos := pos + 1;
    }

    /** Once `n` bits have been read since the reader was reset at byte `o`,
        the cursor stands `n / 8`, rounded up, bytes past `o`: the bytes
        loaded so far. */
    lemma CursorAdvance(o: nat, n: nat)
      requires Valid() && pos == 8 * o + n
      ensures offset == o + (n + 7) / 8
    {
      Arith.DivModUnique(n + 7, 8, offset - o, 6 - bitCounter);
    }

    /** The counter prefix of a fresh token in `getbyte`: a 0 bit leaves no
        copies pending, a 1 bit is followed by the run length. */
    method GetCounter() returns (r: Result<nat>)
      requires Valid() && repeatCounter == 0
      modifies this`offset, this`bitCounter, this`currentByte, this`pos, this`repeatCounter
      ensures Valid() && 0 <= repeatCounter
      ensures var counter := ReadCounter(bits, old(pos));
              (counter.Ok? ==> r == Ok(counter.value.0) && repeatCounter == counter.value.0
                               && pos == counter.value.1)
              && (counter.Err? ==> r == Err(counter.error))
    {
      var lead :- GetBit();
      if lead == 1 {
        r := GetRunLength();
      } else {
        r := Ok(repeatCounter);
      }
    }

    /** The three bits `d3 d2 d1` after a leading 1 bit: a run of
        `2 + 4*d3 + 2*d2 + d1` copies, of which all but the one returned now
        are left pending. */
    method GetRunLength() returns (r: Result<nat>)
      requires Valid() && repeatCounter == 0 && 1 <= pos <= |bits| && bits[pos - 1] == 1
      modifies this`offset, this`bitCounter, this`currentByte, this`pos, this`repeatCounter
      ensures Valid() && 0 <= repeatCounter
      ensures var counter := ReadCounter(bits, old(pos) - 1);
              (counter.Ok? ==> r == Ok(counter.value.0) && repeatCounter == counter.value.0
                               && pos == counter.value.1)
              && (counter.Err? ==> r == Err(counter.error))
    {
      var d3 :- GetBit();
      var d2 :- GetBit();
      var d1 :- GetBit();
      repeatCounter := 2 + (d3 as int) * 4 + (d2 as int) * 2 + d1 - 1;
      return Ok(repeatCounter);
    }

    /** The cell code of a fresh token in `getbyte`, matched down the prefix
        tree 00 `' '`, 01 `'X'`, 10 `'*'`, 110 `'.'`, 111 `'&'` and cached in
        `currentChar`, which holds `'?'` until a leaf is reached. The two
        subtrees below the first bit are methods of their own. */
    method GetCell() returns (r: Result<char>)
      requires Valid()
      modifies this`offset, this`bitCounter, this`currentByte, this`pos, this`currentChar
      ensures Valid()
      ensures var cell := ReadCell(bits, old(pos));
              (cell.Ok? ==> r == Ok(Glyph(cell.value.0)) && currentChar == Glyph(cell.value.0)
                            && pos == cell.value.1)
              && (cell.Err? ==> r == Err(cell.error))
    {
      currentChar := '?';
      var b1 :- GetBit();
      if b1 == 1 {
        r := GetCellAfterOne();
      } else {
        r := GetCellAfterZero();
      }
    }

    /** The subtree of the cell code under a leading 1 bit: 10 `'*'`,
        110 `'.'`, 111 `'&'`. */
    method GetCellAfterOne() returns (r: Result<char>)
      requires Valid() && 1 <= pos <= |bits| && bits[pos - 1] == 1
      modifies this`offset, this`bitCounter, this`currentByte, this`pos, this`currentChar
      ensures Valid()
      ensures var cell := ReadCell(bits, old(pos) - 1);
              (cell.Ok? ==> r == Ok(Glyph(cell.value.0)) && currentChar == Glyph(cell.value.0)
                            && pos == cell.value.1)
              && (cell.Err? ==> r == Err(cell.error))
    {
      var b2 :- GetBit();
      if b2 == 1 {
        var b3 :- GetBit();
        if b3 == 1 {
          currentChar := '&';
        } else {
          currentChar := '.';
        }
      } else {
        currentChar := '*';
      }
      return Ok(currentChar);
    }

    /** The subtree of the cell code under a leading 0 bit: 00 `' '`,
        01 `'X'`. */
    method GetCellAfterZero() returns (r: Result<char>)
      requires Valid() && 1 <= pos <= |bits| && bits[pos - 1] == 0
      modifies this`offset, this`bitCounter, this`currentByte, this`pos, this`currentChar
      ensures Valid()
      ensures var cell := ReadCell(bits, old(pos) - 1);
              (cell.Ok? ==> r == Ok(Glyph(cell.value.0)) && currentChar == Glyph(cell.value.0)
                            && pos == cell.value.1)
              && (cell.Err? ==> r == Err(cell.error))
    {
      var b2 :- GetBit();
      if b2 == 1 {
        currentChar := 'X';
      } else {
        currentChar := ' ';
      }
      return Ok(currentChar);
    }

    /** `getbyte`: the next cell character, a pending copy of the cached one
        or a freshly decoded counter and cell code. */
    method GetByte() returns (r: Result<char>)
      requires Valid() && 0 <= repeatCounter
      modifies this`offset, this`bitCounter, this`currentByte, this`pos, this`currentChar
      modifies this`repeatCounter, this`calls
      ensures Valid() && 0 <= repeatCounter && calls == old(calls) + 1
      ensures var next := Next(bits, old(State()));
              (next.Ok? ==> r == Ok(next.value.0) && State() == next.value.1)
              && (next.Err? ==> r == Err(next.error))
    {
      calls := calls + 1;
      if repeatCounter > 0 {
        repeatCounter := repeatCounter - 1;
        return Ok(currentChar);
      }
      var pending :- GetCounter();
      r := GetCell();
    }

    /** One step of the fill loop: the next `GetByte` stores its character
        at column `x` of row `y`. `done0` is what the steps before it
        decoded, starting from state `st0`. */
    method FillCell(grid: array<char>, sizeX: nat, sizeY: nat, x: nat, y: nat,
                    ghost st0: DecoderState, ghost done0: seq<char>)
      returns (r: Result<()>, ghost done: seq<char>)
      requires Valid() && 0 <= repeatCounter && grid.Length == GRID_SIZE
      requires sizeX < MAX_X && sizeY < MAX_Y && x < sizeX && y < sizeY
      requires |done0| == CellCount(sizeX, y) + x < CellCount(sizeX, sizeY)
      requires DecodeCells(bits, st0, |done0|) == Ok((done0, State()))
      requires grid[..] == Fill(sizeX, sizeY, done0)
      modifies this`offset, this`bitCounter, this`currentByte, this`pos, this`currentChar,
               this`repeatCounter, this`calls, grid
      ensures Valid() && 0 <= repeatCounter
      ensures r.Ok? ==> |done| == |done0| + 1 <= CellCount(sizeX, sizeY)
                        && DecodeCells(bits, st0, |done|) == Ok((done, State()))
                        && grid[..] == Fill(sizeX, sizeY, done) && calls == old(calls) + 1
      ensures r.Err? ==> DecodeCells(bits, st0, CellCount(sizeX, sizeY)) == Err(r.error)
    {
      DecodeCellsStep(bits, st0, |done0|, done0, State());
      var ch := GetByte();
      if ch.Err? {
        DecodeCellsErrPersists(bits, st0, |done0| + 1, CellCount(sizeX, sizeY));
        return Err(ch.error), done0;
      }
      FillSnoc(sizeX, sizeY, done0, ch.value);
      SlotOfRowColumn(sizeX, x, y);
      grid[Index(sizeX, x, y)] := ch.value;
      done := done0 + [ch.value];
      r := Ok(());
    }

    /** One row of the fill loop: the `sizeX` cells of row `y`. */
    method FillRow(grid: array<char>, sizeX: nat, sizeY: nat, y: nat,
                   ghost st0: DecoderState, ghost done0: seq<char>)
      returns (r: Result<()>, ghost done: seq<char>)
      requires Valid() && 0 <= repeatCounter && grid.Length == GRID_SIZE
      requires sizeX < MAX_X && sizeY < MAX_Y && y < sizeY
      requires |done0| == CellCount(sizeX, y) && CellCount(sizeX, y + 1) <= CellCount(sizeX, sizeY)
      requires DecodeCells(bits, st0, |done0|) == Ok((done0, State()))
      requires grid[..] == Fill(sizeX, sizeY, done0)
      modifies this`offset, this`bitCounter, this`currentByte, this`pos, this`currentChar,
               this`repeatCounter, this`calls, grid
      ensures Valid() && 0 <= repeatCounter
      ensures r.Ok? ==> |done| == CellCount(sizeX, y + 1) <= CellCount(sizeX, sizeY)
                        && DecodeCells(bits, st0, |done|) == Ok((done, State()))
                        && grid[..] == Fill(sizeX, sizeY, done) && calls == old(calls) + sizeX
      ensures r.Err? ==> DecodeCells(bits, st0, CellCount(sizeX, sizeY)) == Err(r.error)
    {
      done := done0;
      var x := 0;
      while x < sizeX
        invariant 0 <= x <= sizeX
        invariant Valid() && 0 <= repeatCounter && |done| == CellCount(sizeX, y) + x
        invariant DecodeCells(bits, st0, |done|) == Ok((done, State()))
        invariant grid[..] == Fill(sizeX, sizeY, done)
        invariant calls == old(calls) + x
      {
        CellNumberInRange(sizeX, sizeY, x, y);
        var cell;
        cell, done := FillCell(grid, sizeX, sizeY, x, y, st0, done);
        if cell.Err? {
          return Err(cell.error), done;
        }
        x := x + 1;
      }
      r := Ok(());
    }

    /** The fill loop of one maze: the bit reader and the repeat counter
        reset, then `CellCount(sizeX, sizeY)` calls of `GetByte`, row by row,
        from the first bit of the byte at the cursor. Afterwards the cursor
        is at the byte after the last one the cells took bits from. */
    method FillGrid(grid: array<char>, sizeX: nat, sizeY: nat) returns (r: Result<()>)
      requires Unpacked() && 0 <= offset <= |exe| && grid.Length == GRID_SIZE && grid[..] == Blank()
      requires sizeX < MAX_X && sizeY < MAX_Y
      modifies this`offset, this`bitCounter, this`currentByte, this`pos, this`currentChar,
               this`repeatCounter, this`calls, grid
      ensures var d := DecodeCells(bits, FreshState(8 * old(offset)), CellCount(sizeX, sizeY));
              (r.Ok? <==> d.Ok?) && (r.Err? ==> r.error == d.error)
              && (r.Ok? ==> grid[..] == Fill(sizeX, sizeY, d.value.0) && offset == (d.value.1.pos + 7) / 8
                            && calls == old(calls) + CellCount(sizeX, sizeY))
    {
      bitCounter := -1;
      repeatCounter := 0;
      pos := 8 * offset;
      ghost var st0 := State();
      ghost var done: seq<char> := [];
      var y := 0;
      while y < sizeY
        invariant 0 <= y <= sizeY
        invariant Valid() && 0 <= repeatCounter && |done| == CellCount(sizeX, y) <= CellCount(sizeX, sizeY)
        invariant DecodeCells(bits, st0, |done|) == Ok((done, State()))
        invariant grid[..] == Fill(sizeX, sizeY, done)
        invariant calls == old(calls) + |done|
      {
        CellCountMono(sizeX, y + 1, sizeY);
        var row;
        row, done := FillRow(grid, sizeX, sizeY, y, st0, done);
        if row.Err? {
          DecodeCellsIgnoresStaleChar(bits, st0.pos, st0.ch, CellCount(sizeX, sizeY));
          return Err(row.error);
        }
        y := y + 1;
      }
      if CellCount(sizeX, sizeY) > 0 {
        DecodeCellsIgnoresStaleChar(bits, st0.pos, st0.ch, CellCount(sizeX, sizeY));
      }
      assert offset == (pos + 7) / 8;
      r := Ok(());
    }

    /** The prolog: the width and the height, each checked against its
        limit as soon as it is read. */
    method ReadSize(start: nat) returns (r: Result<(nat, nat)>)
      modifies this`offset
      ensures r == Maps.DecodeSize(exe, start)
      ensures r.Ok? ==> offset == start + 2
    {
      offset := start;
      if offset >= |exe| {
        return Err(BufferExhausted(offset));
      }
      var sizeX: nat := exe[offset];
      offset := offset + 1;
      if sizeX >= MAX_X {
        return Err(InvalidDimensions(sizeX));
      }
      if offset >= |exe| {
        return Err(BufferExhausted(offset));
      }
      var sizeY: nat := exe[offset];
      offset := offset + 1;
      if sizeY >= MAX_Y {
        return Err(InvalidDimensions(sizeY));
      }
      r := Ok((sizeX, sizeY));
    }

    /** The epilog at the byte cursor: the player's column and row, each
        checked against its limit as soon as it is read. */
    method ReadPlayer() returns (r: Result<(nat, nat)>)
      requires 0 <= offset
      modifies this`offset
      ensures r == Maps.DecodePlayer(exe, old(offset))
      ensures r.Ok? ==> offset == old(offset) + 2
    {
      if offset >= |exe| {
        return Err(BufferExhausted(offset));
      }
      var manX: nat := exe[offset];
      offset := offset + 1;
      if manX >= MAX_X {
        return Err(InvalidPlayerPosition(manX));
      }
      if offset >= |exe| {
        return Err(BufferExhausted(offset));
      }
      var manY: nat := exe[offset];
      offset := offset + 1;
      if manY >= MAX_Y {
        return Err(InvalidPlayerPosition(manY));
      }
      r := Ok((manX, manY));
    }

    /** The body of the main loop for the maze whose prolog is at byte
        `start`, up to the placement of the player: the prolog, the cells
        decoded row by row into the zeroed `grid` from a freshly reset
        decoder, and the epilog at the byte after the last cell. Returns
        the size and the player's coordinates. */
    method ReadLayout(start: nat, grid: array<char>) returns (r: Result<(nat, nat, nat, nat)>)
      requires Unpacked() && grid.Length == GRID_SIZE && grid[..] == Blank()
      modifies this`offset, this`bitCounter, this`currentByte, this`pos, this`currentChar,
               this`repeatCounter, this`calls, grid
      ensures var l := Maps.DecodeLayout(exe, bits, start);
              (r.Ok? <==> l.Ok?) && (r.Err? ==> r.error == l.error)
              && (r.Ok? ==> r.value == (l.value.sizeX, l.value.sizeY, l.value.manX, l.value.manY)
                            && grid[..] == Fill(l.value.sizeX, l.value.sizeY, l.value.cells)
                            && offset == l.value.end
                            && calls == old(calls) + CellCount(l.value.sizeX, l.value.sizeY))
    {
      var size := ReadSize(start);
      if size.Err? {
        return Err(size.error);
      }
      var (sizeX, sizeY) := size.value;
      var filled := FillGrid(grid, sizeX, sizeY);
      if filled.Err? {
        return Err(filled.error);
      }
      var man := ReadPlayer();
      if man.Err? {
        return Err(man.error);
      }
      r := Ok((sizeX, sizeY, man.value.0, man.value.1));
    }

    /** The body of the main loop for the maze whose prolog is at byte
        `start`: the maze read into a fresh zeroed grid, and the player placed
        on an empty square. */
    method DecodeMapAt(start: nat) returns (r: Result<Maps.Maze>, grid: array<char>)
      requires Loaded()
      modifies this
      ensures fresh(grid) && grid.Length == GRID_SIZE
      ensures r == Maps.DecodeMap(exe, start)
      ensures r.Ok? ==> grid[..] == r.value.grid && offset == r.value.end
      ensures r.Ok? ==> calls == old(calls) + CellCount(r.value.sizeX, r.value.sizeY)
    {
      grid := new char[GRID_SIZE](_ => 0 as char);
      assert grid[..] == Blank();
      var layout := ReadLayout(start, grid);
      if layout.Err? {
        return Err(layout.error), grid;
      }
      var (sizeX, sizeY, manX, manY) := layout.value;
      IndexInGrid(sizeX, manX, manY);
      var manOffset := Index(sizeX, manX, manY);
      if grid[manOffset] != ' ' {
        return Err(InvalidPlayerPlacement(manOffset, grid[manOffset])), grid;
      }
      grid[manOffset] := '@';
      r := Ok(Maps.Maze(sizeX, sizeY, manX, manY, grid[..], offset));
    }

    /** The start of one iteration of the main loop: the maze's offset
        table entry, a little-endian word relative to the packed data, gives
        the image offset of its prolog. */
    method DecodeMaze(maze: nat) returns (r: Result<Maps.Maze>, grid: array<char>)
      requires Loaded() && |exe| == EXE_SIZE && maze < NR_MAZES
      modifies this
      ensures fresh(grid) && grid.Length == GRID_SIZE
      ensures r == Maps.DecodeMaze(exe, maze)
      ensures r.Ok? ==> grid[..] == r.value.grid
    {
      var entry := DS_OFFSET + OFFSET_TABLE + maze * 2;
      assert entry == Maps.TableEntry(maze);
      var start := Maps.Extract16(exe[entry], exe[entry + 1]) + DS_OFFSET + PACKED_DATA;
      assert start == Maps.StartOffset(exe, maze);
      r, grid := DecodeMapAt(start);
    }

    /** One iteration of the main loop: the next maze decoded and appended
        to the run of the mazes before it, or the run ended by its error. */
    method AppendMaze(maze: nat, ghost all: seq<Result<Maps.Maze>>, mazes: seq<Maps.Maze>)
      returns (r: Result<seq<Maps.Maze>>)
      requires Loaded() && |exe| == EXE_SIZE && maze < NR_MAZES == |all|
      requires all[maze] == Maps.DecodeMaze(exe, maze) && Maps.Collect(all[..maze]) == Ok(mazes)
      modifies this
      ensures r == Maps.Collect(all[..maze + 1])
    {
      var m, _ := DecodeMaze(maze);
      assert all[..maze + 1] == all[..maze] + [m];
      Maps.CollectSnoc(all[..maze], m);
      if m.Err? {
        return Err(m.error);
      }
      r := Ok(mazes + [m.value]);
    }

    /** The main loop: the mazes one after another, stopping at the first
        whose decoding fails. */
    method DecodeAll() returns (r: Result<seq<Maps.Maze>>)
      requires Loaded() && |exe| == EXE_SIZE
      modifies this
      ensures r == Maps.DecodeMazes(exe)
    {
      ghost var all := Maps.MazeResults(exe, NR_MAZES);
      var mazes: seq<Maps.Maze> := [];
      var maze := 0;
      while maze < NR_MAZES
        invariant 0 <= maze <= NR_MAZES
        invariant Maps.Collect(all[..maze]) == Ok(mazes)
      {
        Maps.MazeResultsAt(exe, NR_MAZES, maze);
        var next := AppendMaze(maze, all, mazes);
        if next.Err? {
          assert all == all[..maze + 1] + all[maze + 1..];
          Maps.CollectErrPersists(all[..maze + 1], all[maze + 1..]);
          return Err(next.error);
        }
        mazes := next.value;
        maze := maze + 1;
      }
      assert all[..maze] == all;
      r := Ok(mazes);
    }
  }
}
