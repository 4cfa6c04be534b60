/** One maze as the decoder reads it: the offset table lookup, the two-byte
    prolog, the bit-packed cells, the two-byte epilog and the placement of
    the player, as functions of the image. */
module Maps {
  import opened Common
  import opened BitStream
  import opened Symbols
  import opened Grid
  import Arith

  /** The little-endian 16-bit word made of bytes `lo` and `hi`. */
  function Extract16(lo: Byte, hi: Byte): (w: nat)
    ensures w < 65536
    ensures w % 256 == lo && w / 256 == hi
  {
    lo + 256 * hi
  }

  /** Where the offset table entry of maze `maze` lies in the image. */
  function TableEntry(maze: nat): (t: nat)
    ensures maze < NR_MAZES ==> t + 1 < EXE_SIZE
  {
    DS_OFFSET + OFFSET_TABLE + 2 * maze
  }

  /** The image offset of the prolog of maze `maze`: its table entry,
      relative to the packed data in the data segment. */
  function StartOffset(exe: seq<Byte>, maze: nat): (o: nat)
    requires |exe| == EXE_SIZE && maze < NR_MAZES
    ensures TableEntry(maze) + 1 < |exe|
    ensures DS_OFFSET + PACKED_DATA <= o < DS_OFFSET + PACKED_DATA + 65536
    ensures (o - DS_OFFSET - PACKED_DATA) % 256 == exe[TableEntry(maze)]
    ensures (o - DS_OFFSET - PACKED_DATA) / 256 == exe[TableEntry(maze) + 1]
  {
    var t := TableEntry(maze);
    Extract16(exe[t], exe[t + 1]) + DS_OFFSET + PACKED_DATA
  }

  /** A maze read up to, but not including, the placement of the player:
      its size, its cells in row-major order, the player's coordinates, the
      bit position where the cells ended and the byte after the epilog. */
  datatype Layout = Layout(sizeX: nat, sizeY: nat, cells: seq<char>, manX: nat, manY: nat,
                           streamEnd: nat, end: nat)

  /** What reading a maze guarantees about it. */
  predicate WellFormed(l: Layout)
  {
    l.sizeX < MAX_X && l.sizeY < MAX_Y && l.manX < MAX_X && l.manY < MAX_Y
    && |l.cells| == CellCount(l.sizeX, l.sizeY)
    && (forall i :: 0 <= i < |l.cells| ==> IsGlyph(l.cells[i]))
  }

  /** Reads the prolog at byte `start`: the width, below 40, and the
      height, below 25. */
  function DecodeSize(exe: seq<Byte>, start: nat): (r: Result<(nat, nat)>)
    ensures r.Ok? <==> start + 1 < |exe| && exe[start] < MAX_X && exe[start + 1] < MAX_Y
    ensures r.Ok? ==> r.value == (exe[start] as nat, exe[start + 1] as nat)
    ensures start < |exe| && exe[start] >= MAX_X ==> r == Err(InvalidDimensions(exe[start]))
    ensures start + 1 < |exe| && exe[start] < MAX_X && exe[start + 1] >= MAX_Y
            ==> r == Err(InvalidDimensions(exe[start + 1]))
    ensures start >= |exe| ==> r == Err(BufferExhausted(start))
    ensures start < |exe| && exe[start] < MAX_X && start + 1 >= |exe| ==> r == Err(BufferExhausted(start + 1))
    ensures r.Err? ==> r.error.BufferExhausted? || r.error.InvalidDimensions?
  {
    if start >= |exe| then Err(BufferExhausted(start))
    else if exe[start] >= MAX_X then Err(InvalidDimensions(exe[start]))
    else if start + 1 >= |exe| then Err(BufferExhausted(start + 1))
    else if exe[start + 1] >= MAX_Y then Err(InvalidDimensions(exe[start + 1]))
    else Ok((exe[start] as nat, exe[start + 1] as nat))
  }

  /** Reads the epilog at byte `e`: the player's column, below 40, and row,
      below 25. */
  function DecodePlayer(exe: seq<Byte>, e: nat): (r: Result<(nat, nat)>)
    ensures r.Ok? <==> e + 1 < |exe| && exe[e] < MAX_X && exe[e + 1] < MAX_Y
    ensures r.Ok? ==> r.value == (exe[e] as nat, exe[e + 1] as nat)
    ensures e < |exe| && exe[e] >= MAX_X ==> r == Err(InvalidPlayerPosition(exe[e]))
    ensures e + 1 < |exe| && exe[e] < MAX_X && exe[e + 1] >= MAX_Y
            ==> r == Err(InvalidPlayerPosition(exe[e + 1]))
    ensures e >= |exe| ==> r == Err(BufferExhausted(e))
    ensures e < |exe| && exe[e] < MAX_X && e + 1 >= |exe| ==> r == Err(BufferExhausted(e + 1))
    ensures r.Err? ==> r.error.BufferExhausted? || r.error.InvalidPlayerPosition?
  {
    if e >= |exe| then Err(BufferExhausted(e))
    else if exe[e] >= MAX_X then Err(InvalidPlayerPosition(exe[e]))
    else if e + 1 >= |exe| then Err(BufferExhausted(e + 1))
    else if exe[e + 1] >= MAX_Y then Err(InvalidPlayerPosition(exe[e + 1]))
    else Ok((exe[e] as nat, exe[e + 1] as nat))
  }

  /** Reads the maze whose prolog is at byte `start`, with `s` the image's
      bit stream: the prolog, the `sizeX * sizeY` cells from the bit after
      it, and the epilog at the first byte boundary after the cells. */
  function DecodeLayout(exe: seq<Byte>, s: seq<Bit>, start: nat): (r: Result<Layout>)
    ensures r.Ok? ==> WellFormed(r.value)
    ensures r.Ok? ==> start + 1 < |exe| && r.value.sizeX == exe[start] && r.value.sizeY == exe[start + 1]
    ensures r.Ok? ==> 8 * (start + 2) <= r.value.streamEnd <= 8 * (r.value.end - 2) < r.value.streamEnd + 8
    ensures r.Ok? ==> r.value.end <= |exe|
                      && r.value.manX == exe[r.value.end - 2] && r.value.manY == exe[r.value.end - 1]
    ensures DecodeSize(exe, start).Err? ==> r == Err(DecodeSize(exe, start).error)
    ensures DecodeSize(exe, start).Ok?
            && DecodeCells(s, FreshState(8 * (start + 2)), CellCount(exe[start], exe[start + 1])).Err?
            ==> r == Err(DecodeCells(s, FreshState(8 * (start + 2)), CellCount(exe[start], exe[start + 1])).error)
    ensures DecodeSize(exe, start).Ok?
            && DecodeCells(s, FreshState(8 * (start + 2)), CellCount(exe[start], exe[start + 1])).Ok?
            ==> var e := (DecodeCells(s, FreshState(8 * (start + 2)), CellCount(exe[start], exe[start + 1])).value.1.pos + 7) / 8;
                DecodePlayer(exe, e).Err? ==> r == Err(DecodePlayer(exe, e).error)
    ensures r.Err? ==> r.error.BufferExhausted? || r.error.InvalidDimensions? || r.error.InvalidPlayerPosition?
  {
    var size :- DecodeSize(exe, start);
    var d := DecodeCells(s, FreshState(8 * (start + 2)), CellCount(exe[start], exe[start + 1]));
    if d.Err? then Err(d.error)
    else
      DecodeCellsGlyphs(s, FreshState(8 * (start + 2)), CellCount(exe[start], exe[start + 1]));
      var e := (d.value.1.pos + 7) / 8;
      var man :- DecodePlayer(exe, e);
      Ok(Layout(exe[start], exe[start + 1], d.value.0, man.0, man.1, d.value.1.pos, e + 2))
  }

  /** A decoded maze: its size, the player's coordinates, the grid array
      with the player marker placed, and the byte after its epilog. */
  datatype Maze = Maze(sizeX: nat, sizeY: nat, manX: nat, manY: nat, grid: seq<char>, end: nat)

  /** The grid entry the player's coordinates select. */
  function ManIndex(l: Layout): (i: nat)
  {
    Index(l.sizeX, l.manX, l.manY)
  }

  /** Places the player: allowed only on an empty square, and then that entry,
      and no other, becomes `'@'`. */
  function Place(l: Layout): (r: Result<Maze>)
    requires WellFormed(l)
    ensures ManIndex(l) < GRID_SIZE
    ensures var before := Fill(l.sizeX, l.sizeY, l.cells);
            r.Ok? <==> before[ManIndex(l)] == ' '
    ensures var before := Fill(l.sizeX, l.sizeY, l.cells);
            r.Err? ==> r.error == InvalidPlayerPlacement(ManIndex(l), before[ManIndex(l)])
    ensures r.Ok? ==> r.value.sizeX == l.sizeX && r.value.sizeY == l.sizeY
                      && r.value.manX == l.manX && r.value.manY == l.manY && r.value.end == l.end
    ensures var before := Fill(l.sizeX, l.sizeY, l.cells);
            r.Ok? ==> |r.value.grid| == GRID_SIZE && r.value.grid[ManIndex(l)] == '@'
                      && forall i :: 0 <= i < GRID_SIZE && i != ManIndex(l) ==> r.value.grid[i] == before[i]
  {
    IndexInGrid(l.sizeX, l.manX, l.manY);
    var before := Fill(l.sizeX, l.sizeY, l.cells);
    var at := ManIndex(l);
    if before[at] != ' ' then Err(InvalidPlayerPlacement(at, before[at]))
    else Ok(Maze(l.sizeX, l.sizeY, l.manX, l.manY, before[at := '@'], l.end))
  }

  /** Decodes the maze whose prolog is at byte `start`. */
  function DecodeMap(exe: seq<Byte>, start: nat): (r: Result<Maze>)
  {
    var l :- DecodeLayout(exe, Stream(exe), start);
    Place(l)
  }

  /** Decodes maze number `maze` of the image. */
  function DecodeMaze(exe: seq<Byte>, maze: nat): (r: Result<Maze>)
    requires |exe| == EXE_SIZE && maze < NR_MAZES
  {
    DecodeMap(exe, StartOffset(exe, maze))
  }

  /** A run of results taken in order: the values, up to the first error,
      which ends the run with that error. */
  function Collect<T>(rs: seq<Result<T>>): (r: Result<seq<T>>)
    ensures r.Ok? ==> |r.value| == |rs| && forall i :: 0 <= i < |rs| ==> rs[i] == Ok(r.value[i])
    ensures r.Err? ==> exists i :: 0 <= i < |rs| && rs[i] == Err(r.error)
                                   && forall j :: 0 <= j < i ==> rs[j].Ok?
  {
    if rs == [] then Ok([])
    else
      var before :- Collect(rs[..|rs| - 1]);
      var last :- rs[|rs| - 1];
      Ok(before + [last])
  }

  /** One more result extends a successful run by its value, or ends it
      with its error; a failed run stays failed. */
  lemma CollectSnoc<T>(rs: seq<Result<T>>, x: Result<T>)
    ensures Collect(rs + [x]) == if Collect(rs).Err? then Collect(rs)
                                 else if x.Err? then Err(x.error)
                                 else Ok(Collect(rs).value + [x.value])
  {
    assert (rs + [x])[..|rs|] == rs;
  }

  /** The results after the first error do not matter. */
  lemma {:induction false} CollectErrPersists<T>(rs: seq<Result<T>>, more: seq<Result<T>>)
    requires Collect(rs).Err?
    ensures Collect(rs + more) == Collect(rs)
  {
    if more != [] {
      var init := more[..|more| - 1];
      assert rs + more == (rs + init) + [more[|more| - 1]];
      CollectErrPersists(rs, init);
      CollectSnoc(rs + init, more[|more| - 1]);
    } else {
      assert rs + more == rs;
    }
  }

  /** Mazes `0 .. n-1`, each decoded on its own, in table order. */
  function MazeResults(exe: seq<Byte>, n: nat): (rs: seq<Result<Maze>>)
    requires |exe| == EXE_SIZE && n <= NR_MAZES
    ensures |rs| == n
  {
    if n == 0 then [] else MazeResults(exe, n - 1) + [DecodeMaze(exe, n - 1)]
  }

  /** Entry `i` of the run is maze `i`'s own result. */
  lemma {:induction false} MazeResultsAt(exe: seq<Byte>, n: nat, i: nat)
    requires |exe| == EXE_SIZE && i < n <= NR_MAZES
    ensures MazeResults(exe, n)[i] == DecodeMaze(exe, i)
  {
    if i < n - 1 {
      MazeResultsAt(exe, n - 1, i);
    }
  }

  /** All the mazes, decoded in order; the run stops at the first maze that
      fails, with that maze's error. */
  function DecodeMazes(exe: seq<Byte>): (r: Result<seq<Maze>>)
    requires |exe| == EXE_SIZE
  {
    Collect(MazeResults(exe, NR_MAZES))
  }

  /** The run succeeds with every maze's own decoding, or fails with the
      error of the first maze that fails. */
  lemma DecodeMazesMeaning(exe: seq<Byte>)
    requires |exe| == EXE_SIZE
    ensures var r := DecodeMazes(exe);
            r.Ok? ==> |r.value| == NR_MAZES && forall i :: 0 <= i < NR_MAZES ==> DecodeMaze(exe, i) == Ok(r.value[i])
    ensures var r := DecodeMazes(exe);
            r.Err? ==> exists i :: 0 <= i < NR_MAZES && DecodeMaze(exe, i) == Err(r.error)
                                   && forall j :: 0 <= j < i ==> DecodeMaze(exe, j).Ok?
  {
    forall i | 0 <= i < NR_MAZES
      ensures MazeResults(exe, NR_MAZES)[i] == DecodeMaze(exe, i)
    {
      MazeResultsAt(exe, NR_MAZES, i);
    }
  }

  /** A decoded maze respects the bounds the decoder checks, and its grid
      fits the array. */
  lemma DecodedBounds(exe: seq<Byte>, start: nat)
    requires DecodeMap(exe, start).Ok?
    ensures var m := DecodeMap(exe, start).value;
            m.sizeX < MAX_X && m.sizeY < MAX_Y && m.manX < MAX_X && m.manY < MAX_Y
            && m.sizeX == exe[start] && m.sizeY == exe[start + 1]
            && |m.grid| == GRID_SIZE && m.end <= |exe|
  {
  }

  /** Column `x` of row `y` holds the `(y * sizeX + x)`-th decoded cell, or
      the player marker if the player stands there. */
  lemma PlacedGrid(l: Layout, x: nat, y: nat)
    requires WellFormed(l) && Place(l).Ok? && x < l.sizeX && y < l.sizeY
    ensures 0 <= y * l.sizeX + x < |l.cells| && Index(l.sizeX, x, y) < GRID_SIZE
    ensures Place(l).value.grid[Index(l.sizeX, x, y)] ==
              if Index(l.sizeX, x, y) == ManIndex(l) then '@' else l.cells[y * l.sizeX + x]
  {
    RowMajor(l.sizeX, l.sizeY, l.cells, x, y);
  }

  /** The terminator entry after every row stays zero. */
  lemma PlacedTerminator(l: Layout, y: nat)
    requires WellFormed(l) && Place(l).Ok? && Index(l.sizeX, l.sizeX, y) < GRID_SIZE
    ensures Place(l).value.grid[Index(l.sizeX, l.sizeX, y)] == 0 as char
  {
    TerminatorKept(l.sizeX, l.sizeY, l.cells, y);
  }

  /** The grid holds exactly one player marker, at the player's coordinates,
      and otherwise only decoded cells and zeros. */
  lemma PlacedOnePlayer(l: Layout, i: nat)
    requires WellFormed(l) && Place(l).Ok? && i < GRID_SIZE
    ensures var g := Place(l).value.grid;
            (g[i] == '@' <==> i == ManIndex(l)) && (g[i] == '@' || g[i] == 0 as char || IsGlyph(g[i]))
  {
    FillEntry(l.sizeX, l.sizeY, l.cells, i);
  }

  /** The decoder compares the player's coordinates only with 40 and 25,
      never with the maze's size, so they may lie outside the maze. The
      marker it places still always lands on an entry holding a decoded
      empty square: the zeros around the cells are not empty. */
  lemma PlayerOnDecodedCell(l: Layout)
    requires WellFormed(l) && Place(l).Ok?
    ensures exists x: nat, y: nat :: x < l.sizeX && y < l.sizeY && 0 <= y * l.sizeX + x < |l.cells|
              && Index(l.sizeX, x, y) == ManIndex(l) && l.cells[y * l.sizeX + x] == ' '
  {
    var at := ManIndex(l);
    FillEntry(l.sizeX, l.sizeY, l.cells, at);
    var j :| 0 <= j < |l.cells| && SlotIndex(l.sizeX, j) == at && Fill(l.sizeX, l.sizeY, l.cells)[at] == l.cells[j];
    SlotIsIndex(l.sizeX, j);
    var x: nat, y: nat := j % l.sizeX, j / l.sizeX;
    if y >= l.sizeY {
      CellCountMono(l.sizeX, l.sizeY, y);
      assert false;
    }
    CellCountIsProduct(l.sizeX, y);
    assert j == y * l.sizeX + x;
  }

  /** A maze of width or height 0 has no cells, so every entry keeps the
      zero of `memset` and the placement check always fails on it. */
  lemma EmptyMazeRejected(l: Layout)
    requires WellFormed(l) && (l.sizeX == 0 || l.sizeY == 0)
    ensures Place(l) == Err(InvalidPlayerPlacement(ManIndex(l), 0 as char))
  {
    IndexInGrid(l.sizeX, l.manX, l.manY);
    FillElsewhere(l.sizeX, l.sizeY, l.cells, ManIndex(l));
  }
}
