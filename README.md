# Pusher map decoder, modelled in Dafny

`pushermaps.c` pulls the 60 mazes of the DOS game Pusher out of its
executable. The executable is a 10632-byte image. A table of little-endian
words, at `0x1390 + 0x1480`, gives each maze's offset, counted from the
packed data at `0x1390 + 0xFC`. Each maze is stored as:

- a prolog of two bytes, the width (below 40) and the height (below 25);
- a bit stream of run-length tokens, read most significant bit first;
- an epilog of two bytes, the player's column and row, each checked against
  40 and 25.

Each token is a counter and then a cell code.

- The counter is `0` for one cell, or `1 D3 D2 D1` for `2 + 4*D3 + 2*D2 + D1`
  cells.
- The cell code is `00` (empty), `01` (wall), `10` (barrel), `110` (goal)
  or `111` (barrel on goal). The decoder stores these as
  `' ' 'X' '*' '.' '&'`.

The decoder does the following for each maze:

1. It zeroes a 25 x 41 character grid. Row `y` starts at entry
   `y * (size_x + 1)`, so each row keeps a zero terminator.
2. It resets the bit reader and the repeat counter.
3. It makes `size_x * size_y` calls of `getbyte`, row by row.
4. It reads the epilog at the byte cursor, which is the byte after the
   last one the bit reader loaded.
5. It checks that the player's entry holds an empty square, and writes
   `'@'` there.

The model has two layers.

- **Functions.** `BitStream`, `Symbols`, `Grid` and `Maps` describe
  decoding as functions of the image: the bit stream, one `getbyte` step
  (`Symbols.Next`), `n` steps (`Symbols.DecodeCells`), the grid fill, one
  maze (`Maps.DecodeMap`) and all sixty (`Maps.DecodeMazes`).
- **The decoder object.** `PusherMaps.Decoder` is the program as it runs.
  Its fields are the C globals (`offset`, `bit_counter`, `current_byte`,
  `current_char`, `repeat_counter`). `getbit` and `getbyte` are methods
  that update those fields. The per-maze body of `main` is a method that
  fills a grid `array` in place with nested loops. Every method is proved
  to compute exactly what the functions describe.

Two more modules state what the decoder is proved against.

- `Encoding` is an independent encoder for the documented format. Its main
  lemma, `DecodeEncodedMap`, proves the decoder reads back any encoded maze,
  wherever it sits in an image and whatever the unused bits of its last
  code byte hold.
- `Scenarios` works through small images and decoded layouts by hand: a
  one-square maze, a rejected wall-only maze, a run of two walls, an image
  that ends right after its prolog, an image that runs out partway through
  its cell codes, and a layout whose player lies outside the maze's width.

Every `assert` of the per-maze body (pushermaps.c:170-194) becomes an
error value of the `Common.Error` datatype. The unchecked reads past the
end of the buffer become `BufferExhausted`.

Some facts about the code that the model keeps:

- The code accepts a width or height of 0. Such a maze has no cells, so
  every grid entry keeps its zero and the placement check always fails
  (`Maps.EmptyMazeRejected`).
- The code compares the player's coordinates only with 40 and 25, never
  with the maze's width and height. The reported coordinates can therefore
  lie outside the maze. `Scenarios.PlayerOutsideMaze` shows a 3 x 2 maze
  that accepts the player at column 5 of row 0; the marker then lands on
  entry 5, column 1 of row 1. `Maps.PlayerOnDecodedCell` proves that the
  marker always lands on an entry holding a decoded empty square.
- The main loop only ever asks for mazes 0 to 59, so the model states the
  maze number's bound as a precondition.
- A failing `assert` stops the whole run, so `Maps.DecodeMazes` stops at
  the first maze that fails.

## Model

| member | source | states |
|---|---|---|
| BitStream.Stream | pushermaps.c:82-89 | the image as the bit reader sees it, eight bits per byte |
| BitStream.StreamAt | pushermaps.c:82-89 | bit position `p` is bit `7 - p % 8` of byte `p / 8` |
| BitStream.StreamMsbFirst | pushermaps.c:82-89 | after a reset at byte `o`, the `k`-th bit read is bit `7 - k % 8` of byte `o + k / 8` |
| BitStream.StreamBytes | pushermaps.c:85-88 | byte `o` occupies stream bits `8o .. 8o+7`, highest bit first |
| BitStream.StreamByte | pushermaps.c:85-88 | the eight bits of byte `o`, put back together, give the byte |
| BitStream.FromBitsDigit | pushermaps.c:88 | digit `i` of a number built from bits is bit `i` |
| BitStream.MsbFirstDigit | pushermaps.c:88 | the listed bits are the ones the `1 << bit_counter` mask extracts, highest first |
| BitStream.FromMsbFirst | pushermaps.c:88 | listing `k` bits and putting them back gives the byte modulo `2^k` |
| BitStream.ReadBit | pushermaps.c:82-89 | definition of one bit read; its meaning is proved by `BitStream.ReadBitOfImage` |
| BitStream.ReadBitOfImage | pushermaps.c:82-89 | bit `p` of an image is bit `7 - p % 8` of byte `p / 8`, or fails with `BufferExhausted` at byte `p / 8` once `p` passes the image |
| BitStream.BitOf | pushermaps.c:88 | definition of bit `k` of a byte; its meaning is proved by `BitStream.BitOfMask` |
| BitStream.BitOfMask | pushermaps.c:88 | bit `k` of `b` is `(b / 2^k) % 2`, the outcome of the mask test `b & (1 << k)` |
| Symbols.ReadCounter | pushermaps.c:102-103 | succeeds exactly when its bits are present; at most 8 copies pending; consumes 1 or 4 bits |
| Symbols.ReadCell | pushermaps.c:105-122 | consumes 2 or 3 bits and succeeds whenever 3 bits remain |
| Symbols.ReadCounterCode | pushermaps.c:102-103 | the bits the counter consumes are exactly the documented code of its run length |
| Symbols.ReadCounterOfCode | pushermaps.c:102-103 | the counter code of any run length from 1 to 9 reads back as that length minus one |
| Symbols.ReadCellCode | pushermaps.c:106-122 | the bits a cell read consumes are exactly that cell's documented code |
| Symbols.ReadCellOfCode | pushermaps.c:106-122 | each cell's code reads back as that cell, consuming exactly its length |
| Symbols.CellCodePrefixFree | pushermaps.c:29-34 | no cell code is a prefix of another |
| Symbols.CellCodeComplete | pushermaps.c:29-34 | every 3-bit window begins with exactly one cell code |
| Symbols.Glyph | pushermaps.c:105-122 | each cell is stored as one of the five glyphs |
| Symbols.GlyphInjective | pushermaps.c:109-120 | distinct cells are stored as distinct characters |
| Symbols.GlyphOf | pushermaps.c:105-122 | every glyph is the character of some cell |
| Symbols.CellBits | pushermaps.c:29-34 | definition of the five cell codes; its meaning is proved by `Symbols.ReadCellOfCode`, `Symbols.CellCodePrefixFree` and `Symbols.CellCodeComplete` |
| Symbols.CounterBits | pushermaps.c:24-27 | the counter code is 1 bit for a single cell and 4 bits otherwise; it is read back by `Symbols.ReadCounterOfCode` |
| Symbols.FreshState | pushermaps.c:176-177 | definition of the state after the reset: the reader at the bit after the prolog, nothing pending; `Symbols.DecodeCellsIgnoresStaleChar` proves its cached character is never observed |
| Symbols.Next | pushermaps.c:96-125 | a pending copy consumes no bits, returns the cached character and lowers the count by one; a fresh token returns one of the five glyphs (never `'?'`), consumes 3 to 7 bits and caches its character; failure only from running out of bits |
| Symbols.NextFreshToken | pushermaps.c:101-125 | a fresh call consumes exactly a counter code and then a cell code, and leaves `run - 1` copies pending |
| Symbols.DecodeCells | pushermaps.c:179-184 | `n` calls give `n` characters, never move the reader back, and keep the decoder state coherent |
| Symbols.DecodeCellsGlyphs | pushermaps.c:105-124 | every character decoded is one of the five glyphs |
| Symbols.DecodeCellsStep | pushermaps.c:179-184 | proof step: unfolds `DecodeCells` by one call |
| Symbols.DecodeCellsFirst | pushermaps.c:179-184 | `n + 1` calls are one call followed by `n` more |
| Symbols.DecodeCellsErrPersists | pushermaps.c:179-184 | once the bits run out, every longer run of calls fails with the same error |
| Symbols.DecodeCellsIgnoresStaleChar | pushermaps.c:176-177 | after the reset, the character cached from the previous maze never affects decoding |
| Grid.Blank | pushermaps.c:158 | definition of the zeroed 25 * 41 grid; its meaning is proved by `Grid.FillElsewhere` and `Grid.TerminatorKept` |
| Grid.Index | pushermaps.c:182 | definition of entry `y * (size_x + 1) + x`; its meaning is proved by `Grid.IndexRowColumn` and `Grid.IndexInGrid` |
| Grid.IndexRowColumn | pushermaps.c:182 | entry `Index(x, y)` with `x <= size_x` lies in array row `y` at column `x` |
| Grid.SlotIndex | pushermaps.c:179-182 | definition of the entry the `j`-th call writes; its meaning is proved by `Grid.SlotIsIndex`, `Grid.SlotColumn` and `Grid.SlotInjective` |
| Grid.CellCount | pushermaps.c:179-184 | the number of `getbyte` calls, positive exactly when both sizes are |
| Grid.CellCountIsProduct | pushermaps.c:179-184 | the fill makes exactly `size_x * size_y` calls |
| Grid.CellCountMono | pushermaps.c:179 | more rows mean at least as many calls |
| Grid.IndexInGrid | pushermaps.c:154 | every write index `y*(size_x+1)+x` under the checked bounds lies inside the array |
| Grid.SlotOfRowColumn | pushermaps.c:179-182 | cell `x` of row `y` is the call after the `y` full rows |
| Grid.SlotIsIndex | pushermaps.c:179-182 | call `j` writes column `j % size_x` of row `j / size_x` |
| Grid.SlotColumn | pushermaps.c:182 | no write ever hits a row's terminator column |
| Grid.SlotInjective | pushermaps.c:182 | distinct calls write distinct entries |
| Grid.SlotInGrid | pushermaps.c:179-184 | all `size_x * size_y` writes stay inside the array |
| Grid.Fill | pushermaps.c:179-184 | the grid after the decoded cells are stored; its size is unchanged |
| Grid.FillSnoc | pushermaps.c:182 | storing one more cell changes its entry and no other |
| Grid.FillAt | pushermaps.c:179-184 | every decoded cell is found at its entry, whatever came later |
| Grid.FillElsewhere | pushermaps.c:158 | an entry no call writes keeps the zero from `memset` |
| Grid.FillEntry | pushermaps.c:158-184 | every entry is zero or one of the decoded cells |
| Grid.CellNumberInRange | pushermaps.c:179-180 | cell `x` of row `y` is one of the `size_x * size_y` calls |
| Grid.RowMajor | pushermaps.c:179-184 | a full fill is row-major: column `x` of row `y` holds cell `y*size_x + x` |
| Grid.TerminatorKept | pushermaps.c:158 | the terminator after each row keeps its zero |
| Maps.Extract16 | pushermaps.c:128-130 | a word below 65536 whose low byte is the first byte and whose high byte is the second |
| Maps.TableEntry | pushermaps.c:163 | the offset table entry of every maze 0 to 59 lies inside the image |
| Maps.StartOffset | pushermaps.c:163-164 | the table entry lies in the image; the offset minus `0x1390 + 0xFC` has the entry's bytes as its low and high bytes |
| Maps.DecodeSize | pushermaps.c:170-173 | succeeds exactly when both bytes are there and below 40 and 25, with those sizes; otherwise names the failing value or the missing byte |
| Maps.DecodePlayer | pushermaps.c:186-189 | succeeds exactly when both bytes are there and below 40 and 25, with those coordinates; otherwise names the failing value or the missing byte |
| Maps.DecodeLayout | pushermaps.c:170-189 | a decoded maze has the prolog's sizes, that many glyphs, and the epilog at the first byte boundary after its bits; a prolog error, a cell error (running out of bits) or an epilog error is the result, and no other error arises |
| Maps.Place | pushermaps.c:193-195 | succeeds exactly when the player's entry is empty, otherwise fails naming the entry and what it holds; on success that entry becomes `'@'`, no other entry changes, and the sizes, coordinates and end are kept |
| Maps.ManIndex | pushermaps.c:193 | definition of the player's entry `man_y * (size_x + 1) + man_x`; its meaning is proved by `Maps.Place`, `Maps.PlacedOnePlayer` and `Maps.PlayerOnDecodedCell` |
| Maps.DecodeMap | pushermaps.c:158-195 | definition of one maze: the layout, then the placement; its meaning is proved by `Maps.DecodedBounds`, `Maps.PlacedGrid`, `Encoding.DecodeEncodedMap` and the `Scenarios` lemmas |
| Maps.DecodeMaze | pushermaps.c:163-195 | definition of maze number `maze`: the maze whose prolog the offset table names; its meaning is proved by `Maps.StartOffset` and `Maps.MazeResultsAt` |
| Maps.Collect | pushermaps.c:152 | a run of results succeeds with each value in order, or fails with the first error |
| Maps.CollectSnoc | pushermaps.c:152 | proof step: unfolds `Collect` by one result |
| Maps.CollectErrPersists | pushermaps.c:152 | mazes after a failed one do not matter |
| Maps.MazeResults | pushermaps.c:152 | definition of the run of mazes `0 .. n-1`; its meaning is proved by `Maps.MazeResultsAt` |
| Maps.DecodeMazes | pushermaps.c:152-202 | definition of the main loop's outcome; its meaning is proved by `Maps.DecodeMazesMeaning` |
| Maps.MazeResultsAt | pushermaps.c:152 | entry `i` of the run is maze `i` decoded on its own |
| Maps.DecodeMazesMeaning | pushermaps.c:152-195 | all 60 mazes decode, each as it would alone; or the run fails with the error of the first maze that fails, all before it decoding |
| Maps.DecodedBounds | pushermaps.c:170-189 | a decoded maze respects every bound the code checks and ends inside the image |
| Maps.PlacedGrid | pushermaps.c:179-195 | each cell of the final grid is its decoded cell, or `'@'` at the player |
| Maps.PlacedTerminator | pushermaps.c:158 | every row terminator of the final grid is zero |
| Maps.PlacedOnePlayer | pushermaps.c:193-195 | exactly one entry holds `'@'`; all others are zero or glyphs |
| Maps.PlayerOnDecodedCell | pushermaps.c:186-195 | the `'@'` marker always lands on an empty decoded cell of the maze |
| Maps.EmptyMazeRejected | pushermaps.c:179-194 | a maze of width or height 0 always fails the placement check, finding the zero of `memset` at the player's entry |
| PusherMaps.Decoder.constructor | pushermaps.c:76-94 | the globals' initial values, with nothing pending |
| PusherMaps.Decoder.GetBit | pushermaps.c:82-89 | returns the stream bit at the reader's position and advances one bit; fails when the next byte is beyond the image |
| PusherMaps.Decoder.CursorAdvance | pushermaps.c:83-86 | after `n` bits since a reset at byte `o`, the cursor is `o + ceil(n / 8)` |
| PusherMaps.Decoder.GetCounter | pushermaps.c:102-103 | agrees with `Symbols.ReadCounter` on result, pending count and bits consumed |
| PusherMaps.Decoder.GetRunLength | pushermaps.c:103 | reads `D3 D2 D1` in that order and agrees with `Symbols.ReadCounter` |
| PusherMaps.Decoder.GetCell | pushermaps.c:105-122 | agrees with `Symbols.ReadCell` and caches the glyph |
| PusherMaps.Decoder.GetCellAfterOne | pushermaps.c:106-115 | the subtree `10`, `110`, `111` as `Symbols.ReadCell` reads it |
| PusherMaps.Decoder.GetCellAfterZero | pushermaps.c:116-121 | the subtree `00`, `01` as `Symbols.ReadCell` reads it |
| PusherMaps.Decoder.GetByte | pushermaps.c:96-125 | result and new decoder state are those of `Symbols.Next` from the old state |
| PusherMaps.Decoder.FillCell | pushermaps.c:181-182 | one call stored at its entry: the grid is the fill of one more decoded cell |
| PusherMaps.Decoder.FillRow | pushermaps.c:180-183 | one row of `size_x` calls, extending the fill |
| PusherMaps.Decoder.FillGrid | pushermaps.c:176-184 | from the reset, the grid becomes the fill of `DecodeCells`, or the fill fails with its error; then the cursor is at the byte after the last bit |
| PusherMaps.Decoder.ReadSize | pushermaps.c:170-173 | equals `Maps.DecodeSize` and advances the cursor past the prolog |
| PusherMaps.Decoder.ReadPlayer | pushermaps.c:186-189 | equals `Maps.DecodePlayer` at the cursor and advances past the epilog |
| PusherMaps.Decoder.ReadLayout | pushermaps.c:170-189 | succeeds exactly when `Maps.DecodeLayout` does, with its sizes, coordinates, grid and end |
| PusherMaps.Decoder.DecodeMapAt | pushermaps.c:154-195 | result is `Maps.DecodeMap`; the array holds its grid; the calls number `size_x * size_y` |
| PusherMaps.Decoder.DecodeMaze | pushermaps.c:163-164 | looks the maze up in the offset table and equals `Maps.DecodeMaze` |
| PusherMaps.Decoder.AppendMaze | pushermaps.c:152 | one iteration of the main loop extends the run as `Maps.Collect` does |
| PusherMaps.Decoder.DecodeAll | pushermaps.c:152-202 | the main loop's result is `Maps.DecodeMazes` |
| Encoding.TokenBits | pushermaps.c:24-34 | a token's code, counter then cell, is 3 to 7 bits |
| Encoding.TokensBits | pushermaps.c:18-34 | definition of the bits of a list of tokens, one after another; its meaning is proved by `Encoding.TokensSplit` and `Encoding.DecodeTokens` |
| Encoding.Expand | pushermaps.c:23-27 | definition of the cells a list of tokens stands for; its meaning is proved by `Encoding.DecodeTokens` |
| Encoding.PendingCopies | pushermaps.c:97-100 | with `m` copies pending, the next `n <= m` calls deliver copies and read nothing |
| Encoding.DecodeCellsChain | pushermaps.c:179-184 | two stretches of successful calls make one |
| Encoding.NextOfToken | pushermaps.c:101-125 | a token's code read fresh gives its glyph and leaves `run - 1` pending |
| Encoding.DecodeToken | pushermaps.c:96-125 | a token's code decodes to `run` copies of its glyph and ends right after the code with nothing pending |
| Encoding.TokensSplit | pushermaps.c:24-34 | the codes of several tokens are the first token's code followed by the rest |
| Encoding.RunsUnfold | pushermaps.c:24-34 | proof step: unfolds `Expand`, `TotalRun`, `TokensBits` and `LastChar` at the first token |
| Encoding.RunsStep | pushermaps.c:96-125 | reading the first token and then the rest reads all the tokens |
| Encoding.RunsDecode | pushermaps.c:96-125 | proof step: unfolds `ReadsRuns` into its `DecodeCells` equation |
| Encoding.RunsOf | pushermaps.c:96-125 | proof step: folds a `DecodeCells` equation back into `ReadsRuns` |
| Encoding.HoldsEachRun | pushermaps.c:24-34 | holding the joined codes is holding each token's code in turn |
| Encoding.DecodeRuns | pushermaps.c:96-125 | token codes laid one after another are read back as exactly those tokens |
| Encoding.DecodeTokens | pushermaps.c:18-34 | any valid token list's code decodes to its cells and ends right after the code |
| Encoding.Pad | pushermaps.c:186 | the codes followed by a fill of fewer than 8 bits, of any content, up to the byte boundary the epilog follows |
| Encoding.ZeroFill | pushermaps.c:186 | a fill of zero bits fits any codes, so every token list has an encoding |
| Encoding.Pack | pushermaps.c:85-88 | packs bits eight to a byte |
| Encoding.MsbFirstFromBits | pushermaps.c:88 | bits put together and listed again are the same bits |
| Encoding.StreamPack | pushermaps.c:82-89 | the stream of packed bytes is the bits packed |
| Encoding.StreamAppend | pushermaps.c:82-89 | the stream of two byte strings joined is their streams joined |
| Encoding.EncodeMap | pushermaps.c:9-16 | a maze's bytes: prolog, packed codes with their fill, epilog |
| Encoding.CodeStream | pushermaps.c:18-21 | the codes start at bit 16 of an encoded maze |
| Encoding.EncodedStream | pushermaps.c:170-179 | inside any image, the codes start right after the prolog |
| Encoding.EncodedCells | pushermaps.c:176-184 | from the reset, the codes decode to exactly the tokens' cells, ending right after them |
| Encoding.LayoutOfParts | pushermaps.c:170-189 | a maze whose prolog, cells and epilog read successfully decodes to exactly them |
| Encoding.EncodedLayout | pushermaps.c:170-189 | definition of the layout an encoded maze stands for; its meaning is proved by `Encoding.DecodeEncodedLayout` |
| Encoding.EncodedBytes | pushermaps.c:186-189 | the epilog sits at the first byte boundary after the codes |
| Encoding.EncodedParts | pushermaps.c:170-189 | every part of an encoded maze is where the decoder looks for it |
| Encoding.DecodeEncodedLayout | pushermaps.c:170-189 | decoding any encoded maze anywhere in an image, whatever its fill bits, gives back its size, cells, player and end |
| Encoding.DecodeEncodedMap | pushermaps.c:170-195 | decoding any encoded maze, whatever its fill bits, is placing its player into the cells it was encoded from |
| Encoding.TrailingBitsIgnored | pushermaps.c:179-189 | the unused bits of the last code byte are ignored: two images differing only there decode alike |
| Scenarios.OneByteBits | pushermaps.c:82-89 | the bits after a two-byte prolog are those of the third byte, highest first |
| Scenarios.EmptySquareCells | pushermaps.c:101-122 | counter `0`, code `00` is one empty square in three bits |
| Scenarios.EmptySquare | pushermaps.c:170-195 | the 1 x 1 empty maze decodes, with `'@'` and then the zero terminator |
| Scenarios.EmptySquarePlaced | pushermaps.c:193-195 | the player goes on the one empty square |
| Scenarios.WallSquareCells | pushermaps.c:116-118 | counter `0`, code `01` is one wall in three bits |
| Scenarios.WallSquareRejected | pushermaps.c:193-194 | a 1 x 1 wall maze fails the placement check at entry 0, which holds a wall |
| Scenarios.WallSquareUnplaced | pushermaps.c:193-194 | the placement check finds the wall at the player's entry |
| Scenarios.TwoWallsCells | pushermaps.c:102-103 | counter `1 000`, code `01` is a run of two walls in six bits |
| Scenarios.TwoWalls | pushermaps.c:170-189 | a 2 x 1 maze coded as one run reads as two walls, with the epilog in the next byte |
| Scenarios.TruncatedImage | pushermaps.c:82-89 | an image that ends right after a 1 x 1 prolog fails with `BufferExhausted(2)`, the byte the bit reader would load |
| Scenarios.CutOffCells | pushermaps.c:96-125 | a 3 x 1 maze whose one code byte is zero decodes two empty squares and runs out at the third cell code, failing with `BufferExhausted(3)` |
| Scenarios.PlayerOutsideMaze | pushermaps.c:186-195 | a 3 x 2 empty maze accepts the player at column 5 of row 0, keeps those coordinates and puts the marker at column 1 of row 1 |

## Left out

- Loading `pusher.exe` from disk and checking its size (pushermaps.c:137-150) is file I/O. The image is a parameter; `DecodeMaze` and `DecodeAll` require its length to be 10632.
- The `printf` output and the rendering of the grid (pushermaps.c:160-168, 174, 191, 197-201) are presentation. The grid they print is modelled.
- `exe` is a `char` array, so bytes at or above 128 may read as negative values in the prolog and epilog comparisons. Bytes are modelled as 0..255; `getbit` is unaffected, since it masks single bits.
- C leaves the order of the three `getbit()` calls at pushermaps.c:103 unspecified. The model fixes the documented order `D3 D2 D1`.
- A failing `assert` aborts the program. It is modelled as an error result, and the run of mazes stops at the first one.
- `getbit` reads past the end of the buffer unchecked (pushermaps.c:85). The model returns `BufferExhausted` with the offset it would have read.
- `current_char` starts at `-1`, which is not a character; the model starts it at `'?'`. `Symbols.DecodeCellsIgnoresStaleChar` proves the value is never observed.
- `Maps.Extract16` adds the two bytes instead of or-ing them. The results agree, because the shifted high byte has no bits in common with the low byte.
- `Encoding` and `Scenarios` are not part of the program. They are an encoder and worked examples that the decoder is proved against.
- Maze numbers of 60 or more cannot arise from the loop at pushermaps.c:152. `DecodeMaze` excludes them by precondition rather than with an error.
