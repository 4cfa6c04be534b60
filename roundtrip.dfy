/** The encoder the packed format implies, which the decoder is proved against:
    a maze written as runs of equal cells, each run as a counter code and a
    cell code, the bits packed most significant first and padded to a byte
    boundary between the size prolog and the player epilog. Decoding what
    it writes gives back exactly the runs, the sizes and the player. */
module Encoding {
  import opened Common
  import opened BitStream
  import opened Symbols
  import opened Grid
  import Maps

  /** A run of `run` equal cells, the unit one fresh call of the symbol
      decoder reads. */
  datatype Token = Token(run: nat, cell: Cell)

  /** Every run has a counter code: one to nine cells. */
  predicate ValidTokens(ts: seq<Token>)
  {
    ts == [] || (1 <= ts[0].run <= 9 && ValidTokens(ts[1..]))
  }

  /** The code of one run: its counter code, then its cell code. */
  function TokenBits(t: Token): (bits: seq<Bit>)
    requires 1 <= t.run <= 9
    ensures 3 <= |bits| <= 7
  {
    CounterBits(t.run) + CellBits(t.cell)
  }

  /** The codes of the runs, one after another. */
  function TokensBits(ts: seq<Token>): (bits: seq<Bit>)
    requires ValidTokens(ts)
  {
    if ts == [] then [] else TokenBits(ts[0]) + TokensBits(ts[1..])
  }

  /** `n` copies of `ch`. */
  function Copies(ch: char, n: nat): (r: seq<char>)
    ensures |r| == n
  {
    seq(n, _ => ch)
  }

  /** The cells the runs stand for, in order. */
  function Expand(ts: seq<Token>): (cells: seq<char>)
  {
    if ts == [] then [] else Copies(Glyph(ts[0].cell), ts[0].run) + Expand(ts[1..])
  }

  /** The number of cells the runs stand for. */
  function TotalRun(ts: seq<Token>): (n: nat)
    ensures n == |Expand(ts)|
  {
    if ts == [] then 0 else ts[0].run + TotalRun(ts[1..])
  }

  /** The stream holds the bits `w` from position `p` on. */
  predicate Holds(s: seq<Bit>, p: nat, w: seq<Bit>)
  {
    p + |w| <= |s| && s[p..p + |w|] == w
  }

  /** Whatever follows a stream does not disturb what it holds. */
  lemma HoldsPrefix(x: seq<Bit>, y: seq<Bit>, p: nat, w: seq<Bit>)
    requires Holds(x, p, w)
    ensures Holds(x + y, p, w)
  {
    assert (x + y)[p..p + |w|] == x[p..p + |w|];
  }

  /** Whatever precedes a stream moves what it holds along by its length. */
  lemma HoldsSuffix(x: seq<Bit>, y: seq<Bit>, p: nat, w: seq<Bit>)
    requires Holds(y, p, w)
    ensures Holds(x + y, |x| + p, w)
  {
    assert (x + y)[|x| + p..|x| + p + |w|] == y[p..p + |w|];
  }

  /** Holding `a + b` is holding `a`, then `b` right after it. */
  lemma HoldsSplit(s: seq<Bit>, p: nat, a: seq<Bit>, b: seq<Bit>)
    requires Holds(s, p, a + b)
    ensures Holds(s, p, a) && Holds(s, p + |a|, b)
  {
    assert s[p..p + |a|] == s[p..p + |a + b|][..|a|];
    assert s[p + |a|..p + |a| + |b|] == s[p..p + |a + b|][|a|..];
  }

  /** `n` calls of the symbol decoder from state `st` yield `xs` and leave
      state `st'`. */
  predicate Decodes(s: seq<Bit>, st: DecoderState, n: nat, xs: seq<char>, st': DecoderState)
  {
    DecodeCells(s, st, n) == Ok((xs, st'))
  }

  /** With `m` copies pending, the next `n <= m` calls deliver copies of the
      cached character and read nothing. */
  lemma {:induction false} PendingCopies(s: seq<Bit>, q: nat, m: nat, ch: char, n: nat)
    requires n <= m
    ensures Decodes(s, DecoderState(q, m, ch), n, Copies(ch, n), DecoderState(q, m - n, ch))
  {
    if n > 0 {
      PendingCopies(s, q, m, ch, n - 1);
      assert Copies(ch, n - 1) + [ch] == Copies(ch, n);
    }
  }

  /** Two successful stretches of calls make one: decoding `a` calls and
      then `b` more is decoding `a + b` calls. */
  lemma {:induction false} DecodeCellsChain(s: seq<Bit>, st: DecoderState, a: nat, b: nat, n: nat,
                                            xs: seq<char>, st1: DecoderState, ys: seq<char>, st2: DecoderState)
    requires Decodes(s, st, a, xs, st1) && Decodes(s, st1, b, ys, st2) && n == a + b
    ensures Decodes(s, st, n, xs + ys, st2)
  {
    if b == 0 {
      assert xs + ys == xs;
    } else {
      var (ys', st') := DecodeCells(s, st1, b - 1).value;
      DecodeCellsChain(s, st, a, b - 1, n - 1, xs, st1, ys', st');
      var c := Next(s, st').value.0;
      assert ys == ys' + [c];
      assert xs + ys' + [c] == xs + ys;
    }
  }

  /** A run's code at bit `p`, read with no copies pending, is one fresh
      call: it yields the run's character, moves past the code and leaves
      the rest of the run pending. */
  lemma {:induction false} NextOfToken(s: seq<Bit>, p: nat, ch: char, t: Token)
    requires 1 <= t.run <= 9 && Holds(s, p, TokenBits(t))
    ensures Next(s, DecoderState(p, 0, ch))
            == Ok((Glyph(t.cell), DecoderState(p + |TokenBits(t)|, t.run - 1, Glyph(t.cell))))
  {
    var counter, code := CounterBits(t.run), CellBits(t.cell);
    HoldsSplit(s, p, counter, code);
    ReadCounterOfCode(s, p, t.run);
    ReadCellOfCode(s, p + |counter|, t.cell);
  }

  /** A run's code at bit `p`, read from a state with no copies pending,
      decodes to the run's cells and leaves the reader just after the code
      with no copies pending. */
  lemma {:induction false} DecodeToken(s: seq<Bit>, p: nat, q: nat, ch: char, t: Token)
    requires 1 <= t.run <= 9 && Holds(s, p, TokenBits(t)) && q == p + |TokenBits(t)|
    ensures Decodes(s, DecoderState(p, 0, ch), t.run, Copies(Glyph(t.cell), t.run),
                    DecoderState(q, 0, Glyph(t.cell)))
  {
    var g, n := Glyph(t.cell), t.run - 1;
    var st, st1 := DecoderState(p, 0, ch), DecoderState(q, n, g);
    NextOfToken(s, p, ch, t);
    assert Next(s, st) == Ok((g, st1));
    PendingCopies(s, q, n, g, n);
    DecodeCellsFirst(s, st, n);
    assert [g] + Copies(g, n) == Copies(g, n + 1);
  }

  /** The codes of runs start with the code of the first run, and the codes
      of the others follow it. */
  lemma {:induction false} TokensSplit(s: seq<Bit>, p: nat, ts: seq<Token>)
    requires ValidTokens(ts) && ts != [] && Holds(s, p, TokensBits(ts))
    ensures 1 <= ts[0].run <= 9 && ValidTokens(ts[1..])
    ensures Holds(s, p, TokenBits(ts[0])) && Holds(s, p + |TokenBits(ts[0])|, TokensBits(ts[1..]))
    ensures |TokensBits(ts)| == |TokenBits(ts[0])| + |TokensBits(ts[1..])|
  {
    HoldsSplit(s, p, TokenBits(ts[0]), TokensBits(ts[1..]));
  }

  /** The character the decoder caches after reading the runs `ts` from a
      state caching `ch`: that of the last run, or `ch` when there is none. */
  function LastChar(ch: char, ts: seq<Token>): (last: char)
    decreases |ts|
  {
    if ts == [] then ch else LastChar(Glyph(ts[0].cell), ts[1..])
  }

  /** From bit `p`, with no copies pending, the decoder reads exactly the
      cells of the runs `ts`, ending just after their codes with no copies
      pending. */
  predicate ReadsRuns(s: seq<Bit>, p: nat, ch: char, ts: seq<Token>)
    requires ValidTokens(ts)
  {
    Decodes(s, DecoderState(p, 0, ch), TotalRun(ts), Expand(ts),
            DecoderState(p + |TokensBits(ts)|, 0, LastChar(ch, ts)))
  }

  /** The first run and the runs after it make up all the runs: their
      cells, their count, the length of their codes and the character cached
      after them. */
  lemma RunsUnfold(p: nat, ch: char, ts: seq<Token>)
    requires ValidTokens(ts) && ts != []
    ensures ValidTokens(ts[1..])
    ensures TotalRun(ts) == ts[0].run + TotalRun(ts[1..])
    ensures Expand(ts) == Copies(Glyph(ts[0].cell), ts[0].run) + Expand(ts[1..])
    ensures DecoderState(p + |TokensBits(ts)|, 0, LastChar(ch, ts))
            == DecoderState(p + |TokenBits(ts[0])| + |TokensBits(ts[1..])|, 0, LastChar(Glyph(ts[0].cell), ts[1..]))
  {
  }

  /** If the code of the first run is at bit `p` and the runs after it are
      read back from just after that code, then all the runs are read back
      from `p`. */
  lemma {:induction false} RunsStep(s: seq<Bit>, p: nat, q: nat, ch: char, ts: seq<Token>)
    requires ValidTokens(ts) && ts != [] && Holds(s, p, TokenBits(ts[0])) && q == p + |TokenBits(ts[0])|
    requires ReadsRuns(s, q, Glyph(ts[0].cell), ts[1..])
    ensures ReadsRuns(s, p, ch, ts)
  {
    var t, rest := ts[0], ts[1..];
    var g := Glyph(t.cell);
    var st2 := DecoderState(q + |TokensBits(rest)|, 0, LastChar(g, rest));
    DecodeToken(s, p, q, ch, t);
    RunsDecode(s, q, g, rest);
    RunsUnfold(p, ch, ts);
    DecodeCellsChain(s, DecoderState(p, 0, ch), t.run, TotalRun(rest), TotalRun(ts),
                     Copies(g, t.run), DecoderState(q, 0, g), Expand(rest), st2);
    RunsOf(s, p, ch, ts, TotalRun(ts), Copies(g, t.run) + Expand(rest), st2);
  }

  /** What `ReadsRuns` says, spelled out. */
  lemma RunsDecode(s: seq<Bit>, p: nat, ch: char, ts: seq<Token>)
    requires ValidTokens(ts) && ReadsRuns(s, p, ch, ts)
    ensures Decodes(s, DecoderState(p, 0, ch), TotalRun(ts), Expand(ts),
                    DecoderState(p + |TokensBits(ts)|, 0, LastChar(ch, ts)))
  {
  }

  /** `ReadsRuns` from a decoding of the runs' cells that ends just after
      their codes. */
  lemma RunsOf(s: seq<Bit>, p: nat, ch: char, ts: seq<Token>, n: nat, xs: seq<char>, st: DecoderState)
    requires ValidTokens(ts) && n == TotalRun(ts) && xs == Expand(ts)
    requires st == DecoderState(p + |TokensBits(ts)|, 0, LastChar(ch, ts))
    requires Decodes(s, DecoderState(p, 0, ch), n, xs, st)
    ensures ReadsRuns(s, p, ch, ts)
  {
  }

  /** The stream holds the code of each run in turn from bit `p` on. */
  predicate HoldsRuns(s: seq<Bit>, p: nat, ts: seq<Token>)
    requires ValidTokens(ts)
    decreases |ts|
  {
    ts == [] || (Holds(s, p, TokenBits(ts[0])) && HoldsRuns(s, p + |TokenBits(ts[0])|, ts[1..]))
  }

  /** Holding the concatenated codes is holding each code in turn. */
  lemma {:induction false} HoldsEachRun(s: seq<Bit>, p: nat, ts: seq<Token>)
    requires ValidTokens(ts) && Holds(s, p, TokensBits(ts))
    ensures HoldsRuns(s, p, ts)
    decreases |ts|
  {
    if ts != [] {
      TokensSplit(s, p, ts);
      HoldsEachRun(s, p + |TokenBits(ts[0])|, ts[1..]);
    }
  }

  /** Runs whose codes follow each other from bit `p` are read back as
      exactly those runs. */
  lemma {:induction false} DecodeRuns(s: seq<Bit>, p: nat, ch: char, ts: seq<Token>)
    requires ValidTokens(ts) && HoldsRuns(s, p, ts)
    ensures ReadsRuns(s, p, ch, ts)
    decreases |ts|
  {
    if ts != [] {
      var q := p + |TokenBits(ts[0])|;
      DecodeRuns(s, q, Glyph(ts[0].cell), ts[1..]);
      RunsStep(s, p, q, ch, ts);
    }
  }

  /** The codes of the runs at bit `p` are read back as exactly those runs. */
  lemma DecodeTokens(s: seq<Bit>, p: nat, ch: char, ts: seq<Token>)
    requires ValidTokens(ts) && Holds(s, p, TokensBits(ts))
    ensures ReadsRuns(s, p, ch, ts)
  {
    HoldsEachRun(s, p, ts);
    DecodeRuns(s, p, ch, ts);
  }

  /** `n` zero bits. */
  function Zeros(n: nat): (z: seq<Bit>)
    ensures |z| == n
  {
    seq(n, _ => 0)
  }

  /** `fill` tops `bits` up to the next byte boundary. The reader skips
      these bits before the epilog, so they may hold anything. */
  predicate ValidFill(bits: seq<Bit>, fill: seq<Bit>)
  {
    |fill| < 8 && (|bits| + |fill|) % 8 == 0
  }

  /** Zero bits are one fill that fits any bits. */
  lemma ZeroFill(bits: seq<Bit>)
    ensures ValidFill(bits, Zeros((8 - |bits| % 8) % 8))
  {
  }

  /** The bits followed by their fill, up to the next byte boundary. */
  function Pad(bits: seq<Bit>, fill: seq<Bit>): (r: seq<Bit>)
    requires ValidFill(bits, fill)
    ensures |r| % 8 == 0 && |bits| <= |r| < |bits| + 8
  {
    bits + fill
  }

  /** The bits as bytes, eight at a time, the first bit of each the most
      significant. */
  function Pack(bits: seq<Bit>): (bytes: seq<Byte>)
    requires |bits| % 8 == 0
    ensures 8 * |bytes| == |bits|
  {
    if bits == [] then []
    else
      Pow2Byte();
      [FromBits(bits[..8])] + Pack(bits[8..])
  }

  /** Putting `w` together as a number and listing its `|w|` low bits gives
      `w` back. */
  lemma {:induction false} MsbFirstFromBits(w: seq<Bit>)
    ensures MsbFirst(FromBits(w), |w|) == w
  {
    if w != [] {
      var front := w[..|w| - 1];
      MsbFirstFromBits(front);
      assert w == front + [w[|w| - 1]];
    }
  }

  /** The bits of packed bytes are the bits packed. */
  lemma {:induction false} StreamPack(bits: seq<Bit>)
    requires |bits| % 8 == 0
    ensures Stream(Pack(bits)) == bits
    decreases |bits|
  {
    if bits != [] {
      var packed := Pack(bits);
      assert packed[1..] == Pack(bits[8..]);
      StreamPack(bits[8..]);
      MsbFirstFromBits(bits[..8]);
      assert bits == bits[..8] + bits[8..];
    }
  }

  /** The stream of two images one after the other is their streams one
      after the other. */
  lemma {:induction false} StreamAppend(a: seq<Byte>, b: seq<Byte>)
    ensures Stream(a + b) == Stream(a) + Stream(b)
  {
    if a != [] {
      assert (a + b)[1..] == a[1..] + b;
      StreamAppend(a[1..], b);
    } else {
      assert a + b == b;
    }
  }

  /** One maze as the image stores it: the width and height, the packed
      codes of its runs, and the player's column and row. */
  function EncodeMap(sizeX: Byte, sizeY: Byte, ts: seq<Token>, fill: seq<Bit>, manX: Byte, manY: Byte)
    : (r: seq<Byte>)
    requires ValidTokens(ts) && ValidFill(TokensBits(ts), fill)
    ensures |r| == 4 + |Pad(TokensBits(ts), fill)| / 8
    ensures r[0] == sizeX && r[1] == sizeY && r[|r| - 2] == manX && r[|r| - 1] == manY
  {
    [sizeX, sizeY] + Pack(Pad(TokensBits(ts), fill)) + [manX, manY]
  }

  /** The stream of an encoded maze holds the codes of its runs right
      after the two size bytes. */
  lemma CodeStream(sizeX: Byte, sizeY: Byte, ts: seq<Token>, fill: seq<Bit>, manX: Byte, manY: Byte)
    requires ValidTokens(ts) && ValidFill(TokensBits(ts), fill)
    ensures Holds(Stream(EncodeMap(sizeX, sizeY, ts, fill, manX, manY)), 16, TokensBits(ts))
  {
    var bits := TokensBits(ts);
    var padded := Pad(bits, fill);
    var packed := Pack(padded);
    var size, man := [sizeX, sizeY], [manX, manY];
    assert EncodeMap(sizeX, sizeY, ts, fill, manX, manY) == size + packed + man;
    assert Holds(padded, 0, bits) by {
      assert padded[0..|bits|] == bits;
    }
    StreamPack(padded);
    var sPacked, sSize := Stream(packed), Stream(size);
    HoldsSuffix(sSize, sPacked, 0, bits);
    StreamAppend(size, packed);
    HoldsPrefix(Stream(size + packed), Stream(man), 16, bits);
    StreamAppend(size + packed, man);
  }

  /** In an image holding an encoded maze at byte `|before|`, the stream
      holds the codes of its runs from the bit after the prolog. */
  lemma {:induction false} EncodedStream(img: seq<Byte>, s: seq<Bit>, before: seq<Byte>, sizeX: Byte, sizeY: Byte,
                                         ts: seq<Token>, fill: seq<Bit>, manX: Byte, manY: Byte,
                                         after: seq<Byte>)
    requires ValidTokens(ts) && ValidFill(TokensBits(ts), fill)
    requires img == before + EncodeMap(sizeX, sizeY, ts, fill, manX, manY) + after && s == Stream(img)
    ensures Holds(s, 8 * (|before| + 2), TokensBits(ts))
  {
    var bits := TokensBits(ts);
    var code := EncodeMap(sizeX, sizeY, ts, fill, manX, manY);
    CodeStream(sizeX, sizeY, ts, fill, manX, manY);
    var sCode, sBefore := Stream(code), Stream(before);
    HoldsSuffix(sBefore, sCode, 16, bits);
    StreamAppend(before, code);
    var sMap, sAfter := Stream(before + code), Stream(after);
    HoldsPrefix(sMap, sAfter, |sBefore| + 16, bits);
    StreamAppend(before + code, after);
    assert s == sMap + sAfter;
  }

  /** The cells of an encoded maze decode to exactly its runs' cells, and
      the reader stops right after the last code. */
  lemma {:induction false} EncodedCells(s: seq<Bit>, p: nat, ts: seq<Token>, n: nat) returns (st: DecoderState)
    requires ValidTokens(ts) && Holds(s, p, TokensBits(ts)) && n == TotalRun(ts)
    ensures Decodes(s, FreshState(p), n, Expand(ts), st) && st.pos == p + |TokensBits(ts)|
  {
    DecodeTokens(s, p, ' ', ts);
    st := DecoderState(p + |TokensBits(ts)|, 0, LastChar(' ', ts));
  }

  /** Byte `i` of a stored piece is byte `|before| + i` of the image. */
  lemma {:induction false} ImageByte(before: seq<Byte>, code: seq<Byte>, after: seq<Byte>, i: nat)
    requires i < |code|
    ensures |before| + i < |before + code + after| && (before + code + after)[|before| + i] == code[i]
  {
  }

  /** A maze whose prolog, cells and epilog read well decodes to them. */
  lemma {:induction false} LayoutOfParts(exe: seq<Byte>, s: seq<Bit>, start: nat, sizeX: nat, sizeY: nat,
                                         cells: seq<char>, st: DecoderState, manX: nat, manY: nat, end: nat)
    requires start + 1 < |exe| && exe[start] == sizeX < MAX_X && exe[start + 1] == sizeY < MAX_Y
    requires Decodes(s, FreshState(8 * (start + 2)), CellCount(sizeX, sizeY), cells, st)
    requires end == (st.pos + 7) / 8 + 2 <= |exe| && exe[end - 2] == manX < MAX_X && exe[end - 1] == manY < MAX_Y
    ensures Maps.DecodeLayout(exe, s, start) == Ok(Maps.Layout(sizeX, sizeY, cells, manX, manY, st.pos, end))
  {
  }

  /** The layout an encoded maze stands for, once stored after `|before|`
      bytes of image. It does not depend on the fill bits. */
  function EncodedLayout(before: seq<Byte>, sizeX: Byte, sizeY: Byte, ts: seq<Token>, manX: Byte, manY: Byte)
    : (l: Maps.Layout)
    requires ValidTokens(ts)
  {
    var streamEnd := 8 * (|before| + 2) + |TokensBits(ts)|;
    Maps.Layout(sizeX, sizeY, Expand(ts), manX, manY, streamEnd, (streamEnd + 7) / 8 + 2)
  }

  /** The prolog and the epilog of an encoded maze sit at the ends of its
      bytes, and the epilog follows the packed codes and their fill. */
  lemma {:induction false} EncodedBytes(img: seq<Byte>, before: seq<Byte>, sizeX: Byte, sizeY: Byte,
                                        ts: seq<Token>, fill: seq<Bit>, manX: Byte, manY: Byte, after: seq<Byte>)
    requires ValidTokens(ts) && ValidFill(TokensBits(ts), fill)
    requires img == before + EncodeMap(sizeX, sizeY, ts, fill, manX, manY) + after
    ensures |before| + 1 < |img| && img[|before|] == sizeX && img[|before| + 1] == sizeY
    ensures var end := |before| + |EncodeMap(sizeX, sizeY, ts, fill, manX, manY)|;
            end == (8 * (|before| + 2) + |TokensBits(ts)| + 7) / 8 + 2 <= |img|
            && img[end - 2] == manX && img[end - 1] == manY
  {
    var code := EncodeMap(sizeX, sizeY, ts, fill, manX, manY);
    var start, n := |before|, |code|;
    ImageByte(before, code, after, 0);
    ImageByte(before, code, after, 1);
    ImageByte(before, code, after, n - 2);
    ImageByte(before, code, after, n - 1);
    var p, L := 8 * (start + 2), |TokensBits(ts)|;
    var m := n - 4;
    Arith.DivModUnique(p + L + 7, 8, start + 2 + m, p + L + 7 - 8 * (start + 2 + m));
  }

  /** What reading an encoded maze needs: its prolog, its cells, the end of
      its codes and its epilog, each where the decoder looks for it. */
  lemma {:induction false} EncodedParts(img: seq<Byte>, s: seq<Bit>, before: seq<Byte>, sizeX: Byte, sizeY: Byte,
                                        ts: seq<Token>, fill: seq<Bit>, manX: Byte, manY: Byte, after: seq<Byte>)
    returns (st: DecoderState)
    requires ValidTokens(ts) && ValidFill(TokensBits(ts), fill) && TotalRun(ts) == CellCount(sizeX, sizeY)
    requires img == before + EncodeMap(sizeX, sizeY, ts, fill, manX, manY) + after && s == Stream(img)
    ensures Decodes(s, FreshState(8 * (|before| + 2)), CellCount(sizeX, sizeY), Expand(ts), st)
    ensures st.pos == 8 * (|before| + 2) + |TokensBits(ts)|
  {
    EncodedStream(img, s, before, sizeX, sizeY, ts, fill, manX, manY, after);
    st := EncodedCells(s, 8 * (|before| + 2), ts, CellCount(sizeX, sizeY));
  }

  /** Reading an encoded maze, wherever it sits in the image and whatever
      its fill bits hold, gives back its size, its cells in order, the
      player's coordinates, the bit where its codes end and the byte after
      its epilog. */
  lemma {:induction false} DecodeEncodedLayout(img: seq<Byte>, s: seq<Bit>, before: seq<Byte>, sizeX: Byte,
                                               sizeY: Byte, ts: seq<Token>, fill: seq<Bit>, manX: Byte, manY: Byte,
                                               after: seq<Byte>)
    requires sizeX < MAX_X && sizeY < MAX_Y && manX < MAX_X && manY < MAX_Y
    requires ValidTokens(ts) && ValidFill(TokensBits(ts), fill) && TotalRun(ts) == CellCount(sizeX, sizeY)
    requires img == before + EncodeMap(sizeX, sizeY, ts, fill, manX, manY) + after && s == Stream(img)
    ensures Maps.DecodeLayout(img, s, |before|) == Ok(EncodedLayout(before, sizeX, sizeY, ts, manX, manY))
    ensures EncodedLayout(before, sizeX, sizeY, ts, manX, manY).end
            == |before| + |EncodeMap(sizeX, sizeY, ts, fill, manX, manY)|
  {
    var l := EncodedLayout(before, sizeX, sizeY, ts, manX, manY);
    EncodedBytes(img, before, sizeX, sizeY, ts, fill, manX, manY, after);
    var st := EncodedParts(img, s, before, sizeX, sizeY, ts, fill, manX, manY, after);
    assert Maps.Layout(sizeX, sizeY, Expand(ts), manX, manY, st.pos, l.end) == l;
    LayoutOfParts(img, s, |before|, sizeX, sizeY, Expand(ts), st, manX, manY, l.end);
  }

  /** Decoding an encoded maze is placing the player into the cells it was
      encoded from, whatever its fill bits hold. */
  lemma {:induction false} DecodeEncodedMap(img: seq<Byte>, before: seq<Byte>, sizeX: Byte, sizeY: Byte,
                                            ts: seq<Token>, fill: seq<Bit>, manX: Byte, manY: Byte,
                                            after: seq<Byte>)
    requires sizeX < MAX_X && sizeY < MAX_Y && manX < MAX_X && manY < MAX_Y
    requires ValidTokens(ts) && ValidFill(TokensBits(ts), fill) && TotalRun(ts) == CellCount(sizeX, sizeY)
    requires img == before + EncodeMap(sizeX, sizeY, ts, fill, manX, manY) + after
    ensures Maps.WellFormed(EncodedLayout(before, sizeX, sizeY, ts, manX, manY))
    ensures Maps.DecodeMap(img, |before|) == Maps.Place(EncodedLayout(before, sizeX, sizeY, ts, manX, manY))
  {
    DecodeEncodedLayout(img, Stream(img), before, sizeX, sizeY, ts, fill, manX, manY, after);
  }

  /** The bits between the last code and the epilog are ignored: two images
      that differ only in those bits decode to the same maze, or fail alike. */
  lemma TrailingBitsIgnored(before: seq<Byte>, sizeX: Byte, sizeY: Byte, ts: seq<Token>, fill1: seq<Bit>,
                            fill2: seq<Bit>, manX: Byte, manY: Byte, after: seq<Byte>)
    requires sizeX < MAX_X && sizeY < MAX_Y && manX < MAX_X && manY < MAX_Y
    requires ValidTokens(ts) && TotalRun(ts) == CellCount(sizeX, sizeY)
    requires ValidFill(TokensBits(ts), fill1) && ValidFill(TokensBits(ts), fill2)
    ensures Maps.DecodeMap(before + EncodeMap(sizeX, sizeY, ts, fill1, manX, manY) + after, |before|)
            == Maps.DecodeMap(before + EncodeMap(sizeX, sizeY, ts, fill2, manX, manY) + after, |before|)
  {
    DecodeEncodedMap(before + EncodeMap(sizeX, sizeY, ts, fill1, manX, manY) + after, before, sizeX, sizeY,
                     ts, fill1, manX, manY, after);
    DecodeEncodedMap(before + EncodeMap(sizeX, sizeY, ts, fill2, manX, manY) + after, before, sizeX, sizeY,
                     ts, fill2, manX, manY, after);
  }
}
