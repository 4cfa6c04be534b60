/** The symbol layer: the run-length counter code, the five-way cell code
    and the step function that `getbyte` implements, as functions of the
    bit stream and the decoder's abstract state. */
module Symbols {
  import opened Common
  import opened BitStream

  /** The five things a maze square can hold. */
  datatype Cell = Empty | Wall | Barrel | Goal | BarrelOnGoal

  /** The character the decoder stores for each cell. */
  function Glyph(c: Cell): (ch: char)
    ensures IsGlyph(ch)
  {
    match c
    case Empty => ' '
    case Wall => 'X'
    case Barrel => '*'
    case Goal => '.'
    case BarrelOnGoal => '&'
  }

  /** The characters the decoder can produce for a square. */
  predicate IsGlyph(ch: char)
  {
    ch == ' ' || ch == 'X' || ch == '*' || ch == '.' || ch == '&'
  }

  /** Every glyph is the character of some cell. */
  lemma GlyphOf(ch: char)
    requires IsGlyph(ch)
    ensures exists c :: Glyph(c) == ch
  {
    var c := match ch
      case ' ' => Empty
      case 'X' => Wall
      case '*' => Barrel
      case '.' => Goal
      case _ => BarrelOnGoal;
    assert Glyph(c) == ch;
  }

  /** Distinct cells are stored as distinct characters. */
  lemma GlyphInjective(c: Cell, d: Cell)
    requires c != d
    ensures Glyph(c) != Glyph(d)
  {
  }

  /** The documented bit code of each cell. */
  function CellBits(c: Cell): (bits: seq<Bit>)
  {
    match c
    case Empty => [0, 0]
    case Wall => [0, 1]
    case Barrel => [1, 0]
    case Goal => [1, 1, 0]
    case BarrelOnGoal => [1, 1, 1]
  }

  /** The documented bit code of a run of `run` equal cells: `0` for one,
      `1 D3 D2 D1` with `run == 2 + 4 * D3 + 2 * D2 + D1` for two to nine. */
  function CounterBits(run: nat): (bits: seq<Bit>)
    requires 1 <= run <= 9
    ensures |bits| == if run == 1 then 1 else 4
  {
    if run == 1 then [0]
    else [1, (run - 2) / 4, (run - 2) / 2 % 2, (run - 2) % 2]
  }

  predicate IsPrefix(u: seq<Bit>, w: seq<Bit>)
  {
    |u| <= |w| && w[..|u|] == u
  }

  /** The counter prefix of a token at bit `p`: the number of further
      copies still to come (`repeat_counter`) and the position after it. */
  function ReadCounter(s: seq<Bit>, p: nat): (r: Result<(nat, nat)>)
    ensures r.Ok? <==> p < |s| && (s[p] == 1 ==> p + 4 <= |s|)
    ensures r.Ok? ==> r.value.0 <= 8 && (r.value.1 == p + 1 || r.value.1 == p + 4) && r.value.1 <= |s|
    ensures r.Err? ==> r.error.BufferExhausted?
  {
    var lead :- ReadBit(s, p);
    if lead == 0 then Ok((0, p + 1))
    else
      var d3 :- ReadBit(s, p + 1);
      var d2 :- ReadBit(s, p + 2);
      var d1 :- ReadBit(s, p + 3);
      Ok((2 + 4 * d3 + 2 * d2 + d1 - 1, p + 4))
  }

  /** The cell code at bit `p`, matched bit by bit down the prefix tree. */
  function ReadCell(s: seq<Bit>, p: nat): (r: Result<(Cell, nat)>)
    ensures p + 3 <= |s| ==> r.Ok?
    ensures r.Ok? ==> p + 2 <= r.value.1 <= p + 3 && r.value.1 <= |s|
    ensures r.Err? ==> r.error.BufferExhausted?
  {
    var b1 :- ReadBit(s, p);
    if b1 == 1 then
      var b2 :- ReadBit(s, p + 1);
      if b2 == 1 then
        var b3 :- ReadBit(s, p + 2);
        if b3 == 1 then Ok((BarrelOnGoal, p + 3)) else Ok((Goal, p + 3))
      else Ok((Barrel, p + 2))
    else
      var b2 :- ReadBit(s, p + 1);
      if b2 == 1 then Ok((Wall, p + 2)) else Ok((Empty, p + 2))
  }

  /** What `ReadCounter` consumes is exactly the code of the run it
      reports: the reader never reads past a counter code. */
  lemma ReadCounterCode(s: seq<Bit>, p: nat)
    requires ReadCounter(s, p).Ok?
    ensures var (pending, q) := ReadCounter(s, p).value;
            q == p + |CounterBits(pending + 1)| && s[p..q] == CounterBits(pending + 1)
  {
    var (pending, q) := ReadCounter(s, p).value;
    if s[p] == 1 {
      assert s[p..q] == [s[p], s[p + 1], s[p + 2], s[p + 3]];
    } else {
      assert s[p..q] == [s[p]];
    }
  }

  /** What `ReadCell` consumes is exactly the code of the cell it reports. */
  lemma ReadCellCode(s: seq<Bit>, p: nat)
    requires ReadCell(s, p).Ok?
    ensures var (c, q) := ReadCell(s, p).value;
            q == p + |CellBits(c)| && s[p..q] == CellBits(c)
  {
    var (c, q) := ReadCell(s, p).value;
    if q == p + 3 {
      assert s[p..q] == [s[p], s[p + 1], s[p + 2]];
    } else {
      assert s[p..q] == [s[p], s[p + 1]];
    }
  }

  /** No cell code is a prefix of another, so matching never backtracks. */
  lemma CellCodePrefixFree(c: Cell, d: Cell)
    requires c != d
    ensures !IsPrefix(CellBits(c), CellBits(d))
  {
    var u, w := CellBits(c), CellBits(d);
    if |u| <= |w| {
      var k := if u[0] != w[0] then 0 else if u[1] != w[1] then 1 else 2;
      assert w[..|u|][k] != u[k];
    }
  }

  /** Every three-bit window starts with exactly one cell code: the code is
      complete as well as prefix-free. */
  lemma CellCodeComplete(w: seq<Bit>)
    requires |w| == 3
    ensures exists c :: IsPrefix(CellBits(c), w)
    ensures forall c, d :: IsPrefix(CellBits(c), w) && IsPrefix(CellBits(d), w) ==> c == d
  {
    var c := ReadCell(w, 0).value.0;
    assert IsPrefix(CellBits(c), w);
    forall c1, d1 | IsPrefix(CellBits(c1), w) && IsPrefix(CellBits(d1), w)
      ensures c1 == d1
    {
      if c1 != d1 {
        if |CellBits(c1)| <= |CellBits(d1)| {
          assert IsPrefix(CellBits(c1), CellBits(d1));
          CellCodePrefixFree(c1, d1);
        } else {
          assert IsPrefix(CellBits(d1), CellBits(c1));
          CellCodePrefixFree(d1, c1);
        }
      }
    }
  }

  /** A cell code in the stream decodes to its cell and consumes exactly its
      own length (2 or 3 bits). */
  lemma ReadCellOfCode(s: seq<Bit>, p: nat, c: Cell)
    requires p + |CellBits(c)| <= |s| && s[p..p + |CellBits(c)|] == CellBits(c)
    ensures ReadCell(s, p) == Ok((c, p + |CellBits(c)|))
  {
    var code := CellBits(c);
    assert forall i :: 0 <= i < |code| ==> s[p + i] == code[i] by {
      forall i | 0 <= i < |code| ensures s[p + i] == code[i] {
        assert s[p..p + |code|][i] == s[p + i];
      }
    }
    if |code| == 2 {
      assert s[p] == code[0] && s[p + 1] == code[1];
    } else {
      assert s[p] == code[0] && s[p + 1] == code[1] && s[p + 2] == code[2];
    }
  }

  /** A counter code in the stream decodes to `run - 1` pending copies, for
      every run length from one to nine. */
  lemma ReadCounterOfCode(s: seq<Bit>, p: nat, run: nat)
    requires 1 <= run <= 9
    requires p + |CounterBits(run)| <= |s| && s[p..p + |CounterBits(run)|] == CounterBits(run)
    ensures ReadCounter(s, p) == Ok((run - 1, p + |CounterBits(run)|))
  {
    var code := CounterBits(run);
    assert forall i :: 0 <= i < |code| ==> s[p + i] == code[i] by {
      forall i | 0 <= i < |code| ensures s[p + i] == code[i] {
        assert s[p..p + |code|][i] == s[p + i];
      }
    }
    if run == 1 {
      assert s[p] == 0 && ReadBit(s, p) == Ok(0);
    } else {
      assert ReadBit(s, p) == Ok(1) && ReadBit(s, p + 1) == Ok(code[1]);
      assert ReadBit(s, p + 2) == Ok(code[2]) && ReadBit(s, p + 3) == Ok(code[3]);
      assert 2 + 4 * (code[1] as int) + 2 * (code[2] as int) + code[3] as int == run;
    }
  }

  /** The abstract state of the symbol decoder: the bit position of the
      reader, the pending `repeat_counter` and the cached `current_char`. */
  datatype DecoderState = DecoderState(pos: nat, repeat: nat, ch: char)

  /** The state `getbyte` maintains between calls: at most eight pending
      copies, and copies only of a character it decoded. */
  predicate Coherent(st: DecoderState)
  {
    st.repeat <= 8 && (st.repeat > 0 ==> IsGlyph(st.ch))
  }

  /** The state at the start of a maze's bit stream. */
  function FreshState(pos: nat): DecoderState
  {
    DecoderState(pos, 0, ' ')
  }

  /** One call of the symbol decoder: a pending copy of the cached character,
      or a fresh counter and cell code read from the stream. */
  function Next(s: seq<Bit>, st: DecoderState): (r: Result<(char, DecoderState)>)
    ensures st.repeat > 0 ==> r.Ok? && r.value.0 == st.ch
                              && r.value.1.pos == st.pos && r.value.1.repeat == st.repeat - 1
    ensures st.repeat == 0 && r.Ok? ==> IsGlyph(r.value.0) && r.value.1.ch == r.value.0
                                         && 3 <= r.value.1.pos - st.pos <= 7
    ensures r.Ok? ==> r.value.1.pos <= |s| || r.value.1.pos == st.pos
    ensures Coherent(st) && r.Ok? ==> Coherent(r.value.1)
    ensures r.Err? ==> st.repeat == 0 && r.error.BufferExhausted?
  {
    if st.repeat > 0 then Ok((st.ch, st.(repeat := st.repeat - 1)))
    else
      var counter :- ReadCounter(s, st.pos);
      var cell :- ReadCell(s, counter.1);
      Ok((Glyph(cell.0), DecoderState(cell.1, counter.0, Glyph(cell.0))))
  }

  /** A fresh token is a counter code followed by a cell code, and leaves
      `run - 1` copies of that cell pending. */
  lemma NextFreshToken(s: seq<Bit>, st: DecoderState)
    requires st.repeat == 0 && Next(s, st).Ok?
    ensures var (ch, st') := Next(s, st).value;
            exists run: nat, c: Cell :: 1 <= run <= 9 && ch == Glyph(c) && st'.repeat == run - 1
              && st'.pos == st.pos + |CounterBits(run) + CellBits(c)| <= |s|
              && s[st.pos..st'.pos] == CounterBits(run) + CellBits(c)
  {
    var counter := ReadCounter(s, st.pos).value;
    var cell := ReadCell(s, counter.1).value;
    ReadCounterCode(s, st.pos);
    ReadCellCode(s, counter.1);
    var run := counter.0 + 1;
    assert s[st.pos..cell.1] == s[st.pos..counter.1] + s[counter.1..cell.1];
    assert Next(s, st).value.1.repeat == run - 1;
  }

  /** `n` successive calls of the symbol decoder from state `st`: the
      characters produced and the state left behind. */
  function DecodeCells(s: seq<Bit>, st: DecoderState, n: nat): (r: Result<(seq<char>, DecoderState)>)
    ensures r.Ok? ==> |r.value.0| == n && st.pos <= r.value.1.pos
    ensures r.Ok? && Coherent(st) ==> Coherent(r.value.1)
    ensures r.Err? ==> r.error.BufferExhausted?
  {
    if n == 0 then Ok(([], st))
    else
      var before :- DecodeCells(s, st, n - 1);
      var step :- Next(s, before.1);
      Ok((before.0 + [step.0], step.1))
  }

  /** From a coherent state, every character decoded is one of the five
      glyphs. */
  lemma {:induction false} DecodeCellsGlyphs(s: seq<Bit>, st: DecoderState, n: nat)
    requires Coherent(st) && DecodeCells(s, st, n).Ok?
    ensures forall i :: 0 <= i < n ==> IsGlyph(DecodeCells(s, st, n).value.0[i])
  {
    if n > 0 {
      DecodeCellsGlyphs(s, st, n - 1);
      var before := DecodeCells(s, st, n - 1).value;
      var step := Next(s, before.1).value;
      assert DecodeCells(s, st, n).value.0 == before.0 + [step.0];
    }
  }

  /** One more call after `n` successful ones: its character is appended,
      or its error is the result. */
  lemma DecodeCellsStep(s: seq<Bit>, st: DecoderState, n: nat, done: seq<char>, st': DecoderState)
    requires DecodeCells(s, st, n) == Ok((done, st'))
    ensures var step := Next(s, st');
            DecodeCells(s, st, n + 1) == if step.Ok? then Ok((done + [step.value.0], step.value.1))
                                         else Err(step.error)
  {
  }

  /** Once the decoder has run out of bits, every longer run of calls fails
      with the same error. */
  lemma {:induction false} DecodeCellsErrPersists(s: seq<Bit>, st: DecoderState, k: nat, n: nat)
    requires k <= n && DecodeCells(s, st, k).Err?
    ensures DecodeCells(s, st, n) == Err(DecodeCells(s, st, k).error)
  {
    if k < n {
      DecodeCellsErrPersists(s, st, k, n - 1);
    }
  }

  /** The character cached before a maze starts is never observed: with no
      copies pending, decoding does not depend on it. */
  lemma {:induction false} DecodeCellsIgnoresStaleChar(s: seq<Bit>, pos: nat, ch: char, n: nat)
    requires n > 0
    ensures DecodeCells(s, DecoderState(pos, 0, ch), n) == DecodeCells(s, FreshState(pos), n)
  {
    if n == 1 {
      assert Next(s, DecoderState(pos, 0, ch)) == Next(s, FreshState(pos));
    } else {
      DecodeCellsIgnoresStaleChar(s, pos, ch, n - 1);
    }
  }

  /** Decoding `n + 1` cells is one call followed by `n` more. */
  lemma {:induction false} DecodeCellsFirst(s: seq<Bit>, st: DecoderState, n: nat)
    requires Next(s, st).Ok?
    ensures var step := Next(s, st).value;
            var rest := DecodeCells(s, step.1, n);
            DecodeCells(s, st, n + 1) == if rest.Ok? then Ok(([step.0] + rest.value.0, rest.value.1)) else rest
  {
    var step := Next(s, st).value;
    if n > 0 {
      DecodeCellsFirst(s, st, n - 1);
      var rest := DecodeCells(s, step.1, n - 1);
      if rest.Ok? {
        var cs := rest.value.0;
        var last := rest.value.1;
        assert DecodeCells(s, st, n) == Ok(([step.0] + cs, last));
        var next := Next(s, last);
        if next.Ok? {
          assert DecodeCells(s, step.1, n) == Ok((cs + [next.value.0], next.value.1));
          assert [step.0] + cs + [next.value.0] == [step.0] + (cs + [next.value.0]);
          assert DecodeCells(s, st, n + 1) == Ok(([step.0] + cs + [next.value.0], next.value.1));
        } else {
          assert DecodeCells(s, step.1, n) == Err(next.error);
          assert DecodeCells(s, st, n + 1) == Err(next.error);
        }
      } else {
        assert DecodeCells(s, st, n) == rest;
        assert DecodeCells(s, step.1, n) == rest;
        assert DecodeCells(s, st, n + 1) == rest;
      }
    } else {
      assert [] + [step.0] == [step.0] + [];
    }
  }
}
