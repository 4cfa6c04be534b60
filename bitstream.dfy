/** The bit reader's view of the image: every byte contributes its eight
    bits, most significant first, in the order `getbit` delivers them. */
module BitStream {
  import opened Common
  import Arith

  function Pow2(k: nat): (r: nat)
    ensures r >= 1
  {
    if k == 0 then 1 else 2 * Pow2(k - 1)
  }

  /** Bit `k` of `b`, counting from the least significant bit: the value of
      the mask test `(b & (1 << k)) != 0` for a non-negative `b`. */
  function BitOf(b: nat, k: nat): (r: Bit)
  {
    if k == 0 then b % 2 else BitOf(b / 2, k - 1)
  }

  /** The number whose binary digits, most significant first, are `bits`. */
  function FromBits(bits: seq<Bit>): (r: nat)
    ensures r < Pow2(|bits|)
  {
    if bits == [] then 0 else 2 * FromBits(bits[..|bits| - 1]) + bits[|bits| - 1]
  }

  /** All bits of the image in reading order: each byte's eight bits, most
      significant first, then the bytes after it. */
  function Stream(exe: seq<Byte>): (s: seq<Bit>)
    ensures |s| == 8 * |exe|
  {
    if exe == [] then [] else MsbFirst(exe[0], 8) + Stream(exe[1..])
  }

  /** One bit at position `p`, or the byte offset the reader ran out at. */
  function ReadBit(s: seq<Bit>, p: nat): (r: Result<Bit>)
  {
    if p < |s| then Ok(s[p]) else Err(BufferExhausted(p / 8))
  }

  /** Reading bit `p` of an image's stream delivers bit `7 - p % 8` of byte
      `p / 8`, or fails at byte `p / 8` once the image is used up. */
  lemma ReadBitOfImage(exe: seq<Byte>, p: nat)
    ensures ReadBit(Stream(exe), p) == if p < 8 * |exe| then Ok(BitOf(exe[p / 8], 7 - p % 8))
                                       else Err(BufferExhausted(p / 8))
  {
    if p < 8 * |exe| {
      StreamAt(exe, p);
    }
  }

  /** Bit position `p` of the stream is bit `7 - p % 8` of byte `p / 8`. */
  lemma {:induction false} StreamAt(exe: seq<Byte>, p: nat)
    requires p < 8 * |exe|
    ensures Stream(exe)[p] == BitOf(exe[p / 8], 7 - p % 8)
  {
    if p < 8 {
      MsbFirstDigit(exe[0], 8, p);
    } else {
      StreamAt(exe[1..], p - 8);
      assert (p - 8) / 8 == p / 8 - 1 && (p - 8) % 8 == p % 8;
    }
  }

  /** Starting at byte `o`, the `k`-th bit read (from 0) is bit `7 - k % 8`
      of byte `o + k / 8`: bytes are consumed in order, each MSB first. */
  lemma StreamMsbFirst(exe: seq<Byte>, o: nat, k: nat)
    requires o + k / 8 < |exe|
    ensures 8 * o + k < |Stream(exe)|
    ensures Stream(exe)[8 * o + k] == BitOf(exe[o + k / 8], 7 - k % 8)
  {
    assert (8 * o + k) / 8 == o + k / 8 && (8 * o + k) % 8 == k % 8;
    StreamAt(exe, 8 * o + k);
  }

  /** Digit `i` (from the most significant end) of `FromBits(bits)` is `bits[i]`. */
  lemma {:induction false} FromBitsDigit(bits: seq<Bit>, i: nat)
    requires i < |bits|
    ensures BitOf(FromBits(bits), |bits| - 1 - i) == bits[i]
  {
    var n := |bits|;
    var front := bits[..n - 1];
    var v := FromBits(bits);
    assert v == 2 * FromBits(front) + bits[n - 1];
    if i < n - 1 {
      assert v / 2 == FromBits(front);
      FromBitsDigit(front, i);
    }
  }

  /** The `k` low bits of `b`, most significant first. */
  function MsbFirst(b: nat, k: nat): (bits: seq<Bit>)
    ensures |bits| == k
  {
    if k == 0 then [] else MsbFirst(b / 2, k - 1) + [b % 2]
  }

  lemma HalveMod(b: nat, m: nat)
    requires m >= 1
    ensures b % (2 * m) == 2 * ((b / 2) % m) + b % 2
    ensures b / (2 * m) == (b / 2) / m
  {
    var q, r0 := b / 2, b % 2;
    var q2, r2 := q / m, q % m;
    assert q == m * q2 + r2;
    assert b == (2 * m) * q2 + (2 * r2 + r0);
    Arith.DivModUnique(b, 2 * m, q2, 2 * r2 + r0);
  }

  /** `BitOf` is the mask test: bit `k` of `b` is the parity of `b`
      divided by `2^k`, that is, whether `b & (1 << k)` is set. */
  lemma {:induction false} BitOfMask(b: nat, k: nat)
    ensures BitOf(b, k) == (b / Pow2(k)) % 2
  {
    if k > 0 {
      BitOfMask(b / 2, k - 1);
      HalveMod(b, Pow2(k - 1));
    }
  }

  /** Reading `k` bits of `b` most significant first and putting them back
      together gives `b` modulo `2^k`. */
  lemma {:induction false} FromMsbFirst(b: nat, k: nat)
    ensures FromBits(MsbFirst(b, k)) == b % Pow2(k)
  {
    if k > 0 {
      var bits := MsbFirst(b, k);
      assert bits[..k - 1] == MsbFirst(b / 2, k - 1);
      FromMsbFirst(b / 2, k - 1);
      HalveMod(b, Pow2(k - 1));
    }
  }

  /** `MsbFirst` lists the bits `BitOf` extracts, highest first. */
  lemma {:induction false} MsbFirstDigit(b: nat, k: nat, i: nat)
    requires i < k
    ensures MsbFirst(b, k)[i] == BitOf(b, k - 1 - i)
  {
    if i < k - 1 {
      MsbFirstDigit(b / 2, k - 1, i);
    }
  }

  /** The eight stream bits of byte `o`. */
  function ByteBits(s: seq<Bit>, o: nat): (w: seq<Bit>)
    requires 8 * o + 8 <= |s|
    ensures |w| == 8
  {
    s[8 * o .. 8 * o + 8]
  }

  /** Byte `o` of the image occupies stream bits `8 * o` to `8 * o + 7`. */
  lemma {:induction false} StreamBytes(exe: seq<Byte>, o: nat)
    requires o < |exe|
    ensures 8 * o + 8 <= |Stream(exe)|
    ensures ByteBits(Stream(exe), o) == MsbFirst(exe[o], 8)
  {
    if o > 0 {
      StreamBytes(exe[1..], o - 1);
      var s := Stream(exe);
      assert s == MsbFirst(exe[0], 8) + Stream(exe[1..]);
      assert s[8 * o .. 8 * o + 8] == Stream(exe[1..])[8 * (o - 1) .. 8 * (o - 1) + 8];
    }
  }

  lemma Pow2Byte()
    ensures Pow2(8) == 256
  {
  }

  /** The eight stream bits of byte `o`, read in order and reassembled most
      significant first, give the byte back: the reader loses nothing. */
  lemma StreamByte(exe: seq<Byte>, o: nat)
    requires o < |exe|
    ensures 8 * o + 8 <= |Stream(exe)|
    ensures FromBits(Stream(exe)[8 * o .. 8 * o + 8]) == exe[o]
  {
    StreamBytes(exe, o);
    FromMsbFirst(exe[o], 8);
    Pow2Byte();
    Arith.DivModUnique(exe[o], 256, 0, exe[o]);
  }
}
