/** The bit layout of the compressed data: code bits are packed into bytes
    starting at the lowest bit, a full byte is written as soon as it holds
    eight bits, and a partial last byte is written with its unused high bits
    clear. The decoder reads each byte's bits from bit 0 up. */
module BitPacking {
  import opened Basics

  function Pow2(n: nat): nat
  {
    if n == 0 then 1 else 2 * Pow2(n - 1)
  }

  /** Bit i of b: `(b >> i) & 1` in C. */
  function Bit(b: nat, i: nat): bool
  {
    if i == 0 then b % 2 == 1 else Bit(b / 2, i - 1)
  }

  lemma {:induction false} Pow2Monotone(m: nat, n: nat)
    requires m <= n
    ensures Pow2(m) <= Pow2(n)
    decreases n
  {
    if m < n {
      Pow2Monotone(m, n - 1);
    }
  }

  /** A number below 2^p has no bit set at p or above. */
  lemma {:induction false} BitAbove(b: nat, p: nat, j: nat)
    requires b < Pow2(p) && p <= j
    ensures !Bit(b, j)
    decreases j
  {
    if j > 0 {
      if p == 0 {
        assert b == 0;
        BitAbove(b / 2, 0, j - 1);
      } else {
        BitAbove(b / 2, p - 1, j - 1);
      }
    }
  }

  /** Setting bit p of a number below 2^p is adding 2^p: `b |= 1 << p`. */
  lemma {:induction false} BitOfSetBit(b: nat, p: nat, j: nat)
    requires b < Pow2(p)
    ensures Bit(b + Pow2(p), j) == (j == p || Bit(b, j))
    decreases p
  {
    if p == 0 {
      if j > 0 {
        BitAbove(0, 0, j - 1);
      }
    } else if j > 0 {
      assert (b + Pow2(p)) / 2 == b / 2 + Pow2(p - 1);
      BitOfSetBit(b / 2, p - 1, j - 1);
    }
  }

  /** The encode loop of compressFile, run over the concatenated code bits:
      `buffer` holds the `pos` bits gathered so far; a '1' sets bit `pos`; at
      eight bits the buffer is written and cleared; at the end a buffer
      holding any bits is written. */
  function PackBits(bits: seq<bool>, buffer: nat, pos: nat): (out: seq<Byte>)
    requires pos < 8 && buffer < Pow2(pos)
    decreases |bits|
  {
    if |bits| == 0 then
      Pow2Monotone(pos, 8);
      if pos > 0 then [buffer] else []
    else
      var next := if bits[0] then buffer + Pow2(pos) else buffer;
      Pow2Monotone(pos + 1, 8);
      if pos + 1 == 8 then [next] + PackBits(bits[1..], 0, 0)
      else PackBits(bits[1..], next, pos + 1)
  }

  /** Pushing one bit at position `pos` of a buffer holding `pos` bits sets
      that bit as pushed and leaves the others. */
  lemma PushBit(buffer: nat, pos: nat, bit: bool, next: nat)
    requires buffer < Pow2(pos)
    requires next == if bit then buffer + Pow2(pos) else buffer
    ensures next < Pow2(pos + 1)
    ensures forall j :: Bit(next, j) == (if j == pos then bit else Bit(buffer, j))
  {
    forall j
      ensures Bit(next, j) == (if j == pos then bit else Bit(buffer, j))
    {
      if bit {
        BitOfSetBit(buffer, pos, j);
      }
      if j == pos {
        BitAbove(buffer, pos, j);
      }
    }
    Pow2Monotone(pos, pos + 1);
  }

  /** Bit j of the output (bit j % 8 of byte j / 8) is the j-th bit pushed,
      counting the `pos` bits already in the buffer; the bits after the last
      one pushed are clear; the output is as long as the bits need. */
  lemma {:induction false} PackBitsLayout(bits: seq<bool>, buffer: nat, pos: nat)
    requires pos < 8 && buffer < Pow2(pos)
    ensures |PackBits(bits, buffer, pos)| == (pos + |bits| + 7) / 8
    ensures forall j :: 0 <= j < pos + |bits| ==>
      Bit(PackBits(bits, buffer, pos)[j / 8], j % 8) == (if j < pos then Bit(buffer, j) else bits[j - pos])
    ensures forall j :: pos + |bits| <= j < 8 * |PackBits(bits, buffer, pos)| ==>
      !Bit(PackBits(bits, buffer, pos)[j / 8], j % 8)
    decreases |bits|
  {
    if |bits| == 0 {
      EmptyLayout(buffer, pos);
    } else {
      var next := if bits[0] then buffer + Pow2(pos) else buffer;
      PushBit(buffer, pos, bits[0], next);
      if pos + 1 == 8 {
        PackBitsLayout(bits[1..], 0, 0);
        FlushLayout(bits, buffer, next);
      } else {
        PackBitsLayout(bits[1..], next, pos + 1);
        NoFlushLayout(bits, buffer, pos, next);
      }
    }
  }

  /** The end of PackBitsLayout: a buffer holding bits is written out, and
      its bits above `pos` are clear. */
  lemma EmptyLayout(buffer: nat, pos: nat)
    requires pos < 8 && buffer < Pow2(pos)
    ensures |PackBits([], buffer, pos)| == (pos + 7) / 8
    ensures forall j :: 0 <= j < pos ==> Bit(PackBits([], buffer, pos)[j / 8], j % 8) == Bit(buffer, j)
    ensures forall j :: pos <= j < 8 * |PackBits([], buffer, pos)| ==> !Bit(PackBits([], buffer, pos)[j / 8], j % 8)
  {
    var out := PackBits([], buffer, pos);
    forall j | pos <= j < 8 * |out|
      ensures !Bit(out[j / 8], j % 8)
    {
      BitAbove(buffer, pos, j);
    }
  }

  /** The step of PackBitsLayout where the bit joins the buffer and the
      rest is packed on from there. */
  lemma NoFlushLayout(bits: seq<bool>, buffer: nat, pos: nat, next: nat)
    requires |bits| > 0 && pos + 1 < 8 && buffer < Pow2(pos)
    requires next == if bits[0] then buffer + Pow2(pos) else buffer
    requires forall j :: Bit(next, j) == (if j == pos then bits[0] else Bit(buffer, j))
    requires next < Pow2(pos + 1)
    requires var rest := PackBits(bits[1..], next, pos + 1);
      && |rest| == (pos + |bits| + 7) / 8
      && forall j :: 0 <= j < pos + |bits| ==>
        Bit(rest[j / 8], j % 8) == (if j < pos + 1 then Bit(next, j) else bits[1..][j - (pos + 1)])
    ensures |PackBits(bits, buffer, pos)| == (pos + |bits| + 7) / 8
    ensures forall j :: 0 <= j < pos + |bits| ==>
      Bit(PackBits(bits, buffer, pos)[j / 8], j % 8) == (if j < pos then Bit(buffer, j) else bits[j - pos])
  {
    var out := PackBits(bits, buffer, pos);
    assert out == PackBits(bits[1..], next, pos + 1);
    forall j | 0 <= j < pos + |bits|
      ensures Bit(out[j / 8], j % 8) == (if j < pos then Bit(buffer, j) else bits[j - pos])
    {
      if j > pos {
        assert bits[1..][j - (pos + 1)] == bits[j - pos];
      }
    }
  }

  /** The step of PackBitsLayout where the eighth bit fills the buffer and
      the byte is written before the rest is packed. */
  lemma FlushLayout(bits: seq<bool>, buffer: nat, next: nat)
    requires |bits| > 0 && buffer < Pow2(7)
    requires next == if bits[0] then buffer + Pow2(7) else buffer
    requires forall j :: Bit(next, j) == (if j == 7 then bits[0] else Bit(buffer, j))
    requires next < Pow2(8)
    requires var rest := PackBits(bits[1..], 0, 0);
      && |rest| == (|bits| - 1 + 7) / 8
      && (forall j :: 0 <= j < |bits| - 1 ==> Bit(rest[j / 8], j % 8) == bits[1..][j])
      && (forall j :: |bits| - 1 <= j < 8 * |rest| ==> !Bit(rest[j / 8], j % 8))
    ensures |PackBits(bits, buffer, 7)| == (7 + |bits| + 7) / 8
    ensures forall j :: 0 <= j < 7 + |bits| ==>
      Bit(PackBits(bits, buffer, 7)[j / 8], j % 8) == (if j < 7 then Bit(buffer, j) else bits[j - 7])
    ensures forall j :: 7 + |bits| <= j < 8 * |PackBits(bits, buffer, 7)| ==>
      !Bit(PackBits(bits, buffer, 7)[j / 8], j % 8)
  {
    var out := PackBits(bits, buffer, 7);
    var rest := PackBits(bits[1..], 0, 0);
    assert out == [next] + rest;
    forall j | 0 <= j < 7 + |bits|
      ensures Bit(out[j / 8], j % 8) == (if j < 7 then Bit(buffer, j) else bits[j - 7])
    {
      if j >= 8 {
        assert out[j / 8] == rest[(j - 8) / 8];
        assert j % 8 == (j - 8) % 8;
        assert bits[1..][j - 8] == bits[j - 7];
      } else {
        assert out[j / 8] == next && j % 8 == j;
      }
    }
    forall j | 7 + |bits| <= j < 8 * |out|
      ensures !Bit(out[j / 8], j % 8)
    {
      assert out[j / 8] == rest[(j - 8) / 8];
      assert j % 8 == (j - 8) % 8;
    }
  }

  /** The packed data stream for a bit string. */
  function Pack(bits: seq<bool>): (out: seq<Byte>)
    ensures |out| == (|bits| + 7) / 8
    ensures forall j :: 0 <= j < |bits| ==> Bit(out[j / 8], j % 8) == bits[j]
    ensures forall j :: |bits| <= j < 8 * |out| ==> !Bit(out[j / 8], j % 8)
  {
    PackBitsLayout(bits, 0, 0);
    PackBits(bits, 0, 0)
  }

  /** The bits of one byte, lowest first. */
  function ByteBits(b: Byte): seq<bool>
  {
    [Bit(b, 0), Bit(b, 1), Bit(b, 2), Bit(b, 3), Bit(b, 4), Bit(b, 5), Bit(b, 6), Bit(b, 7)]
  }

  /** The decoder's view of the data bytes: for each byte in turn, its eight
      bits from bit 0 up. */
  function Unpack(data: seq<Byte>): (bits: seq<bool>)
    ensures |bits| == 8 * |data|
    ensures forall j :: 0 <= j < |bits| ==> bits[j] == Bit(data[j / 8], j % 8)
  {
    if |data| == 0 then []
    else
      var rest := Unpack(data[1..]);
      var bits := ByteBits(data[0]) + rest;
      assert forall j :: 8 <= j < |bits| ==> bits[j] == Bit(data[j / 8], j % 8) by {
        forall j | 8 <= j < |bits|
          ensures bits[j] == Bit(data[j / 8], j % 8)
        {
          var q := j / 8 - 1;
          assert j - 8 == 8 * q + j % 8;
          assert (j - 8) / 8 == q && (j - 8) % 8 == j % 8;
          assert bits[j] == rest[j - 8];
          assert data[1..][q] == data[j / 8];
        }
      }
      bits
  }

  /** Unpacking the packed stream gives back the bits, followed by clear
      padding bits up to the byte boundary. */
  lemma UnpackPack(bits: seq<bool>)
    ensures Unpack(Pack(bits)) == bits + Padding(|Unpack(Pack(bits))| - |bits|)
  {
    var out := Unpack(Pack(bits));
    var pad := Padding(|out| - |bits|);
    assert |out| == |bits + pad|;
    forall j | 0 <= j < |out|
      ensures out[j] == (bits + pad)[j]
    {
    }
  }

  /** Dropping packed bytes from the end drops whole bytes of bits: what is
      left unpacks to a proper prefix of the bit stream, with no padding. */
  lemma UnpackTruncated(bits: seq<bool>, k: nat)
    requires k < |Pack(bits)|
    ensures 8 * k < |bits|
    ensures Unpack(Pack(bits)[..k]) == bits[..8 * k]
  {
    var out := Unpack(Pack(bits)[..k]);
    forall j | 0 <= j < |out|
      ensures out[j] == bits[j]
    {
      assert j / 8 < k;
    }
  }

  function Padding(n: nat): seq<bool>
  {
    seq(n, _ => false)
  }
}
