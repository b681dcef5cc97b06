/** Bit strings and bytes. As in the source, a bit string is a string of the
    characters '0' and '1', and a byte is written as its eight binary digits,
    most significant first. */
module Bits {
  import opened Common

  newtype byte = x: int | 0 <= x < 256

  predicate IsBits(s: string)
  {
    forall i :: 0 <= i < |s| ==> s[i] == '0' || s[i] == '1'
  }

  function Pow2(n: nat): (p: nat)
    ensures p >= 1
  {
    if n == 0 then 1 else 2 * Pow2(n - 1)
  }

  /** `format(x, "0{width}b")` for `x < 2^width`: the `width` low binary
      digits of `x`, most significant first. */
  function ToBits(x: nat, width: nat): (s: string)
    ensures |s| == width && IsBits(s)
  {
    if width == 0 then [] else ToBits(x / 2, width - 1) + [if x % 2 == 0 then '0' else '1']
  }

  /** `int(s, 2)`: the number a bit string denotes, most significant bit first. */
  function BitsValue(s: string): nat
  {
    if s == [] then 0 else 2 * BitsValue(s[..|s| - 1]) + (if s[|s| - 1] == '1' then 1 else 0)
  }

  lemma {:induction false} BitsValueBound(s: string)
    ensures BitsValue(s) < Pow2(|s|)
    decreases |s|
  {
    if s != [] {
      BitsValueBound(s[..|s| - 1]);
    }
  }

  /** Writing the value of a bit string back in as many digits gives the
      bit string again. */
  lemma {:induction false} ToBitsValue(s: string)
    requires IsBits(s)
    ensures ToBits(BitsValue(s), |s|) == s
    decreases |s|
  {
    if s != [] {
      var p := s[..|s| - 1];
      ToBitsValue(p);
      var v := BitsValue(s);
      assert v / 2 == BitsValue(p);
      assert s == p + [s[|s| - 1]];
    }
  }

  /** Reading the digits of a number that fits in the width as a binary
      number gives the number back; for a byte in eight digits, the byte. */
  lemma {:induction false} ValueToBits(x: nat, width: nat)
    requires x < Pow2(width)
    ensures BitsValue(ToBits(x, width)) == x
    decreases width
  {
    if width > 0 {
      var s := ToBits(x, width);
      ValueToBits(x / 2, width - 1);
      assert s[..|s| - 1] == ToBits(x / 2, width - 1);
    }
  }

  /** `f"{byte:08b}"` */
  function ByteBits(b: byte): (s: string)
  {
    ToBits(b as nat, 8)
  }

  /** A byte written in eight digits reads back as the byte. */
  lemma ByteBitsValue(b: byte)
    ensures BitsValue(ByteBits(b)) == b as nat
  {
    assert Pow2(8) == 256;
    ValueToBits(b as nat, 8);
  }

  /** `''.join(f"{byte:08b}" for byte in byte_data)` */
  function BytesToBits(bs: seq<byte>): (s: string)
    ensures |s| == 8 * |bs| && IsBits(s)
  {
    if bs == [] then [] else BytesToBits(bs[..|bs| - 1]) + ByteBits(bs[|bs| - 1])
  }

  lemma BytesToBitsSnoc(bs: seq<byte>, b: byte)
    ensures BytesToBits(bs + [b]) == BytesToBits(bs) + ByteBits(b)
  {
    assert (bs + [b])[..|bs|] == bs;
  }

  lemma {:induction false} BytesToBitsAppend(a: seq<byte>, b: seq<byte>)
    ensures BytesToBits(a + b) == BytesToBits(a) + BytesToBits(b)
    decreases |b|
  {
    if b == [] {
      assert a + b == a;
    } else {
      var b' := b[..|b| - 1];
      assert (a + b)[..|a + b| - 1] == a + b';
      BytesToBitsAppend(a, b');
      ConcatAssoc(BytesToBits(a), BytesToBits(b'), ByteBits(b[|b| - 1]));
    }
  }

  /** Bit `i` of the unpacked bytes is digit `i % 8` of byte `i / 8`. */
  lemma {:induction false} BytesToBitsAt(bs: seq<byte>, i: nat)
    requires i < 8 * |bs|
    ensures BytesToBits(bs)[i] == ByteBits(bs[i / 8])[i % 8]
    decreases |bs|
  {
    var n := |bs| - 1;
    var p := bs[..n];
    assert BytesToBits(bs) == BytesToBits(p) + ByteBits(bs[n]);
    if i < 8 * n {
      BytesToBitsAt(p, i);
      assert p[i / 8] == bs[i / 8];
    } else {
      assert i / 8 == n;
      assert i % 8 == i - 8 * n;
    }
  }

  /** `unpack_bits(byte_data, padding)`: the bits of the bytes with the last
      `padding` of them cut off (Python's `s[:-padding]`, which also accepts
      a negative or an oversized padding). */
  function UnpackBits(byteData: seq<byte>, padding: int): (r: string)
  {
    var bitstring := BytesToBits(byteData);
    if padding == 0 then bitstring
    else if padding > 0 then bitstring[..Max(0, |bitstring| - padding)]
    else bitstring[..Min(|bitstring|, -padding)]
  }

  /** For a padding that fits in the data, `8 * len - padding` bits come out,
      bit `i` being digit `i % 8` (most significant first) of byte `i / 8`;
      padding 0 keeps every bit, and a padding larger than the data leaves
      nothing. */
  lemma UnpackBitsSpec(byteData: seq<byte>, padding: int)
    ensures 0 <= padding <= 8 * |byteData| ==>
              |UnpackBits(byteData, padding)| == 8 * |byteData| - padding &&
              forall i :: 0 <= i < 8 * |byteData| - padding ==>
                UnpackBits(byteData, padding)[i] == ByteBits(byteData[i / 8])[i % 8]
    ensures padding == 0 ==> UnpackBits(byteData, padding) == BytesToBits(byteData)
    ensures padding > 8 * |byteData| ==> UnpackBits(byteData, padding) == []
  {
    if 0 <= padding <= 8 * |byteData| {
      forall i | 0 <= i < 8 * |byteData| - padding
        ensures UnpackBits(byteData, padding)[i] == ByteBits(byteData[i / 8])[i % 8]
      {
        BytesToBitsAt(byteData, i);
      }
    }
  }

  /** `"0" * n` */
  function Zeros(n: nat): (z: string)
    ensures |z| == n && IsBits(z)
  {
    seq(n, _ => '0')
  }

  /** Cutting the padding off bits that were padded with as many zeros gives
      the bits back. */
  lemma UnpackPadded(bs: seq<byte>, bits: string, padding: nat)
    requires BytesToBits(bs) == bits + Zeros(padding)
    ensures UnpackBits(bs, padding) == bits
  {
    assert BytesToBits(bs)[..|bits|] == bits;
  }

  /** The "flush whole bytes" loop of the encoder: while eight bits or more
      are buffered, the first eight become one byte. What is written and
      what stays buffered together are the buffer, and fewer than eight bits
      stay. */
  method FlushWholeBytes(bitBuffer: string) returns (out: seq<byte>, rest: string)
    requires IsBits(bitBuffer)
    ensures BytesToBits(out) + rest == bitBuffer
    ensures |rest| < 8 && IsBits(rest)
    ensures |out| == |bitBuffer| / 8
  {
    out := [];
    rest := bitBuffer;
    while |rest| >= 8
      invariant BytesToBits(out) + rest == bitBuffer
      invariant IsBits(rest)
      decreases |rest|
    {
      var byteBits := rest[..8];
      BitsValueBound(byteBits);
      ToBitsValue(byteBits);
      var b := BitsValue(byteBits) as byte;
      assert BytesToBits(out + [b]) + rest[8..] == bitBuffer by {
        BytesToBitsSnoc(out, b);
        assert rest == byteBits + rest[8..];
        ConcatAssoc(BytesToBits(out), byteBits, rest[8..]);
      }
      out := out + [b];
      rest := rest[8..];
    }
    assert |BytesToBits(out)| + |rest| == |bitBuffer|;
  }
}
