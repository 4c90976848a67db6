/** Big-endian decoding of the typed fields: 64-bit two's-complement
    integers, 32-bit floats (kept as their bit patterns) and complex numbers
    made of two such floats, real part first. Each decoder has an encoder as
    its partner, and the two are proved inverse. */
module BigEndian {
  import opened RawReads

  /** 256 to the power `n`: the number of values `n` bytes can hold. */
  function Pow256(n: nat): (p: nat)
    ensures p >= 1
  {
    if n == 0 then 1 else 256 * Pow256(n - 1)
  }

  /** The unsigned value of a byte string, most significant byte first. */
  function BeValue(b: seq<Byte>): (v: nat)
  {
    if b == [] then 0 else BeValue(b[..|b| - 1]) * 256 + b[|b| - 1]
  }

  /** The `len`-byte big-endian encoding of `v`. */
  function BeBytes(v: nat, len: nat): (b: seq<Byte>)
    ensures |b| == len
  {
    if len == 0 then [] else BeBytes(v / 256, len - 1) + [v % 256]
  }

  /** `n` bytes hold a value below 256 to the power `n`. */
  lemma {:induction false} BeValueBound(b: seq<Byte>)
    ensures BeValue(b) < Pow256(|b|)
  {
    if b != [] {
      BeValueBound(b[..|b| - 1]);
    }
  }

  /** The first byte is the most significant: it weighs 256 to the power of
      the number of bytes after it. */
  lemma {:induction false} BeValueFront(b: seq<Byte>)
    requires b != []
    ensures BeValue(b) == b[0] * Pow256(|b| - 1) + BeValue(b[1..])
  {
    if |b| > 1 {
      var init := b[..|b| - 1];
      BeValueFront(init);
      assert init[1..] == b[1..][..|b| - 2];
      calc {
        BeValue(b);
        BeValue(init) * 256 + b[|b| - 1];
        (b[0] * Pow256(|b| - 2) + BeValue(init[1..])) * 256 + b[|b| - 1];
        b[0] * (Pow256(|b| - 2) * 256) + (BeValue(init[1..]) * 256 + b[|b| - 1]);
        b[0] * Pow256(|b| - 1) + BeValue(b[1..]);
      }
    } else {
      assert b[..0] == [];
    }
  }

  /** The first byte of `b` fixes the range of its value: between that byte
      and one more, times 256 to the power of the bytes after it. */
  lemma LeadingByte(b: seq<Byte>)
    requires b != []
    ensures b[0] * Pow256(|b| - 1) <= BeValue(b) < (b[0] as int + 1) * Pow256(|b| - 1)
  {
    BeValueFront(b);
    BeValueBound(b[1..]);
  }

  /** Encoding then decoding gives the value back, for every value that fits. */
  lemma {:induction false} BeValueOfBytes(v: nat, len: nat)
    requires v < Pow256(len)
    ensures BeValue(BeBytes(v, len)) == v
  {
    if len > 0 {
      var b := BeBytes(v, len);
      assert b[..len - 1] == BeBytes(v / 256, len - 1);
      assert v / 256 < Pow256(len - 1);
      BeValueOfBytes(v / 256, len - 1);
      assert BeValue(b) == (v / 256) * 256 + v % 256;
    }
  }

  /** Decoding then encoding gives the bytes back. */
  lemma {:induction false} BeBytesOfValue(b: seq<Byte>)
    ensures BeBytes(BeValue(b), |b|) == b
  {
    if b != [] {
      var init := b[..|b| - 1];
      BeBytesOfValue(init);
      assert b == init + [b[|b| - 1]];
    }
  }

  const TwoTo63: int := 0x8000_0000_0000_0000
  const TwoTo64: int := 0x1_0000_0000_0000_0000

  /** The integers an `i64` holds. */
  type I64 = v: int | -TwoTo63 <= v < TwoTo63

  /** The bit pattern of an IEEE-754 single-precision float. */
  type F32Bits = x: nat | x < 0x1_0000_0000

  /** A complex number of two single-precision floats, as bit patterns. */
  datatype Complex32 = Complex32(re: F32Bits, im: F32Bits)

  /** The two's-complement value of 8 big-endian bytes: the integer that is
      congruent to their unsigned value modulo 2^64, negative exactly when
      the sign bit (the top bit of the first byte) is set. */
  function ReadI64(b: seq<Byte>): (v: I64)
    requires |b| == 8
    ensures (BeValue(b) - v) % TwoTo64 == 0
    ensures v < 0 <==> b[0] >= 0x80
  {
    BeValueBound(b);
    LeadingByte(b);
    assert Pow256(7) == 0x100_0000_0000_0000;
    var u := BeValue(b);
    if u < TwoTo63 then u else u - TwoTo64
  }

  /** The 8-byte big-endian two's-complement encoding of `v`. */
  function WriteI64(v: I64): (b: seq<Byte>)
    ensures |b| == 8
  {
    BeBytes(if v >= 0 then v else v + TwoTo64, 8)
  }

  /** The bit pattern of a float stored as 4 big-endian bytes: the first
      byte is its top 8 bits and the last byte its low 8 bits. */
  function ReadF32(b: seq<Byte>): (x: F32Bits)
    requires |b| == 4
    ensures b[0] * 0x100_0000 <= x < (b[0] as int + 1) * 0x100_0000
    ensures x % 0x100 == b[3]
  {
    BeValueBound(b);
    LeadingByte(b);
    assert Pow256(3) == 0x100_0000;
    BeValue(b)
  }

  /** The 4-byte big-endian encoding of a float's bit pattern. */
  function WriteF32(x: F32Bits): (b: seq<Byte>)
    ensures |b| == 4
  {
    BeBytes(x, 4)
  }

  /** A complex number stored as 8 big-endian bytes: the real part's 4 bytes,
      then the imaginary part's. */
  function ReadC64(b: seq<Byte>): (c: Complex32)
    requires |b| == 8
    ensures b[0] * 0x100_0000 <= c.re < (b[0] as int + 1) * 0x100_0000
    ensures b[4] * 0x100_0000 <= c.im < (b[4] as int + 1) * 0x100_0000
  {
    Complex32(ReadF32(b[..4]), ReadF32(b[4..]))
  }

  /** The 8-byte big-endian encoding of a complex number. */
  function WriteC64(c: Complex32): (b: seq<Byte>)
    ensures |b| == 8
  {
    WriteF32(c.re) + WriteF32(c.im)
  }

  /** Decoding an encoded integer gives it back. */
  lemma I64RoundTrip(v: I64)
    ensures ReadI64(WriteI64(v)) == v
  {
    BeValueOfBytes(if v >= 0 then v else v + TwoTo64, 8);
  }

  /** Every 8 bytes are the encoding of the integer they decode to. */
  lemma I64Bytes(b: seq<Byte>)
    requires |b| == 8
    ensures WriteI64(ReadI64(b)) == b
  {
    BeValueBound(b);
    BeBytesOfValue(b);
  }

  /** Decoding an encoded float bit pattern gives it back, and every 4 bytes
      are the encoding of the pattern they decode to. */
  lemma F32RoundTrip(x: F32Bits, b: seq<Byte>)
    requires |b| == 4
    ensures ReadF32(WriteF32(x)) == x
    ensures WriteF32(ReadF32(b)) == b
  {
    BeValueOfBytes(x, 4);
    BeBytesOfValue(b);
  }

  /** The real part comes from the first 4 bytes and the imaginary part from
      the last 4: decoding an encoded pair gives it back, and every 8 bytes
      are the encoding of the pair they decode to. */
  lemma C64RoundTrip(c: Complex32, b: seq<Byte>)
    requires |b| == 8
    ensures ReadC64(WriteC64(c)) == c
    ensures WriteC64(ReadC64(b)) == b
  {
    var w := WriteC64(c);
    assert w[..4] == WriteF32(c.re) && w[4..] == WriteF32(c.im);
    F32RoundTrip(c.re, b[..4]);
    F32RoundTrip(c.im, b[4..]);
    assert b[..4] + b[4..] == b;
  }

  /** The bytes 3F 80 00 00 are the bit pattern of the float 1.0, and
      C0 00 00 00 that of -2.0; a pair of them decodes as 1.0 - 2.0i. */
  lemma ComplexExample()
    ensures ReadF32([0x3F, 0x80, 0x00, 0x00]) == 0x3F80_0000
    ensures ReadC64([0x3F, 0x80, 0x00, 0x00, 0xC0, 0x00, 0x00, 0x00]) == Complex32(0x3F80_0000, 0xC000_0000)
  {
    var one: seq<Byte> := [0x3F, 0x80, 0x00, 0x00];
    var minusTwo: seq<Byte> := [0xC0, 0x00, 0x00, 0x00];
    assert BeValue([0x3F]) == 0x3F by {
      assert [0x3F][..0] == [];
    }
    assert BeValue(one[..2]) == 0x3F80 by {
      assert one[..2][..1] == [0x3F];
    }
    assert BeValue(one[..3]) == 0x3F_8000 by {
      assert one[..3][..2] == one[..2];
    }
    assert BeValue(one) == 0x3F80_0000 by {
      assert one[..3] == one[..|one| - 1];
    }
    assert BeValue([0xC0]) == 0xC0 by {
      assert [0xC0][..0] == [];
    }
    assert BeValue(minusTwo[..2]) == 0xC000 by {
      assert minusTwo[..2][..1] == [0xC0];
    }
    assert BeValue(minusTwo[..3]) == 0xC0_0000 by {
      assert minusTwo[..3][..2] == minusTwo[..2];
    }
    assert BeValue(minusTwo) == 0xC000_0000 by {
      assert minusTwo[..3] == minusTwo[..|minusTwo| - 1];
    }
    var b: seq<Byte> := [0x3F, 0x80, 0x00, 0x00, 0xC0, 0x00, 0x00, 0x00];
    assert b[..4] == one && b[4..] == minusTwo;
  }
}
