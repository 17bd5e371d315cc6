/** Content octets produced by the DerTree creators: INTEGER and ENUMERATED
    (X.690 section 8.3), BOOLEAN, BIT STRING (section 8.6.2), and the tag
    TIME chooses; together with the universal tag numbers they use. */
module BerContent {
  import opened Bytes

  /** A Java `int`. */
  type int32 = x: int | -0x8000_0000 <= x < 0x8000_0000

  // Universal and class tags (X.690 section 8.1.2 / X.680 section 8.4),
  // as DerValue defines them.
  const TAG_BOOLEAN: byte := 0x01
  const TAG_INTEGER: byte := 0x02
  const TAG_BIT_STRING: byte := 0x03
  const TAG_OCTET_STRING: byte := 0x04
  const TAG_NULL: byte := 0x05
  const TAG_OBJECT_ID: byte := 0x06
  const TAG_ENUMERATED: byte := 0x0A
  const TAG_UTF8_STRING: byte := 0x0C
  const TAG_PRINTABLE_STRING: byte := 0x13
  const TAG_T61_STRING: byte := 0x14
  const TAG_IA5_STRING: byte := 0x16
  const TAG_UTC_TIME: byte := 0x17
  const TAG_GENERALIZED_TIME: byte := 0x18
  const TAG_GENERAL_STRING: byte := 0x1B
  const TAG_UNIVERSAL_STRING: byte := 0x1C
  const TAG_BMP_STRING: byte := 0x1E
  const TAG_SEQUENCE: byte := 0x30
  const TAG_SET: byte := 0x31
  const TAG_CONTEXT: byte := 0x80
  const TAG_APPLICATION: byte := 0x40

  /** `(byte)(TAG_CONTEXT + 0x20 + i)`: a constructed context-specific tag. */
  function ContextTag(i: int32): (t: byte)
    ensures 0 <= i <= 31 ==> t == 0xA0 + i
  {
    Low8(0x80 + 0x20 + i)
  }

  /** `(byte)(TAG_APPLICATION + 0x20 + i)`: a constructed application tag. */
  function ApplicationTag(i: int32): (t: byte)
    ensures 0 <= i <= 31 ==> t == 0x60 + i
  {
    Low8(0x40 + 0x20 + i)
  }

  /** Java `i >>> k` for an `int` and k in {8, 16, 24}: the shift of the
      32-bit pattern of `i`, filled with zeros. */
  function Ushr(i: int32, k: nat): int
    requires k == 8 || k == 16 || k == 24
  {
    var u := i % 0x1_0000_0000;
    if k == 8 then u / 0x100 else if k == 16 then u / 0x1_0000 else u / 0x100_0000
  }

  /** `DerTree.bytes(int)`: 1 to 4 octets, chosen by the range `i` falls in. */
  function IntBytes(i: int32): seq<byte> {
    if -0x80 <= i < 0x80 then [Low8(i)]
    else if -0x8000 <= i < 0x8000 then [Low8(Ushr(i, 8)), Low8(i)]
    else if -0x80_0000 <= i < 0x80_0000 then [Low8(Ushr(i, 16)), Low8(Ushr(i, 8)), Low8(i)]
    else [Low8(Ushr(i, 24)), Low8(Ushr(i, 16)), Low8(Ushr(i, 8)), Low8(i)]
  }

  /** `BigInteger.toByteArray()`: the shortest big-endian two's-complement
      octet string of `i`, recursively splitting off the low octet. */
  function BigIntegerBytes(i: int): seq<byte>
    decreases if i < 0 then -i else i
  {
    if -0x80 <= i < 0x80 then [i % 256]
    else BigIntegerBytes(i / 256) + [i % 256]
  }

  /** The integer a big-endian two's-complement octet string denotes
      (X.690 section 8.3.3). */
  function TwosValue(s: seq<byte>): int
    requires |s| >= 1
  {
    if |s| == 1 then Signed(s[0])
    else TwosValue(s[..|s| - 1]) * 256 + s[|s| - 1]
  }

  /** X.690 section 8.3.2: the first nine bits of an INTEGER's contents
      are neither all ones nor all zeros. */
  predicate Minimal(s: seq<byte>) {
    |s| >= 1 &&
    (|s| >= 2 ==> !(s[0] == 0x00 && s[1] < 0x80) && !(s[0] == 0xFF && s[1] >= 0x80))
  }

  lemma {:induction false} BigIntegerBytesValue(i: int)
    ensures |BigIntegerBytes(i)| >= 1
    ensures TwosValue(BigIntegerBytes(i)) == i
    decreases if i < 0 then -i else i
  {
    if -0x80 <= i < 0x80 {
    } else {
      var p := BigIntegerBytes(i / 256);
      BigIntegerBytesValue(i / 256);
      var s := p + [i % 256];
      assert s[..|s| - 1] == p;
    }
  }

  lemma {:induction false} BigIntegerBytesMinimal(i: int)
    ensures Minimal(BigIntegerBytes(i))
    decreases if i < 0 then -i else i
  {
    if -0x80 <= i < 0x80 {
    } else {
      var p := BigIntegerBytes(i / 256);
      BigIntegerBytesMinimal(i / 256);
      var s := p + [i % 256];
      assert i == (i / 256) * 256 + i % 256;
      if -0x80 <= i / 256 < 0x80 {
        assert s == [(i / 256) % 256, i % 256];
        if i / 256 == 0 {
          assert s[1] == i;
        } else if i / 256 == -1 {
          assert s[0] == 0xFF && s[1] == i + 256;
        }
      } else {
        assert p == BigIntegerBytes(i / 256 / 256) + [(i / 256) % 256];
        BigIntegerBytesValue(i / 256 / 256);
        assert s[0] == p[0] && s[1] == p[1];
      }
    }
  }

  /** Successive division by 256 agrees with one division by the product. */
  lemma DivSteps(i: int)
    ensures i / 256 / 256 == i / 0x1_0000
    ensures i / 256 / 256 / 256 == i / 0x100_0000
  {
    var q1 := i / 256;
    var q2 := q1 / 256;
    var q3 := q2 / 256;
    assert i == q1 * 256 + i % 256;
    assert q1 == q2 * 256 + q1 % 256;
    assert q2 == q3 * 256 + q2 % 256;
    assert i == q2 * 0x1_0000 + (q1 % 256) * 256 + i % 256;
    assert i == q3 * 0x100_0000 + (q2 % 256) * 0x1_0000 + (q1 % 256) * 256 + i % 256;
  }

  /** The unsigned shifts of `bytes(int)` pick the same octets as floor division. */
  lemma UshrOctets(i: int32)
    ensures Low8(Ushr(i, 8)) == (i / 0x100) % 256
    ensures Low8(Ushr(i, 16)) == (i / 0x1_0000) % 256
    ensures Low8(Ushr(i, 24)) == (i / 0x100_0000) % 256
  {
    ShiftedOctet(i, 0x100, 0x100_0000);
    ShiftedOctet(i, 0x1_0000, 0x1_0000);
    ShiftedOctet(i, 0x100_0000, 0x100);
  }

  /** Dropping the sign (adding 2^32) does not change the octet that a
      shift by a whole number of octets brings to the bottom. */
  lemma ShiftedOctet(i: int32, d: int, q: int)
    requires (d == 0x100 && q == 0x100_0000) || (d == 0x1_0000 && q == 0x1_0000) || (d == 0x100_0000 && q == 0x100)
    ensures ((i % 0x1_0000_0000) / d) % 256 == (i / d) % 256
  {
    if i < 0 {
      assert i % 0x1_0000_0000 == i + d * q;
      DivShift(i, d, q);
      assert q == 256 * (q / 256);
      ModShift(i / d, q / 256);
    }
  }

  lemma DivShift(i: int, d: int, q: int)
    requires (d == 0x100 && q == 0x100_0000) || (d == 0x1_0000 && q == 0x1_0000) || (d == 0x100_0000 && q == 0x100)
    ensures (i + d * q) / d == i / d + q
  {
    if d == 0x100 {
      assert (i + 0x1_0000_0000) / 0x100 == i / 0x100 + 0x100_0000;
    } else if d == 0x1_0000 {
      assert (i + 0x1_0000_0000) / 0x1_0000 == i / 0x1_0000 + 0x1_0000;
    } else {
      assert (i + 0x1_0000_0000) / 0x100_0000 == i / 0x100_0000 + 0x100;
    }
  }

  lemma ModShift(x: int, m: int)
    ensures (x + 256 * m) % 256 == x % 256
  {
    assert x == 256 * (x / 256) + x % 256;
    assert x + 256 * m == 256 * (x / 256 + m) + x % 256;
  }

  /** `INTEGER(i)` and `INTEGER(BigInteger.valueOf(i))` have the same
      contents for every `int`. */
  lemma IntBytesIsBigIntegerBytes(i: int32)
    ensures IntBytes(i) == BigIntegerBytes(i)
  {
    UshrOctets(i);
    DivSteps(i);
    if -0x80 <= i < 0x80 {
    } else if -0x8000 <= i < 0x8000 {
      assert BigIntegerBytes(i) == BigIntegerBytes(i / 256) + [i % 256];
    } else if -0x80_0000 <= i < 0x80_0000 {
      assert BigIntegerBytes(i) == BigIntegerBytes(i / 256) + [i % 256];
      assert BigIntegerBytes(i / 256) == BigIntegerBytes(i / 256 / 256) + [(i / 256) % 256];
    } else {
      assert BigIntegerBytes(i) == BigIntegerBytes(i / 256) + [i % 256];
      assert BigIntegerBytes(i / 256) == BigIntegerBytes(i / 256 / 256) + [(i / 256) % 256];
      assert BigIntegerBytes(i / 256 / 256) == BigIntegerBytes(i / 256 / 256 / 256) + [(i / 256 / 256) % 256];
    }
  }

  /** `bytes(int)` is a correct and minimal X.690 INTEGER encoding. */
  lemma IntBytesCorrect(i: int32)
    ensures |IntBytes(i)| <= 4
    ensures Minimal(IntBytes(i))
    ensures TwosValue(IntBytes(i)) == i
  {
    IntBytesIsBigIntegerBytes(i);
    BigIntegerBytesValue(i);
    BigIntegerBytesMinimal(i);
  }

  /** BOOLEAN's contents as written: `new byte[b ? 0xff : 0]`, an array of
      255 zero octets for true and an empty one for false. */
  function BooleanContent(b: bool): (c: seq<byte>)
    ensures |c| == (if b then 255 else 0)
    ensures forall k :: 0 <= k < |c| ==> c[k] == 0
  {
    seq(if b then 0xFF else 0, _ => 0)
  }

  /** BIT STRING's contents (X.690 section 8.6.2): an initial octet of zero
      unused bits, then the bits. */
  function BitStringContent(bits: seq<byte>): (c: seq<byte>)
    ensures |c| == |bits| + 1 && c[0] == 0 && c[1..] == bits
  {
    [0] + bits
  }

  /** 1950-01-01T00:00:00Z and 2050-01-01T00:00:00Z in seconds since the epoch. */
  const I1950: int := -631_152_000
  const I2050: int := 2_524_608_000

  /** The tag TIME chooses for an instant `epochSecond` seconds after the epoch:
      UTCTime inside [1950, 2050), GeneralizedTime outside. */
  function TimeTag(epochSecond: int): (t: byte)
    ensures t == TAG_UTC_TIME <==> I1950 <= epochSecond < I2050
    ensures t == TAG_UTC_TIME || t == TAG_GENERALIZED_TIME
  {
    if epochSecond < I1950 || !(epochSecond < I2050) then TAG_GENERALIZED_TIME
    else TAG_UTC_TIME
  }
}
