/** The length octets of a BER/DER encoding (X.690 section 8.1.3) as
    DerTree.len2lenlen and DerTree.writeLen produce them. */
module BerLength {
  import opened Bytes
  import opened Wrappers

  /** `Integer.MAX_VALUE`, which DerTree stores in `len` to mean "indefinite". */
  const INDEFINITE: int := 0x7FFF_FFFF

  /** Number of octets `writeLen` emits for a content length `len`. */
  function LenLen(len: nat): (k: nat)
    ensures 1 <= k <= 5
    ensures k == 1 <==> len < 128
  {
    if len < 128 then 1
    else if len < 0x100 then 2
    else if len < 0x1_0000 then 3
    else if len < 0x100_0000 then 4
    else 5
  }

  /** The octets `writeLen(os, len)` writes: the short form below 128,
      otherwise `0x80 | k` followed by the k big-endian octets of `len`. */
  function LengthOctets(len: nat): seq<byte> {
    if len < 128 then [len]
    else if len < 0x100 then [0x81, len % 256]
    else if len < 0x1_0000 then [0x82, (len / 0x100) % 256, len % 256]
    else if len < 0x100_0000 then [0x83, (len / 0x1_0000) % 256, (len / 0x100) % 256, len % 256]
    else [0x84, (len / 0x100_0000) % 256, (len / 0x1_0000) % 256, (len / 0x100) % 256, len % 256]
  }

  /** Big-endian unsigned value of an octet string. */
  function BigEndian(s: seq<byte>): nat {
    if s == [] then 0 else BigEndian(s[..|s| - 1]) * 256 + s[|s| - 1]
  }

  /** A BER length decoder (X.690 section 8.1.3): the definite short and
      long forms; `None` for the indefinite form and for truncated input.
      Yields the length and the number of octets it occupied. */
  function DecodeLength(s: seq<byte>): Option<(nat, nat)> {
    if s == [] then None
    else if s[0] < 128 then Some((s[0], 1))
    else if s[0] == 0x80 || s[0] == 0xFF then None
    else
      var k := s[0] - 0x80;
      if |s| < 1 + k then None else Some((BigEndian(s[1..1 + k]), 1 + k))
  }

  lemma LengthOctetsSize(len: nat)
    ensures |LengthOctets(len)| == LenLen(len)
  {
  }

  lemma BigEndianStep(s: seq<byte>, b: byte)
    ensures BigEndian(s + [b]) == BigEndian(s) * 256 + b
  {
    assert (s + [b])[..|s + [b]| - 1] == s;
  }

  lemma BigEndian4(a: byte, b: byte, c: byte, d: byte)
    ensures BigEndian([a]) == a
    ensures BigEndian([a, b]) == a * 0x100 + b
    ensures BigEndian([a, b, c]) == a * 0x1_0000 + b * 0x100 + c
    ensures BigEndian([a, b, c, d]) == a * 0x100_0000 + b * 0x1_0000 + c * 0x100 + d
  {
    BigEndianStep([], a);
    BigEndianStep([a], b);
    BigEndianStep([a, b], c);
    BigEndianStep([a, b, c], d);
    assert [] + [a] == [a];
    assert [a] + [b] == [a, b];
    assert [a, b] + [c] == [a, b, c];
    assert [a, b, c] + [d] == [a, b, c, d];
  }

  /** Splitting off the low octet: `n == (n / 256) * 256 + n % 256`. */
  lemma SplitLow(n: nat)
    ensures n == (n / 256) * 256 + n % 256
    ensures n / 256 * 256 <= n
  {
  }

  /** The octets after the first one of the long form, read big-endian, give `len` back. */
  lemma LongFormValue(len: nat)
    requires 128 <= len <= 0x7FFF_FFFF
    ensures BigEndian(LengthOctets(len)[1..]) == len
  {
    var o := LengthOctets(len)[1..];
    var q1 := len / 256;
    SplitLow(len);
    var q2 := q1 / 256;
    SplitLow(q1);
    var q3 := q2 / 256;
    SplitLow(q2);
    assert len / 0x100 == q1;
    assert len / 0x1_0000 == q2;
    assert len / 0x100_0000 == q3;
    if len < 0x100 {
      BigEndian4(len % 256, 0, 0, 0);
    } else if len < 0x1_0000 {
      assert q1 % 256 == q1;
      BigEndian4(q1, len % 256, 0, 0);
    } else if len < 0x100_0000 {
      assert q2 % 256 == q2;
      BigEndian4(q2, q1 % 256, len % 256, 0);
    } else {
      assert q3 % 256 == q3;
      BigEndian4(q3, q2 % 256, q1 % 256, len % 256);
    }
  }

  /** X.690 section 8.1.3 round trip: the decoder reads back exactly the
      length `writeLen` wrote, from exactly `len2lenlen(len)` octets, for every
      non-negative Java `int`, whatever follows. */
  lemma LengthRoundTrip(len: nat, rest: seq<byte>)
    requires len <= 0x7FFF_FFFF
    ensures DecodeLength(LengthOctets(len) + rest) == Some((len, LenLen(len)))
  {
    if len >= 128 {
      var s := LengthOctets(len) + rest;
      assert s[1..LenLen(len)] == LengthOctets(len)[1..];
      LongFormValue(len);
    }
  }

  /** DER's minimal-length rule (X.690 section 10.1): the long form is used
      only from 128 on, and its first length octet is never zero. */
  lemma LengthOctetsMinimal(len: nat)
    requires 128 <= len <= 0x7FFF_FFFF
    ensures LengthOctets(len)[0] == 0x80 + |LengthOctets(len)| - 1
    ensures LengthOctets(len)[1] != 0
  {
  }
}
