/** Octets, Java's signed view of them, and the byte-array ordering of
    java.util.Arrays.compare(byte[], byte[]). */
module Bytes {

  /** One octet, as the low 8 bits of a Java `byte`. */
  type byte = x: int | 0 <= x < 256

  /** The value Java sees when it reads an octet through a (signed) `byte`. */
  function Signed(b: byte): (v: int)
    ensures -128 <= v < 128
    ensures v % 256 == b
  {
    if b < 128 then b else b - 256
  }

  /** The byte written by `OutputStream.write(int)`: the low 8 bits, also for
      negative arguments (Dafny's `%` is Euclidean, so this is two's complement). */
  function Low8(i: int): (b: byte)
    ensures (i - b) % 256 == 0
  {
    i % 256
  }

  /** Java `b | 0x20` on the octet `b` (the BER "constructed" bit), kept to 8 bits. */
  function WithConstructedBit(b: byte): (r: byte)
    ensures (r / 32) % 2 == 1
    ensures r == b || r == b + 32
  {
    if (b / 32) % 2 == 1 then b else b + 32
  }

  /** `Arrays.compare(a, b)` for byte arrays: the first differing position
      decides by `Byte.compare` (signed); when one array is a prefix of the
      other, the shorter comes first. */
  function Compare(a: seq<byte>, b: seq<byte>): int
    decreases |a|
  {
    if a == [] || b == [] then |a| - |b|
    else if a[0] != b[0] then Signed(a[0]) - Signed(b[0])
    else Compare(a[1..], b[1..])
  }

  /** "a sorts no later than b" under `Arrays::compare`. */
  predicate SignedLe(a: seq<byte>, b: seq<byte>) {
    Compare(a, b) <= 0
  }

  lemma {:induction false} CompareAntisymmetric(a: seq<byte>, b: seq<byte>)
    ensures Compare(a, b) == 0 <==> a == b
    ensures (Compare(a, b) < 0) == (Compare(b, a) > 0)
    decreases |a|
  {
    if a == [] || b == [] {
    } else if a[0] != b[0] {
      assert Signed(a[0]) != Signed(b[0]);
    } else {
      CompareAntisymmetric(a[1..], b[1..]);
      if a[1..] == b[1..] {
        assert a == [a[0]] + a[1..] && b == [b[0]] + b[1..];
      }
    }
  }

  /** `Arrays.compare` is decided by the first position where the arrays differ. */
  lemma {:induction false} CompareFirstDifference(a: seq<byte>, b: seq<byte>, k: nat)
    requires k < |a| && k < |b| && a[..k] == b[..k] && a[k] != b[k]
    ensures Compare(a, b) == Signed(a[k]) - Signed(b[k])
    decreases k
  {
    if k > 0 {
      assert a[0] == a[..k][0] == b[..k][0] == b[0];
      assert a[1..][..k - 1] == a[1..k] == b[1..k] == b[1..][..k - 1];
      CompareFirstDifference(a[1..], b[1..], k - 1);
    }
  }

  lemma SignedLeTotal(a: seq<byte>, b: seq<byte>)
    ensures SignedLe(a, b) || SignedLe(b, a)
  {
    CompareAntisymmetric(a, b);
  }

  lemma {:induction false} SignedLeTransitive(a: seq<byte>, b: seq<byte>, c: seq<byte>)
    requires SignedLe(a, b) && SignedLe(b, c)
    ensures SignedLe(a, c)
    decreases |a|
  {
    if a == [] || b == [] || c == [] {
    } else if a[0] != b[0] || b[0] != c[0] {
      if a[0] == b[0] {
        assert Signed(b[0]) < Signed(c[0]);
      } else {
        assert Signed(a[0]) < Signed(b[0]);
        if b[0] != c[0] {
          assert Signed(b[0]) < Signed(c[0]);
        }
      }
    } else {
      SignedLeTransitive(a[1..], b[1..], c[1..]);
    }
  }

  lemma SignedLeAntisymmetric(a: seq<byte>, b: seq<byte>)
    requires SignedLe(a, b) && SignedLe(b, a)
    ensures a == b
  {
    CompareAntisymmetric(a, b);
  }

  /** The order `Arrays::compare` gives is not the unsigned octet order of
      X.690 section 11.6: an octet with the high bit set sorts first. */
  lemma SignedOrderPutsHighOctetsFirst()
    ensures SignedLe([0x80], [0x01]) && Compare([0x80], [0x01]) < 0
  {
  }
}
