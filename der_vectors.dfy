/** The byte-exact outputs DerTreeTest expects, derived from the model:
    the SET OF ordering, implicit context tagging of a wrapped encoding,
    `startIndefinite` around definite members, and `INTEGER(int)` against
    `INTEGER(BigInteger)`. */
module DerVectors {
  import opened Wrappers
  import opened Bytes
  import opened BerLength
  import opened BerContent
  import opened SetOrder
  import opened BerValue
  import opened Streams
  import opened DerTrees

  lemma Concat3(x: seq<byte>, y: seq<byte>, z: seq<byte>)
    ensures Concat([x, y, z]) == x + y + z
  {
    assert [x, y, z][..2] == [x, y];
    assert [x, y][..1] == [x];
    assert Concat([x, y, z]) == Concat([x, y]) + z;
    assert Concat([x, y]) == Concat([x]) + y;
    assert Concat([x]) == Concat([]) + x;
  }

  /** Three encodings already in `Arrays::compare` order, in any arrangement,
      sort to that order. */
  lemma SortOfThree(s: seq<seq<byte>>, p: seq<byte>, q: seq<byte>, r: seq<byte>)
    requires Compare(p, q) < 0 && Compare(q, r) < 0 && Compare(p, r) < 0
    requires multiset(s) == multiset([p, q, r])
    ensures Sort(s) == [p, q, r]
  {
    SortedPermutationIsSort(s, [p, q, r]);
  }

  lemma ShortPrim(t: byte, c: seq<byte>)
    requires |c| < 128
    ensures Encoding(Prim(t, c)) == [t, |c|] + c
  {
  }

  lemma ShortFrame(t: byte, body: seq<byte>)
    requires |body| < 128
    ensures Frame(t, false, body) == [t, |body|] + body
  {
  }

  /** A definite SET of three members whose encodings sort as `[p, q, r]`. */
  lemma SetOfThree(ds: seq<Der>, p: seq<byte>, q: seq<byte>, r: seq<byte>)
    requires |ds| == 3 && !Indefinite(Cons(TAG_SET, true, ds))
    requires Sort(Encodings(ds)) == [p, q, r] && |p + q + r| < 128
    ensures Encoding(Cons(TAG_SET, true, ds)) == [TAG_SET, |p + q + r|] + (p + q + r)
  {
    Concat3(p, q, r);
  }

  const U123: seq<byte> := [0x0c, 0x03, 0x31, 0x32, 0x33]
  const U124: seq<byte> := [0x0c, 0x03, 0x31, 0x32, 0x34]
  const U122: seq<byte> := [0x0c, 0x03, 0x31, 0x32, 0x32]

  lemma Utf8Members(ds: seq<Der>)
    requires ds == [Prim(TAG_UTF8_STRING, [0x31, 0x32, 0x33]), Prim(TAG_UTF8_STRING, [0x31, 0x32, 0x34]),
                    Prim(TAG_UTF8_STRING, [0x31, 0x32, 0x32])]
    ensures Encodings(ds) == [U123, U124, U122]
    ensures ContentLen(ds) == 15
    ensures var d := Cons(TAG_SET, true, ds); !Indefinite(d) && Fits(d) && SetsDefinite(d)
  {
    ShortPrim(TAG_UTF8_STRING, [0x31, 0x32, 0x33]);
    ShortPrim(TAG_UTF8_STRING, [0x31, 0x32, 0x34]);
    ShortPrim(TAG_UTF8_STRING, [0x31, 0x32, 0x32]);
    assert [TAG_UTF8_STRING, 3] + [0x31, 0x32, 0x33] == U123;
    assert [TAG_UTF8_STRING, 3] + [0x31, 0x32, 0x34] == U124;
    assert [TAG_UTF8_STRING, 3] + [0x31, 0x32, 0x32] == U122;
    assert Encodings(ds) == [U123, U124, U122];
    Concat3(U123, U124, U122);
  }

  /** `SET(UTF8STRING("123"), UTF8STRING("124"), UTF8STRING("122"))`
      encodes as 310f0c033132320c033132330c03313234. */
  lemma SetOfEncoding(ds: seq<Der>)
    requires ds == [Prim(TAG_UTF8_STRING, [0x31, 0x32, 0x33]), Prim(TAG_UTF8_STRING, [0x31, 0x32, 0x34]),
                    Prim(TAG_UTF8_STRING, [0x31, 0x32, 0x32])]
    ensures Encoding(Cons(TAG_SET, true, ds)) ==
      [0x31, 0x0f, 0x0c, 0x03, 0x31, 0x32, 0x32, 0x0c, 0x03, 0x31, 0x32, 0x33, 0x0c, 0x03, 0x31, 0x32, 0x34]
  {
    Utf8Members(ds);
    Utf8Order();
    Utf8Body();
    SetOfThree(ds, U122, U123, U124);
  }

  lemma Utf8Body()
    ensures |U122 + U123 + U124| == 15
    ensures [TAG_SET, 15] + (U122 + U123 + U124) ==
      [0x31, 0x0f, 0x0c, 0x03, 0x31, 0x32, 0x32, 0x0c, 0x03, 0x31, 0x32, 0x33, 0x0c, 0x03, 0x31, 0x32, 0x34]
  {
  }

  /** The value and footprint of a node built from three members. */
  lemma Footprint3(a: DerTree, b: DerTree, c: DerTree)
    ensures Specs([a, b, c]) == [a.spec, b.spec, c.spec]
    ensures NodesOf([a, b, c]) == a.Nodes + b.Nodes + c.Nodes
    ensures SourcesOf([a, b, c]) == a.Sources + b.Sources + c.Sources
  {
    assert [a, b, c][..2] == [a, b];
    assert [a, b][..1] == [a];
    assert [a][..0] == [];
    assert NodesOf([a]) == NodesOf([]) + a.Nodes;
    assert NodesOf([a, b]) == NodesOf([a]) + b.Nodes;
    assert NodesOf([a, b, c]) == NodesOf([a, b]) + c.Nodes;
    assert SourcesOf([a]) == SourcesOf([]) + a.Sources;
    assert SourcesOf([a, b]) == SourcesOf([a]) + b.Sources;
    assert SourcesOf([a, b, c]) == SourcesOf([a, b]) + c.Sources;
  }

  /** "122" < "123" < "124" under `Arrays::compare`: the fifth octet decides. */
  lemma Utf8Order()
    ensures Sort([U123, U124, U122]) == [U122, U123, U124]
  {
    assert U122[..4] == U123[..4] == U124[..4];
    CompareFirstDifference(U122, U123, 4);
    CompareFirstDifference(U123, U124, 4);
    CompareFirstDifference(U122, U124, 4);
    SortOfThree([U123, U124, U122], U122, U123, U124);
  }

  /** `setof()` of DerTreeTest. */
  method SetOfVector() returns (r: seq<byte>)
    ensures r == [0x31, 0x0f, 0x0c, 0x03, 0x31, 0x32, 0x32, 0x0c, 0x03, 0x31, 0x32, 0x33, 0x0c, 0x03, 0x31, 0x32, 0x34]
  {
    ghost var ds := [Prim(TAG_UTF8_STRING, [0x31, 0x32, 0x33]), Prim(TAG_UTF8_STRING, [0x31, 0x32, 0x34]),
                     Prim(TAG_UTF8_STRING, [0x31, 0x32, 0x32])];
    var t := Utf8Set();
    Utf8Members(ds);
    t.DefiniteEncodable();
    r := t.ToByteArray();
    SetOfEncoding(ds);
  }

  /** The SET node of `setof()`, before it is encoded. */
  method Utf8Set() returns (t: DerTree)
    ensures fresh(t.Nodes) && t.Valid() && t.Sources == {}
    ensures t.spec == Cons(TAG_SET, true, [Prim(TAG_UTF8_STRING, [0x31, 0x32, 0x33]),
      Prim(TAG_UTF8_STRING, [0x31, 0x32, 0x34]), Prim(TAG_UTF8_STRING, [0x31, 0x32, 0x32])])
  {
    var a := DerTree.MakeString(TAG_UTF8_STRING, [0x31, 0x32, 0x33]);
    var b := DerTree.MakeString(TAG_UTF8_STRING, [0x31, 0x32, 0x34]);
    var c := DerTree.MakeString(TAG_UTF8_STRING, [0x31, 0x32, 0x32]);
    t := DerTree.Set([a, b, c]);
    Footprint3(a, b, c);
  }

  lemma Footprint1(a: DerTree)
    ensures Specs([a]) == [a.spec]
    ensures NodesOf([a]) == a.Nodes && SourcesOf([a]) == a.Sources
  {
    assert [a][..0] == [];
    assert NodesOf([a]) == NodesOf([]) + a.Nodes;
    assert SourcesOf([a]) == SourcesOf([]) + a.Sources;
  }

  const SEQ_X: seq<byte> := [0x30, 0x03, 0x13, 0x01, 0x78]

  /** `SEQUENCE(PRINTABLESTRING("x"))` encodes as 3003130178. */
  lemma SequenceOfX(ds: seq<Der>)
    requires ds == [Prim(TAG_PRINTABLE_STRING, [0x78])]
    ensures var d := Cons(TAG_SEQUENCE, false, ds);
      !Indefinite(d) && Fits(d) && SetsDefinite(d) && Encoding(d) == SEQ_X
  {
    ShortPrim(TAG_PRINTABLE_STRING, [0x78]);
    assert [TAG_PRINTABLE_STRING, 1] + [0x78] == [0x13, 0x01, 0x78];
    assert Encodings(ds) == [[0x13, 0x01, 0x78]];
    assert Concat([[0x13, 0x01, 0x78]]) == [0x13, 0x01, 0x78] by {
      assert [[0x13, 0x01, 0x78]][..0] == [];
    }
    ShortFrame(TAG_SEQUENCE, [0x13, 0x01, 0x78]);
  }

  /** The three implicitly tagged copies sort by their first octet, which
      `Arrays::compare` reads as a negative number: A0 < A1 < A2. */
  lemma ContextOrder(x: seq<byte>, y: seq<byte>, z: seq<byte>)
    requires x == SEQ_X[0 := 0xA1] && y == SEQ_X[0 := 0xA0] && z == SEQ_X[0 := 0xA2]
    ensures Sort([x, y, z]) == [y, x, z]
  {
    CompareFirstDifference(y, x, 0);
    CompareFirstDifference(x, z, 0);
    CompareFirstDifference(y, z, 0);
    SortOfThree([x, y, z], y, x, z);
  }

  /** `SET(t.asImplicitContext(1), t.asImplicitContext(0), t.asImplicitContext(2))`
      for `t = wrap(SEQUENCE(PRINTABLESTRING("x")).toByteArray())` encodes as
      310fa003130178a103130178a203130178. */
  lemma ContextSetEncoding(ds: seq<Der>)
    requires ds == [Raw(SEQ_X[0 := 0xA1]), Raw(SEQ_X[0 := 0xA0]), Raw(SEQ_X[0 := 0xA2])]
    ensures var d := Cons(TAG_SET, true, ds);
      !Indefinite(d) && Fits(d) && SetsDefinite(d) &&
      Encoding(d) == [0x31, 0x0f, 0xa0, 0x03, 0x13, 0x01, 0x78, 0xa1, 0x03, 0x13, 0x01, 0x78,
                      0xa2, 0x03, 0x13, 0x01, 0x78]
  {
    var x, y, z := SEQ_X[0 := 0xA1], SEQ_X[0 := 0xA0], SEQ_X[0 := 0xA2];
    assert Encodings(ds) == [x, y, z];
    ContextOrder(x, y, z);
    Concat3(x, y, z);
    assert ContentLen(ds) == 15;
    SetOfThree(ds, y, x, z);
    ContextBody(x, y, z);
  }

  lemma ContextBody(x: seq<byte>, y: seq<byte>, z: seq<byte>)
    requires x == SEQ_X[0 := 0xA1] && y == SEQ_X[0 := 0xA0] && z == SEQ_X[0 := 0xA2]
    ensures |y + x + z| == 15
    ensures [TAG_SET, 15] + (y + x + z) ==
      [0x31, 0x0f, 0xa0, 0x03, 0x13, 0x01, 0x78, 0xa1, 0x03, 0x13, 0x01, 0x78, 0xa2, 0x03, 0x13, 0x01, 0x78]
  {
  }

  /** `wrap(SEQUENCE(PRINTABLESTRING("x")).toByteArray())`. */
  method WrappedSequence() returns (t: DerTree)
    ensures fresh(t) && t.Valid() && t.Nodes == {t} && t.Sources == {}
    ensures t.spec == Raw(SEQ_X) && t.encoding == Some(SEQ_X)
  {
    var x := DerTree.MakeString(TAG_PRINTABLE_STRING, [0x78]);
    var s := DerTree.Sequence([x]);
    Footprint1(x);
    SequenceOfX([x.spec]);
    s.DefiniteEncodable();
    var enc := s.ToByteArray();
    t := DerTree.Wrap(enc);
  }

  /** `t.asImplicitContext(i)` of a wrapped encoding. */
  method ContextCopy(t: DerTree, i: int32) returns (c: DerTree)
    requires t.Valid() && t.Nodes == {t} && t.Sources == {}
    requires t.spec == Raw(SEQ_X) && t.encoding == Some(SEQ_X)
    ensures fresh(c) && c.Valid() && c.Nodes == {c, t} && c.Sources == {}
    ensures c.spec == Raw(SEQ_X[0 := ContextTag(i)])
  {
    var r := t.AsImplicitContext(i);
    c := r.value;
  }

  /** `SET(c1, c0, c2).toByteArray()` for the three implicitly tagged copies. */
  method ContextSet(t: DerTree, c1: DerTree, c0: DerTree, c2: DerTree) returns (r: seq<byte>)
    requires c1.Valid() && c1.Nodes == {c1, t} && c1.Sources == {} && c1.spec == Raw(SEQ_X[0 := 0xA1])
    requires c0.Valid() && c0.Nodes == {c0, t} && c0.Sources == {} && c0.spec == Raw(SEQ_X[0 := 0xA0])
    requires c2.Valid() && c2.Nodes == {c2, t} && c2.Sources == {} && c2.spec == Raw(SEQ_X[0 := 0xA2])
    modifies t, c1, c0, c2
    ensures r == [0x31, 0x0f, 0xa0, 0x03, 0x13, 0x01, 0x78, 0xa1, 0x03, 0x13, 0x01, 0x78,
                  0xa2, 0x03, 0x13, 0x01, 0x78]
  {
    var u := DerTree.Set([c1, c0, c2]);
    Footprint3(c1, c0, c2);
    ContextSetEncoding([c1.spec, c0.spec, c2.spec]);
    u.DefiniteEncodable();
    r := u.ToByteArray();
  }

  /** `as()` of DerTreeTest. */
  method ImplicitContextVector() returns (r: seq<byte>)
    ensures r == [0x31, 0x0f, 0xa0, 0x03, 0x13, 0x01, 0x78, 0xa1, 0x03, 0x13, 0x01, 0x78,
                  0xa2, 0x03, 0x13, 0x01, 0x78]
  {
    var t := WrappedSequence();
    var c1 := ContextCopy(t, 1);
    var c0 := ContextCopy(t, 0);
    var c2 := ContextCopy(t, 2);
    r := ContextSet(t, c1, c0, c2);
  }

  /** `OCTETSTRING(new byte[1]).encode(os)`. */
  method EncodeZeroOctet(os: Sink)
    modifies os
    ensures os.written == old(os.written) + [TAG_OCTET_STRING, 0x01, 0x00]
  {
    ShortPrim(TAG_OCTET_STRING, [0]);
    var o := DerTree.OctetString([0]);
    o.DefiniteEncodable();
    var _ := o.Encode(os);
  }

  /** `ber()` of DerTreeTest: `startIndefinite(os, OCTETSTRING(new byte[0]))`
      around three `OCTETSTRING(new byte[1]).encode(os)`. */
  method IndefiniteVector() returns (r: seq<byte>)
    ensures r == [0x24, 0x80, 0x04, 0x01, 0x00, 0x04, 0x01, 0x00, 0x04, 0x01, 0x00, 0x00, 0x00]
  {
    var os := new Sink();
    var empty := DerTree.OctetString([]);
    var h := DerTree.StartIndefiniteFor(os, empty);
    EncodeZeroOctet(os);
    EncodeZeroOctet(os);
    EncodeZeroOctet(os);
    h.Close();
    r := os.written;
  }
  lemma StreamVectors(d: Der)
    requires d == Stream(TAG_OCTET_STRING, Some([1]), [2, 3])
    ensures Encoding(d) == [0x24, 0x80, 0x04, 0x01, 0x01, 0x04, 0x02, 0x02, 0x03, 0x00, 0x00]
    ensures Encoding(Drained(d)) == [0x24, 0x80, 0x04, 0x01, 0x01, 0x00, 0x00]
  {
    ShortPrim(TAG_OCTET_STRING, [1]);
    ShortPrim(TAG_OCTET_STRING, [2, 3]);
    assert [2, 3][2..] == [] && [2, 3][..2] == [2, 3];
    assert Chunks(TAG_OCTET_STRING, [2, 3]) == [0x04, 0x02, 0x02, 0x03];
    assert IndefiniteHeader(TAG_OCTET_STRING) == [0x24, 0x80];
  }

  /** `OCTETSTRING(in)` over a stream that offers one octet at a time,
      turned into octets twice. The first `toByteArray` writes the octet
      read ahead and then the rest of the stream; the second finds the
      stream drained and writes only the octet read ahead. */
  method DrainedStreamVector() returns (r1: seq<byte>, r2: seq<byte>)
    ensures r1 == [0x24, 0x80, 0x04, 0x01, 0x01, 0x04, 0x02, 0x02, 0x03, 0x00, 0x00]
    ensures r2 == [0x24, 0x80, 0x04, 0x01, 0x01, 0x00, 0x00]
  {
    var src := new Source([1, 2, 3], 1);
    var t := new DerTree.FromSource(TAG_OCTET_STRING, src);
    assert [1, 2, 3][..1] == [1] && [1, 2, 3][1..] == [2, 3];
    assert src.remaining == [2, 3] && t.source.Some?;
    assert t.spec == Stream(TAG_OCTET_STRING, Some([1]), [2, 3]);
    StreamVectors(t.spec);
    r1 := t.ToByteArray();
    r2 := t.ToByteArray();
  }

  /** `testAllInts()` of DerTreeTest, for any `int`: `INTEGER(i)` and
      `INTEGER(BigInteger.valueOf(i))` produce the same octets. */
  method IntegerVector(i: int32) returns (b1: seq<byte>, b2: seq<byte>)
    ensures b1 == b2 == Encoding(Prim(TAG_INTEGER, BigIntegerBytes(i)))
  {
    IntBytesCorrect(i);
    IntBytesIsBigIntegerBytes(i);
    var t1 := DerTree.Integer(i);
    t1.DefiniteEncodable();
    b1 := t1.ToByteArray();
    var t2 := DerTree.BigInteger(i);
    t2.DefiniteEncodable();
    b2 := t2.ToByteArray();
  }
}
