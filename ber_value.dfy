/** The value a DerTree node stands for, and the octets `encode0` writes for
    it: definite-length DER where every length is known, indefinite-length
    BER (X.690 section 8.1.3.6) where an input stream is involved. */
module BerValue {
  import opened Bytes
  import opened Wrappers
  import opened BerLength
  import opened SetOrder

  /** `BUFFER_SIZE`: the most octets one chunk of a stream carries. */
  const BUFFER_SIZE: nat := 1024

  /** One node of a DerTree:
      - `Raw`: a complete encoding (`wrap`, or a copy of a node whose
        encoding is cached);
      - `Prim`: a tag and its primitive contents (given, or supplied);
      - `Stream`: a tag, the contents already read in the constructor, and
        the octets still to come from the input stream;
      - `Cons`: a tag and the sub-values of a constructed value. */
  datatype Der =
    | Raw(bytes: seq<byte>)
    | Prim(tag: byte, content: seq<byte>)
    | Stream(tag: byte, pre: Option<seq<byte>>, rest: seq<byte>)
    | Cons(tag: byte, isSet: bool, subs: seq<Der>)

  /** The values `getLens` marks with `Integer.MAX_VALUE`: streams, and
      constructed values with an indefinite member. */
  predicate Indefinite(d: Der) {
    match d
    case Stream(_, _, _) => true
    case Cons(_, _, subs) => exists i :: 0 <= i < |subs| && Indefinite(subs[i])
    case _ => false
  }

  /** A definite-length TLV: tag, length octets, contents. */
  function TLV(tag: byte, c: seq<byte>): seq<byte> {
    [tag] + LengthOctets(|c|) + c
  }

  /** The header of an indefinite-length encoding: `tag | 0x20`, then `0x80`. */
  function IndefiniteHeader(tag: byte): seq<byte> {
    [WithConstructedBit(tag), 0x80]
  }

  /** The end-of-contents octets (X.690 section 8.1.5). */
  const EOC: seq<byte> := [0, 0]

  /** The rest of a stream as `encode0` reads it: one TLV with the plain tag
      per read of at most `BUFFER_SIZE` octets. */
  function Chunks(tag: byte, rest: seq<byte>): seq<byte>
    decreases |rest|
  {
    if rest == [] then []
    else
      var n := if |rest| < BUFFER_SIZE then |rest| else BUFFER_SIZE;
      TLV(tag, rest[..n]) + Chunks(tag, rest[n..])
  }

  function Encodings(ds: seq<Der>): seq<seq<byte>>
    decreases ds, 0
  {
    seq(|ds|, i requires 0 <= i < |ds| => Encoding(ds[i]))
  }

  /** The contents of a constructed value: its members' encodings in
      declared order, or, for a SET of more than one member, sorted by
      `Arrays::compare`. */
  function Body(isSet: bool, encs: seq<seq<byte>>): seq<byte> {
    if isSet && |encs| > 1 then Concat(Sort(encs)) else Concat(encs)
  }

  /** What `encode0` writes for `d`. */
  function Encoding(d: Der): seq<byte>
    decreases d, 1
  {
    match d
    case Raw(b) => b
    case Prim(t, c) => TLV(t, c)
    case Stream(t, pre, rest) =>
      IndefiniteHeader(t) + (if pre.Some? then TLV(t, pre.value) else []) + Chunks(t, rest) + EOC
    case Cons(t, isSet, subs) => Frame(t, Indefinite(d), Body(isSet, Encodings(subs)))
  }

  /** Tag and length around the contents of a constructed value: definite,
      or the indefinite header and EOC. */
  function Frame(t: byte, indefinite: bool, body: seq<byte>): seq<byte> {
    if indefinite then IndefiniteHeader(t) + body + EOC
    else [t] + LengthOctets(|body|) + body
  }

  /** The contents octets `encode0` writes between the header and, for an
      indefinite length, the end-of-contents octets. */
  function Contents(d: Der): seq<byte>
    requires !d.Raw?
  {
    match d
    case Prim(_, c) => c
    case Stream(t, pre, rest) => (if pre.Some? then TLV(t, pre.value) else []) + Chunks(t, rest)
    case Cons(_, isSet, subs) => Body(isSet, Encodings(subs))
  }

  /** The sum `getLens` accumulates over members: each one's encoded size. */
  function ContentLen(subs: seq<Der>): nat {
    |Concat(Encodings(subs))|
  }

  /** The `len` that `getLens` computes for a value that is not `Raw`. */
  function LenOf(d: Der): int
    requires !d.Raw?
  {
    match d
    case Prim(_, c) => |c|
    case Stream(_, _, _) => INDEFINITE
    case Cons(_, _, subs) => if Indefinite(d) then INDEFINITE else ContentLen(subs)
  }

  /** Every definite length in `d` fits a Java `int` below the marker. */
  predicate Fits(d: Der) {
    match d
    case Raw(_) => true
    case Prim(_, c) => |c| < INDEFINITE
    case Stream(_, pre, _) => pre.Some? ==> |pre.value| < INDEFINITE
    case Cons(_, _, subs) =>
      (forall i :: 0 <= i < |subs| ==> Fits(subs[i])) &&
      (!Indefinite(d) ==> ContentLen(subs) < INDEFINITE)
  }

  /** No SET of more than one member has an indefinite member. */
  predicate SetsDefinite(d: Der) {
    match d
    case Cons(_, isSet, subs) =>
      (isSet && |subs| > 1 ==> forall i :: 0 <= i < |subs| ==> !Indefinite(subs[i])) &&
      (forall i :: 0 <= i < |subs| ==> SetsDefinite(subs[i]))
    case _ => true
  }

  /** The same value under another tag (`asImplicitContext` on a node
      without a cached encoding). */
  function Retag(d: Der, t: byte): (r: Der)
    requires !d.Raw?
    ensures !r.Raw? && r.tag == t
    ensures Indefinite(r) == Indefinite(d) && LenOf(r) == LenOf(d)
    ensures Fits(r) == Fits(d) && SetsDefinite(r) == SetsDefinite(d)
  {
    match d
    case Prim(_, c) => Prim(t, c)
    case Stream(_, pre, rest) => Stream(t, pre, rest)
    case Cons(_, isSet, subs) => Cons(t, isSet, subs)
  }

  /** `a` and `b` are the same value except, possibly, for the octets their
      input streams still hold. */
  predicate SameShape(a: Der, b: Der) {
    match a
    case Stream(t, pre, _) => b.Stream? && b.tag == t && b.pre == pre
    case Cons(t, s, ds) =>
      b.Cons? && b.tag == t && b.isSet == s && |b.subs| == |ds| &&
      forall i :: 0 <= i < |ds| ==> SameShape(ds[i], b.subs[i])
    case _ => a == b
  }

  /** `getLens` does not look at what a stream still holds: values of the
      same shape have the same lengths, the same limits, and are equal when
      they are definite. */
  lemma {:induction false} SameShapeKeeps(a: Der, b: Der)
    requires SameShape(a, b)
    ensures a.Raw? == b.Raw? && (!a.Raw? ==> a.tag == b.tag && LenOf(a) == LenOf(b))
    ensures Indefinite(a) == Indefinite(b) && Fits(a) == Fits(b) && SetsDefinite(a) == SetsDefinite(b)
    ensures !Indefinite(a) ==> a == b
  {
    if a.Cons? {
      forall i | 0 <= i < |a.subs|
        ensures Indefinite(a.subs[i]) == Indefinite(b.subs[i]) && Fits(a.subs[i]) == Fits(b.subs[i])
        ensures SetsDefinite(a.subs[i]) == SetsDefinite(b.subs[i])
        ensures !Indefinite(a.subs[i]) ==> a.subs[i] == b.subs[i]
      {
        SameShapeKeeps(a.subs[i], b.subs[i]);
      }
      if !Indefinite(a) {
        assert a.subs == b.subs;
      }
    }
  }

  /** The value once every stream in it has been read to the end, as
      `encode0` leaves it. */
  function Drained(d: Der): (r: Der)
    ensures SameShape(d, r)
  {
    match d
    case Stream(t, pre, _) => Stream(t, pre, [])
    case Cons(t, s, ds) => Cons(t, s, seq(|ds|, i requires 0 <= i < |ds| => Drained(ds[i])))
    case _ => d
  }

  /** A drained value holds no stream octets: encoding it writes each
      stream's header, the octets read ahead and EOC, and nothing more. */
  lemma {:induction false} DrainedStream(t: byte, pre: Option<seq<byte>>, rest: seq<byte>)
    ensures Encoding(Drained(Stream(t, pre, rest))) ==
      IndefiniteHeader(t) + (if pre.Some? then TLV(t, pre.value) else []) + EOC
  {
  }

  lemma RetagCons(t0: byte, isSet: bool, subs: seq<Der>, t: byte)
    requires !Indefinite(Cons(t0, isSet, subs))
    ensures Encoding(Cons(t, isSet, subs)) == Encoding(Cons(t0, isSet, subs))[0 := t]
  {
    assert !Indefinite(Cons(t, isSet, subs));
    RetagFrame(t0, Body(isSet, Encodings(subs)), t);
  }

  lemma RetagFrame(t0: byte, body: seq<byte>, t: byte)
    ensures Frame(t, false, body) == Frame(t0, false, body)[0 := t]
  {
    var tail := LengthOctets(|body|) + body;
    assert Frame(t0, false, body) == [t0] + tail;
    assert Frame(t, false, body) == [t] + tail;
  }

  /** Implicit tagging of a definite value changes the first octet of its
      encoding and nothing else. */
  lemma RetagEncoding(d: Der, t: byte)
    requires !d.Raw? && !Indefinite(d)
    ensures |Encoding(Retag(d, t))| == |Encoding(d)| > 0
    ensures Encoding(Retag(d, t)) == Encoding(d)[0 := t]
  {
    match d
    case Prim(t0, c) =>
      assert TLV(t, c) == [t] + (LengthOctets(|c|) + c);
      assert TLV(t0, c) == [t0] + (LengthOctets(|c|) + c);
    case Cons(t0, isSet, subs) =>
      RetagCons(t0, isSet, subs, t);
  }

  /** For a stream, the constructed header and every chunk take the new tag. */
  lemma RetagStream(t0: byte, pre: Option<seq<byte>>, rest: seq<byte>, t: byte)
    ensures Encoding(Retag(Stream(t0, pre, rest), t))[0] == WithConstructedBit(t)
    ensures Chunks(t, rest) == [] || Chunks(t, rest)[0] == t
  {
  }

  lemma ConcatEncodingsStep(ds: seq<Der>, i: nat)
    requires i < |ds|
    ensures Concat(Encodings(ds[..i + 1])) == Concat(Encodings(ds[..i])) + Encoding(ds[i])
  {
    EncodingsPrefix(ds, i);
    var e := Encodings(ds[..i]);
    assert (e + [Encoding(ds[i])])[..|e|] == e;
  }

  /** One more member written after the ones before it. */
  lemma WrittenStep(start: seq<byte>, w: seq<byte>, ds: seq<Der>, i: nat)
    requires i < |ds| && w == start + Concat(Encodings(ds[..i]))
    ensures w + Encoding(ds[i]) == start + Concat(Encodings(ds[..i + 1]))
  {
    ConcatEncodingsStep(ds, i);
  }

  lemma ContentLenStep(ds: seq<Der>, i: nat)
    requires i < |ds|
    ensures ContentLen(ds[..i + 1]) == ContentLen(ds[..i]) + |Encoding(ds[i])|
  {
    ConcatEncodingsStep(ds, i);
  }

  /** How many members the loop of `getLens` visits: up to and including
      the first indefinite one, where it stops, or all of them. */
  function Visits(ds: seq<Der>): (n: nat)
    ensures n <= |ds|
    ensures forall j :: 0 <= j < n - 1 ==> !Indefinite(ds[j])
    ensures (0 < n && Indefinite(ds[n - 1])) ||
            (n == |ds| && forall j :: 0 <= j < |ds| ==> !Indefinite(ds[j]))
  {
    if ds == [] then 0
    else if Indefinite(ds[0]) then 1
    else 1 + Visits(ds[1..])
  }

  /** Once members `0..i-1` are definite, the loop stops right after member
      `i` if it is indefinite, and otherwise goes on past it. */
  lemma {:induction false} VisitsFirstIndefinite(ds: seq<Der>, i: nat)
    requires i < |ds| && forall j :: 0 <= j < i ==> !Indefinite(ds[j])
    ensures Indefinite(ds[i]) ==> Visits(ds) == i + 1
    ensures !Indefinite(ds[i]) ==> Visits(ds) > i
  {
    if i > 0 {
      assert !Indefinite(ds[0]);
      assert forall j :: 0 <= j < i - 1 ==> ds[1..][j] == ds[j + 1];
      VisitsFirstIndefinite(ds[1..], i - 1);
    }
  }

  /** `getLens` leaves `Integer.MAX_VALUE` in `len` exactly for the
      indefinite values, provided every definite length fits below it. */
  lemma LenOfIndefinite(d: Der)
    requires !d.Raw? && Fits(d)
    ensures LenOf(d) == INDEFINITE <==> Indefinite(d)
    ensures 0 <= LenOf(d) <= INDEFINITE
  {
  }

  /** What `encode0` writes before the contents: the tag and the length
      octets, or the indefinite header when `len` is `Integer.MAX_VALUE`. */
  function Header(t: byte, len: int): seq<byte>
    requires 0 <= len <= INDEFINITE
  {
    if len == INDEFINITE then IndefiniteHeader(t) else [t] + LengthOctets(len)
  }

  /** What `encode0` writes after the contents: EOC for an indefinite length. */
  function Trailer(len: int): seq<byte> {
    if len == INDEFINITE then EOC else []
  }

  /** The encoding of a value other than `Raw` is its header, its contents
      and its trailer, all three determined by the length `getLens` gives it. */
  lemma EncodingSplit(d: Der)
    requires !d.Raw? && Fits(d)
    ensures 0 <= LenOf(d) <= INDEFINITE
    ensures Encoding(d) == Header(d.tag, LenOf(d)) + Contents(d) + Trailer(LenOf(d))
  {
    match d
    case Prim(t, c) =>
      PrimSplit(t, c);
    case Stream(t, pre, rest) =>
      StreamSplit(t, pre, rest);
    case Cons(t, isSet, subs) =>
      ConsSplit(t, isSet, subs, Indefinite(d));
  }

  lemma PrimSplit(t: byte, c: seq<byte>)
    requires |c| < INDEFINITE
    ensures Encoding(Prim(t, c)) == Header(t, |c|) + c + Trailer(|c|)
  {
    assert Encoding(Prim(t, c)) == Header(t, |c|) + c + [];
  }

  lemma StreamSplit(t: byte, pre: Option<seq<byte>>, rest: seq<byte>)
    ensures Encoding(Stream(t, pre, rest)) == Header(t, INDEFINITE) + Contents(Stream(t, pre, rest)) + Trailer(INDEFINITE)
  {
    var d := Stream(t, pre, rest);
    assert Encoding(d) == IndefiniteHeader(t) + Contents(d) + EOC;
  }

  lemma ConsSplit(t: byte, isSet: bool, subs: seq<Der>, indefinite: bool)
    requires indefinite == Indefinite(Cons(t, isSet, subs))
    requires !indefinite ==> ContentLen(subs) < INDEFINITE
    ensures var len := if indefinite then INDEFINITE else ContentLen(subs);
      Encoding(Cons(t, isSet, subs)) == Header(t, len) + Body(isSet, Encodings(subs)) + Trailer(len)
  {
    var body := Body(isSet, Encodings(subs));
    if indefinite {
      assert Encoding(Cons(t, isSet, subs)) == IndefiniteHeader(t) + body + EOC;
    } else {
      SortLength(Encodings(subs));
      assert |body| == ContentLen(subs);
      assert Encoding(Cons(t, isSet, subs)) == [t] + LengthOctets(ContentLen(subs)) + body + [];
    }
  }

  /** Three pieces written one after the other. */
  lemma AppendParts(start: seq<byte>, w1: seq<byte>, w2: seq<byte>, w3: seq<byte>,
                    h: seq<byte>, c: seq<byte>, e: seq<byte>)
    requires w1 == start + h && w2 == w1 + c && w3 == w2 + e
    ensures w3 == start + (h + c + e)
  {
  }

  lemma EncodingsPointwise(encs: seq<seq<byte>>, ds: seq<Der>)
    requires |encs| == |ds| && forall j :: 0 <= j < |ds| ==> encs[j] == Encoding(ds[j])
    ensures encs == Encodings(ds)
  {
  }

  lemma EncodingsPrefix(ds: seq<Der>, i: nat)
    requires i < |ds|
    ensures Encodings(ds[..i + 1]) == Encodings(ds[..i]) + [Encoding(ds[i])]
  {
  }

  lemma EncodingsAll(ds: seq<Der>)
    ensures Encodings(ds[..|ds|]) == Encodings(ds)
  {
    assert ds[..|ds|] == ds;
  }

  /** Size consistency: a definite value's encoding is one tag octet,
      `len2lenlen(len)` length octets and `len` content octets, where `len`
      is what `getLens` computes. */
  lemma EncodingSize(d: Der)
    requires !d.Raw? && !Indefinite(d) && Fits(d)
    ensures 0 <= LenOf(d) < INDEFINITE
    ensures |Encoding(d)| == 1 + LenLen(LenOf(d)) + LenOf(d)
  {
    LengthOctetsSize(LenOf(d));
    if d.Cons? {
      SortLength(Encodings(d.subs));
    }
  }

  /** Splits a definite-length TLV: the tag, the contents and what follows. */
  function ParseTLV(s: seq<byte>): (r: Option<(byte, seq<byte>, seq<byte>)>)
    ensures r.Some? ==> |r.value.2| < |s|
  {
    if |s| < 1 then None
    else match DecodeLength(s[1..])
      case None => None
      case Some((len, k)) =>
        if |s| < 1 + k + len then None
        else Some((s[0], s[1 + k..1 + k + len], s[1 + k + len..]))
  }

  /** Every TLV `encode0` writes reads back as its tag and contents. */
  lemma TLVRoundTrip(t: byte, c: seq<byte>, rest: seq<byte>)
    requires |c| <= INDEFINITE
    ensures ParseTLV(TLV(t, c) + rest) == Some((t, c, rest))
  {
    var s := TLV(t, c) + rest;
    LengthOctetsSize(|c|);
    assert s[1..] == LengthOctets(|c|) + (c + rest);
    LengthRoundTrip(|c|, c + rest);
    var k := LenLen(|c|);
    assert s[1 + k..1 + k + |c|] == c;
    assert s[1 + k + |c|..] == rest;
  }

  /** The segments of a constructed string up to the end-of-contents
      octets: their contents joined, and the octets after the EOC. */
  function ParseSegments(t: byte, s: seq<byte>): Option<(seq<byte>, seq<byte>)>
    decreases |s|
  {
    if |s| >= 2 && s[0] == 0 && s[1] == 0 then Some(([], s[2..]))
    else match ParseTLV(s)
      case None => None
      case Some((t', c, r)) =>
        if t' != t then None
        else match ParseSegments(t, r)
          case None => None
          case Some((data, after)) => Some((c + data, after))
  }

  lemma ParseSegmentsStep(t: byte, s: seq<byte>, c: seq<byte>, r: seq<byte>, data: seq<byte>, after: seq<byte>)
    requires |s| >= 1 && s[0] == t && t != 0
    requires ParseTLV(s) == Some((t, c, r))
    requires ParseSegments(t, r) == Some((data, after))
    ensures ParseSegments(t, s) == Some((c + data, after))
  {
  }

  /** The chunks of a stream, followed by EOC, read back as the stream's octets. */
  lemma {:induction false} ChunksRoundTrip(t: byte, data: seq<byte>, after: seq<byte>)
    ensures ParseSegments(t, Chunks(t, data) + EOC + after) == Some((data, after))
    decreases |data|
  {
    if data == [] {
      assert Chunks(t, data) + EOC + after == [0, 0] + after;
    } else {
      var n := if |data| < BUFFER_SIZE then |data| else BUFFER_SIZE;
      var rest := Chunks(t, data[n..]) + EOC + after;
      assert Chunks(t, data) + EOC + after == TLV(t, data[..n]) + rest;
      TLVRoundTrip(t, data[..n], rest);
      LengthOctetsSize(n);
      assert LengthOctets(n)[0] != 0;
      ChunksRoundTrip(t, data[n..], after);
      assert data[..n] + data[n..] == data;
    }
  }

  /** Every chunk of a stream carries between 1 and `BUFFER_SIZE` octets:
      `Chunks` is a sequence of such TLVs. */
  lemma {:induction false} ChunkSizes(t: byte, data: seq<byte>)
    ensures data == [] <==> Chunks(t, data) == []
    ensures data != [] ==>
      (exists n :: 1 <= n <= BUFFER_SIZE && n <= |data| &&
        Chunks(t, data) == TLV(t, data[..n]) + Chunks(t, data[n..]))
    decreases |data|
  {
    if data != [] {
      var n := if |data| < BUFFER_SIZE then |data| else BUFFER_SIZE;
      assert Chunks(t, data) == TLV(t, data[..n]) + Chunks(t, data[n..]);
    }
  }

  /** One read of the stream loop: a TLV of the first `n` octets, then the
      chunks of the rest. */
  lemma ChunksStep(w: seq<byte>, t: byte, before: seq<byte>, chunk: seq<byte>, n: nat)
    requires 0 < n <= |before| && n == (if |before| < BUFFER_SIZE then |before| else BUFFER_SIZE)
    requires chunk == before[..n]
    ensures w + [t] + LengthOctets(n) + chunk + Chunks(t, before[n..]) == w + Chunks(t, before)
  {
  }

  /** The contents octets of a stream: the pre-read octets, then the rest. */
  function StreamData(pre: Option<seq<byte>>, rest: seq<byte>): seq<byte> {
    (if pre.Some? then pre.value else []) + rest
  }

  lemma PreSegments(t: byte, c: seq<byte>, rest: seq<byte>, after: seq<byte>)
    requires t != 0 && |c| <= INDEFINITE
    ensures ParseSegments(t, TLV(t, c) + (Chunks(t, rest) + EOC + after)) == Some((c + rest, after))
  {
    var tail := Chunks(t, rest) + EOC + after;
    ChunksRoundTrip(t, rest, after);
    TLVRoundTrip(t, c, tail);
    ParseSegmentsStep(t, TLV(t, c) + tail, c, tail, rest, after);
  }

  /** An indefinite stream encoding (X.690 sections 8.1.3.6 and 8.7.3.2):
      the constructed tag, `0x80`, segments holding exactly the pre-read
      octets followed by the rest of the stream, then EOC. */
  lemma StreamRoundTrip(t: byte, pre: Option<seq<byte>>, rest: seq<byte>, after: seq<byte>)
    requires t != 0
    requires pre.Some? ==> |pre.value| <= INDEFINITE
    ensures var s := Encoding(Stream(t, pre, rest)) + after;
      s[..2] == IndefiniteHeader(t) &&
      ParseSegments(t, s[2..]) == Some((StreamData(pre, rest), after))
  {
    var head := if pre.Some? then TLV(t, pre.value) else [];
    var body := head + (Chunks(t, rest) + EOC + after);
    assert Encoding(Stream(t, pre, rest)) + after == IndefiniteHeader(t) + body;
    SegmentsAfterHeader(IndefiniteHeader(t), body, Encoding(Stream(t, pre, rest)) + after);
    StreamSegments(t, pre, rest, after, head, body);
  }

  lemma StreamSegments(t: byte, pre: Option<seq<byte>>, rest: seq<byte>, after: seq<byte>, head: seq<byte>, body: seq<byte>)
    requires t != 0
    requires pre.Some? ==> |pre.value| <= INDEFINITE
    requires head == (if pre.Some? then TLV(t, pre.value) else [])
    requires body == head + (Chunks(t, rest) + EOC + after)
    ensures ParseSegments(t, body) == Some((StreamData(pre, rest), after))
  {
    if pre.Some? {
      PreSegments(t, pre.value, rest, after);
    } else {
      ChunksRoundTrip(t, rest, after);
      assert [] + rest == rest;
      assert body == Chunks(t, rest) + EOC + after;
    }
  }

  lemma SegmentsAfterHeader(h: seq<byte>, body: seq<byte>, s: seq<byte>)
    requires |h| == 2 && s == h + body
    ensures s[..2] == h && s[2..] == body
  {
  }

  /** A definite constructed value reads back as its tag and its members'
      encodings, concatenated in the order `encode0` writes them. */
  lemma ConsRoundTrip(t: byte, isSet: bool, subs: seq<Der>, after: seq<byte>)
    requires !Indefinite(Cons(t, isSet, subs)) && Fits(Cons(t, isSet, subs))
    ensures ParseTLV(Encoding(Cons(t, isSet, subs)) + after) ==
      Some((t, Body(isSet, Encodings(subs)), after))
  {
    SortLength(Encodings(subs));
    TLVRoundTrip(t, Body(isSet, Encodings(subs)), after);
  }

  /** A SET's contents are its members' encodings in `Arrays::compare` order,
      and they are the same members: sorting neither adds nor drops one. */
  lemma SetBodySorted(encs: seq<seq<byte>>)
    requires |encs| > 1
    ensures Body(true, encs) == Concat(Sort(encs))
    ensures Sorted(Sort(encs)) && multiset(Sort(encs)) == multiset(encs)
  {
    SortProperties(encs);
  }
}
