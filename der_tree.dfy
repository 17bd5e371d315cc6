/** `sun.security.util.DerTree`: a node of an ASN.1 value that is encoded
    lazily. `len`, `lenlen`, `content` and a member's `encoding` are caches
    that `getLens` and `encode0` fill in; every node also carries, as ghost
    state, the value (`BerValue.Der`) it stands for, so that each cache and
    every output can be stated against `BerValue.Encoding`. */
module DerTrees {
  import opened Bytes
  import opened Wrappers
  import opened BerLength
  import opened BerContent
  import opened SetOrder
  import opened BerValue
  import opened Streams

  /** The values of a sequence of nodes. */
  ghost function Specs(ts: seq<DerTree>): (r: seq<Der>)
    ensures |r| == |ts| && forall i :: 0 <= i < |ts| ==> r[i] == ts[i].spec
  {
    seq(|ts|, i requires 0 <= i < |ts| => ts[i].spec)
  }

  ghost function NodesOf(ts: seq<DerTree>): (r: set<DerTree>)
    ensures forall i :: 0 <= i < |ts| ==> ts[i].Nodes <= r
  {
    if ts == [] then {}
    else
      var r := NodesOf(ts[..|ts| - 1]);
      assert forall i :: 0 <= i < |ts| - 1 ==> ts[i] == ts[..|ts| - 1][i];
      r + ts[|ts| - 1].Nodes
  }

  /** The nodes of a prefix grow by the nodes of the next member. */
  lemma NodesOfStep(ts: seq<DerTree>, i: nat)
    requires i < |ts|
    ensures NodesOf(ts[..i + 1]) == NodesOf(ts[..i]) + ts[i].Nodes
  {
    assert ts[..i + 1][..i] == ts[..i];
  }

  ghost function SourcesOf(ts: seq<DerTree>): (r: set<Source>)
    ensures forall i :: 0 <= i < |ts| ==> ts[i].Sources <= r
  {
    if ts == [] then {}
    else
      var r := SourcesOf(ts[..|ts| - 1]);
      assert forall i :: 0 <= i < |ts| - 1 ==> ts[i] == ts[..|ts| - 1][i];
      r + ts[|ts| - 1].Sources
  }

  ghost function MaxDepth(ts: seq<DerTree>): (r: nat)
    ensures forall i :: 0 <= i < |ts| ==> ts[i].depth <= r
  {
    if ts == [] then 0
    else
      var m := MaxDepth(ts[..|ts| - 1]);
      assert forall i :: 0 <= i < |ts| - 1 ==> ts[i] == ts[..|ts| - 1][i];
      if ts[|ts| - 1].depth < m then m else ts[|ts| - 1].depth
  }

  /** What the members' own invariants give a new constructed node. */
  lemma {:induction false} MembersValid(ts: seq<DerTree>)
    requires forall i :: 0 <= i < |ts| ==> ts[i].Valid()
    ensures forall x :: x in NodesOf(ts) ==> x.Shape() && x.LocalValid()
  {
    if ts != [] {
      var init := ts[..|ts| - 1];
      assert forall i :: 0 <= i < |init| ==> init[i] == ts[i];
      MembersValid(init);
      MemberNodes(ts[|ts| - 1]);
    }
  }

  lemma MemberNodes(t: DerTree)
    requires t.Valid()
    ensures forall x :: x in t.Nodes ==> x.Shape() && x.LocalValid()
  {
  }

  class DerTree {
    /** The cached full encoding: given to `wrap`, or filled in for a SET member. */
    var encoding: Option<seq<byte>>
    const isSet: bool
    /** The tag octet; `wrap` leaves Java's initial `-1`, the octet 0xFF. */
    const tag: byte
    /** `-1` until `getLens`; then the content length, or `INDEFINITE`. */
    var len: int
    var lenlen: int
    /** Primitive content, or the octets a stream constructor read ahead. */
    var content: Option<seq<byte>>
    const supplier: Option<Supplier>
    const source: Option<Source>
    const subs: seq<DerTree>

    /** The value this node encodes. */
    ghost const spec: Der
    /** This node and every node below it. */
    ghost const Nodes: set<DerTree>
    /** The input streams below this node. */
    ghost const Sources: set<Source>
    ghost const depth: nat
    /** How many times this node has called its supplier. */
    ghost var runs: nat

    /** The structure of this one node, fixed at construction: how the
        fields that never change relate to `spec`, and how the footprints
        of its members sit inside its own. */
    ghost predicate Shape() {
      this in Nodes &&
      (forall i :: 0 <= i < |subs| ==>
        subs[i].depth < depth && subs[i] in subs[i].Nodes && this !in subs[i].Nodes &&
        subs[i].Nodes <= Nodes && subs[i].Sources <= Sources) &&
      match spec
      case Raw(_) => true
      case Prim(t, c) =>
        tag == t && subs == [] && source.None? &&
        (supplier.Some? ==> supplier.value.value == c)
      case Stream(t, _, _) =>
        tag == t && subs == [] && supplier.None? && source.Some? && source.value in Sources
      case Cons(t, s, ds) =>
        tag == t && isSet == s && source.None? && supplier.None? && ds == Specs(subs)
    }

    /** Every node below this one has its structure. */
    ghost predicate Wf() {
      Shape() && forall x {:trigger x.Shape()} :: x in Nodes ==> x.Shape()
    }

    /** The caches of this one node agree with `spec`: a cached encoding is
        the value's encoding, `len` is `-1` or what `getLens` computes,
        `lenlen` follows `len2lenlen`, and the supplier has run at most once,
        and not at all while `len` is still unset. */
    ghost predicate LocalValid()
      reads this
    {
      runs <= 1 &&
      (encoding.None? && len < 0 ==> runs == 0) &&
      lenlen == (if 0 <= len < INDEFINITE then LenLen(len) else -1) &&
      (match spec
       case Raw(b) => encoding == Some(b)
       case Prim(_, c) =>
         (content == Some(c) || (content.None? && supplier.Some? && len == -1)) &&
         (len == -1 || len == |c|)
       case Stream(_, pre, _) => content == pre && (len == -1 || len == INDEFINITE)
       case Cons(_, _, _) => content.None? && (len == -1 || len == LenOf(spec))) &&
      (!spec.Raw? ==> encoding.None? || (encoding == Some(Encoding(spec)) && !Indefinite(spec)))
    }

    ghost predicate Valid()
      reads Nodes
    {
      Wf() && LocalValid() && forall x {:trigger x.LocalValid()} :: x in Nodes ==> x.LocalValid()
    }

    /** Every input stream below this node still holds the octets its value
        expects (none of it has been read by `encode0` yet). */
    ghost predicate Ready()
      requires Wf()
      reads Sources
      decreases depth
    {
      spec.Raw? ||
      ((spec.Stream? ==> source.value.remaining == spec.rest) &&
       forall i :: 0 <= i < |subs| ==> subs[i].Ready())
    }

    /** The value this node stands for now: `spec`, with what each input
        stream below it still holds in place of the octets it held when its
        node was built. This is what `encode0` writes. */
    ghost function Now(): (r: Der)
      requires Wf()
      reads Sources
      decreases depth
      ensures SameShape(spec, r)
    {
      match spec
      case Stream(t, pre, _) => Stream(t, pre, source.value.remaining)
      case Cons(t, s, ds) =>
        Cons(t, s, seq(|subs|, i requires 0 <= i < |subs| reads Sources => subs[i].Now()))
      case _ => spec
    }

    /** While no stream has been read, the tree stands for `spec`. */
    lemma {:induction false} ReadyNow()
      requires Wf() && Ready()
      ensures Now() == spec
      decreases depth
    {
      if spec.Cons? {
        forall i | 0 <= i < |subs|
          ensures subs[i].Now() == spec.subs[i]
        {
          subs[i].ReadyNow();
        }
        assert Now().subs == spec.subs;
      }
    }

    /** A definite value holds no stream, so it stands for `spec` whatever
        has been read. */
    lemma NowDefinite()
      requires Wf() && !Indefinite(spec)
      ensures Now() == spec && Drained(spec) == spec
    {
      SameShapeKeeps(spec, Now());
      SameShapeKeeps(spec, Drained(spec));
    }

    /** A cached encoding is the encoding of what the tree stands for now. */
    lemma CachedNow()
      requires Valid() && encoding.Some?
      ensures Now() == spec && Drained(spec) == spec && encoding.value == Encoding(spec)
    {
      if !spec.Raw? {
        NowDefinite();
      }
    }

    /** No input stream is reachable through two members of one node, so
        encoding one member never consumes what another one needs. */
    ghost predicate Linear()
      requires Wf()
      decreases depth
    {
      (forall i, j :: 0 <= i < j < |subs| ==> subs[i].Sources !! subs[j].Sources) &&
      (forall i :: 0 <= i < |subs| ==> subs[i].Linear())
    }

    /** What `encode` needs: consistent caches, no stream shared between
        members, and the limits the value must respect (lengths below
        `Integer.MAX_VALUE`, definite members in a SET). */
    ghost predicate Encodable()
      reads Nodes
    {
      Valid() && Linear() && Fits(spec) && SetsDefinite(spec)
    }

    /** The nodes the loop of `getLens` may reach below this one: those of
        the members up to the first indefinite one. */
    ghost function Visited(): set<DerTree>
      requires Wf()
    {
      if spec.Cons? then NodesOf(subs[..Visits(spec.subs)]) else {}
    }

    /** `getLens` has run: the encoding is cached or `len` is known. */
    ghost predicate HasLens()
      reads this
    {
      encoding.Some? || (!spec.Raw? && len == LenOf(spec))
    }

    /** A definite value holds no unread stream, so it is always ready. */
    lemma {:induction false} DefiniteReady()
      requires Wf() && !Indefinite(spec)
      ensures Ready()
      decreases depth
    {
      if spec.Cons? {
        forall i | 0 <= i < |subs|
          ensures subs[i].Ready()
        {
          assert spec.subs[i] == subs[i].spec;
          subs[i].DefiniteReady();
        }
      }
    }

    /** A tree without streams trivially shares none between members. */
    lemma {:induction false} NoSourcesLinear()
      requires Wf() && Sources == {}
      ensures Linear()
      decreases depth
    {
      forall i | 0 <= i < |subs|
        ensures subs[i].Linear()
      {
        assert subs[i].Sources <= Sources;
        subs[i].NoSourcesLinear();
      }
    }

    /** A definite tree without streams meets what `encode` needs as soon as
        its lengths fit and its SETs have only definite members. */
    lemma DefiniteEncodable()
      requires Valid() && Sources == {} && !Indefinite(spec) && Fits(spec) && SetsDefinite(spec)
      ensures Encodable() && Ready()
    {
      DefiniteReady();
      NoSourcesLinear();
    }

    /** Changing one member, and no node that is not below that member,
        keeps this node valid. */
    twostate lemma ValidAfterMember(k: nat)
      requires old(Valid()) && k < |subs| && subs[k].Valid()
      requires forall x :: x in Nodes && x !in subs[k].Nodes ==> unchanged(x)
      ensures Valid()
    {
      assert subs[k].Nodes <= Nodes;
    }

    /** Encoding one member reads only that member's streams, so every other
        member still stands for what it did. */
    twostate lemma NowAfterMember(k: nat)
      requires Wf() && Linear() && k < |subs|
      requires forall o :: o in Sources && o !in subs[k].Sources ==> unchanged(o)
      ensures forall j :: 0 <= j < |subs| && j != k ==> subs[j].Now() == old(subs[j].Now())
    {
      forall j | 0 <= j < |subs| && j != k
        ensures subs[j].Now() == old(subs[j].Now())
      {
        assert subs[k].Sources !! subs[j].Sources;
        assert subs[j].Sources <= Sources;
      }
    }

    // Private constructors

    /** `DerTree(byte[] encoding)`, reached through `wrap`. */
    constructor FromEncoding(data: seq<byte>)
      ensures spec == Raw(data) && encoding == Some(data) && tag == 0xFF
      ensures Valid() && Nodes == {this} && Sources == {}
    {
      encoding := Some(data);
      isSet := false;
      tag := 0xFF;
      len := -1;
      lenlen := -1;
      content := None;
      supplier := None;
      source := None;
      subs := [];
      spec := Raw(data);
      Nodes := {this};
      Sources := {};
      depth := 0;
      runs := 0;
    }

    /** `DerTree(byte tag, byte[] content)`. */
    constructor Primitive(t: byte, c: seq<byte>)
      ensures spec == Prim(t, c) && encoding.None? && len == -1 && content == Some(c)
      ensures Valid() && Nodes == {this} && Sources == {}
    {
      encoding := None;
      isSet := false;
      tag := t;
      len := -1;
      lenlen := -1;
      content := Some(c);
      supplier := None;
      source := None;
      subs := [];
      spec := Prim(t, c);
      Nodes := {this};
      Sources := {};
      depth := 0;
      runs := 0;
    }

    /** `DerTree(byte tag, Supplier<byte[]>)`: nothing is read until `getLens`. */
    constructor FromSupplier(t: byte, sup: Supplier)
      ensures spec == Prim(t, sup.value) && supplier == Some(sup) && content.None? && len == -1 && runs == 0
      ensures Valid() && Nodes == {this} && Sources == {}
    {
      encoding := None;
      isSet := false;
      tag := t;
      len := -1;
      lenlen := -1;
      content := None;
      supplier := Some(sup);
      source := None;
      subs := [];
      spec := Prim(t, sup.value);
      Nodes := {this};
      Sources := {};
      depth := 0;
      runs := 0;
    }

    /** `DerTree(byte tag, InputStream)`: when at most `BUFFER_SIZE` octets are
        available they are read into `content` at once; the stream is kept
        only if more octets are available afterwards, and its value is then
        an indefinite-length stream, otherwise a plain primitive. */
    constructor FromSource(t: byte, src: Source)
      modifies src
      ensures var avail := Min(|old(src.remaining)|, src.window);
        var pre := if avail <= BUFFER_SIZE then Some(old(src.remaining)[..avail]) else None;
        src.remaining == old(src.remaining)[if avail <= BUFFER_SIZE then avail else 0..] &&
        content == pre &&
        (source.Some? <==> Min(|src.remaining|, src.window) > 0) &&
        spec == (if source.Some? then Stream(t, pre, src.remaining) else Prim(t, pre.value))
      ensures encoding.None? && len == -1
      ensures Valid() && Ready() && Nodes == {this} && Sources == (if source.Some? then {src} else {})
    {
      var available := src.Available();
      var pre: Option<seq<byte>> := None;
      if available <= BUFFER_SIZE {
        var buf := new byte[available];
        assert available <= |src.remaining|;
        var n := src.Read(buf);
        assert n >= 0;
        assert n == available;
        assert buf[..] == buf[..n];
        pre := Some(buf[..]);
      }
      var more := src.Available();
      encoding := None;
      isSet := false;
      tag := t;
      len := -1;
      lenlen := -1;
      content := pre;
      supplier := None;
      subs := [];
      if more > 0 {
        source := Some(src);
        spec := Stream(t, pre, src.remaining);
        Sources := {src};
      } else {
        source := None;
        spec := Prim(t, pre.value);
        Sources := {};
      }
      Nodes := {this};
      depth := 0;
      runs := 0;
    }

    /** `DerTree(byte tag, DerTree[] subs)`, with `isSet` as `SET` sets it. */
    constructor Constructed(t: byte, ts: seq<DerTree>, s: bool)
      requires forall i :: 0 <= i < |ts| ==> ts[i].Valid()
      ensures spec == Cons(t, s, Specs(ts)) && subs == ts && encoding.None? && len == -1
      ensures Valid() && Nodes == {this} + NodesOf(ts) && Sources == SourcesOf(ts)
    {
      MembersValid(ts);
      encoding := None;
      isSet := s;
      tag := t;
      len := -1;
      lenlen := -1;
      content := None;
      supplier := None;
      source := None;
      subs := ts;
      spec := Cons(t, s, Specs(ts));
      Nodes := {this} + NodesOf(ts);
      Sources := SourcesOf(ts);
      depth := MaxDepth(ts) + 1;
      runs := 0;
    }

    /** `DerTree(DerTree old)` followed by the new tag of `asImplicitContext`:
        every field is copied (the cached encoding as a clone whose first
        octet is the new tag), the members and streams are shared. */
    constructor Copy(other: DerTree, t: byte)
      requires other.Valid() && other.encoding != Some([])
      ensures tag == t && subs == other.subs && isSet == other.isSet
      ensures spec == (if other.encoding.Some? then Raw(other.encoding.value[0 := t]) else Retag(other.spec, t))
      ensures encoding == (if other.encoding.Some? then Some(other.encoding.value[0 := t]) else None)
      ensures Valid() && Nodes == {this} + other.Nodes && Sources == other.Sources
    {
      encoding := if other.encoding.Some? then Some(other.encoding.value[0 := t]) else None;
      isSet := other.isSet;
      tag := t;
      len := other.len;
      lenlen := other.lenlen;
      content := other.content;
      supplier := other.supplier;
      source := other.source;
      subs := other.subs;
      spec := if other.encoding.Some? then Raw(other.encoding.value[0 := t]) else Retag(other.spec, t);
      Nodes := {this} + other.Nodes;
      Sources := other.Sources;
      depth := other.depth + 1;
      runs := 0;
    }

    // Calculating len and lenlen

    /** `getLens`: memoised; a stream is marked indefinite; a supplier is
        called and its result kept in `content`; a constructed node sums its
        members' encoded sizes and stops at the first indefinite member. */
    method GetLens()
      requires Valid() && Fits(spec)
      modifies Nodes
      decreases depth, 2
      ensures Valid() && HasLens()
      ensures encoding == old(encoding)
      ensures old(HasLens()) ==> unchanged(Nodes)
      ensures forall x :: x in Nodes && x != this && x !in Visited() ==> unchanged(x)
    {
      if encoding.Some? || len >= 0 {
        return;
      }
      if source.Some? {
        len := INDEFINITE;
        return;
      }
      if supplier.Some? {
        var c := supplier.value.Get();
        runs := runs + 1;
        content := Some(c);
        len := |c|;
      } else if content.Some? {
        len := |content.value|;
      } else {
        var sum := SumMembers();
        len := sum;
      }
      lenlen := if len == INDEFINITE then -1 else LenLen(len);
    }

    /** The loop of `getLens` over the members of a constructed node. A
        member with a cached encoding counts with its length, any other one
        with `1 + lenlen + len` once its own lengths are known; an indefinite
        member ends the loop and makes the sum `INDEFINITE`. */
    method SumMembers() returns (sum: int)
      requires Valid() && Fits(spec) && spec.Cons? && encoding.None? && len == -1
      modifies Nodes - {this}
      decreases depth, 1
      ensures Valid() && sum == LenOf(spec)
      ensures unchanged(this)
      ensures forall x :: x in Nodes && x !in Visited() ==> unchanged(x)
    {
      ghost var ds := spec.subs;
      sum := 0;
      var seeSource := false;
      var i := 0;
      while i < |subs|
        invariant 0 <= i <= |subs| && i <= Visits(ds)
        invariant Valid() && unchanged(this)
        invariant forall x :: x in Nodes && x !in NodesOf(subs[..i]) ==> unchanged(x)
        invariant sum == ContentLen(ds[..i])
        invariant forall j :: 0 <= j < i ==> !Indefinite(ds[j])
      {
        var l, indefinite := MemberLen(i);
        NodesOfStep(subs, i);
        VisitsFirstIndefinite(ds, i);
        if indefinite {
          seeSource := true;
          break;
        }
        sum := sum + l;
        ContentLenStep(ds, i);
        i := i + 1;
      }
      if seeSource {
        sum := INDEFINITE;
      } else {
        assert ds[..|subs|] == ds;
      }
    }

    /** One pass of that loop, on member `subs[i]`: the length of its
        cached encoding, or `1 + lenlen + len` after its own `getLens`;
        `indefinite` when that `len` is `INDEFINITE`. */
    method MemberLen(i: nat) returns (l: int, indefinite: bool)
      requires Valid() && Fits(spec) && spec.Cons? && encoding.None? && len == -1 && i < |subs|
      modifies Nodes - {this}
      decreases depth, 0
      ensures Valid() && unchanged(this)
      ensures forall x :: x in Nodes && x !in subs[i].Nodes ==> unchanged(x)
      ensures indefinite == Indefinite(spec.subs[i])
      ensures !indefinite ==> l == |Encoding(spec.subs[i])|
    {
      var s := subs[i];
      assert s.spec == spec.subs[i] && s in Nodes;
      indefinite := false;
      if s.encoding.Some? {
        assert s.LocalValid();
        l := |s.encoding.value|;
      } else {
        s.GetLens();
        LenOfIndefinite(s.spec);
        if s.len == INDEFINITE {
          l, indefinite := INDEFINITE, true;
        } else {
          EncodingSize(s.spec);
          l := s.len + s.lenlen + 1;
        }
      }
    }

    /** `subs[i].encoding = bout.toByteArray()` in `encode0`: a definite
        value's encoding is kept in the node. */
    method CacheEncoding(e: seq<byte>)
      requires Valid() && !spec.Raw? && !Indefinite(spec) && e == Encoding(spec)
      modifies this
      ensures encoding == Some(e) && Valid()
      ensures len == old(len) && lenlen == old(lenlen) && content == old(content) && runs == old(runs)
    {
      encoding := Some(e);
      assert forall x :: x in Nodes && x != this ==> x.LocalValid();
    }

    // Output

    /** `writeLen`: the length octets of X.690 section 8.1.3, one
        `write(int)` per octet. */
    static method WriteLen(os: Sink, n: int)
      requires 0 <= n <= INDEFINITE
      modifies os
      ensures os.written == old(os.written) + LengthOctets(n)
    {
      if n < 128 {
        os.Write(n);
      } else if n < 0x100 {
        os.Write(0x81);
        os.Write(n);
      } else if n < 0x1_0000 {
        os.Write(0x82);
        os.Write(n / 0x100);
        os.Write(n);
      } else if n < 0x100_0000 {
        os.Write(0x83);
        os.Write(n / 0x1_0000);
        os.Write(n / 0x100);
        os.Write(n);
      } else {
        os.Write(0x84);
        os.Write(n / 0x100_0000);
        os.Write(n / 0x1_0000);
        os.Write(n / 0x100);
        os.Write(n);
      }
    }

    /** The read loop of `encode0` for a stream: each `read` into the
        `BUFFER_SIZE` buffer that yields octets becomes one TLV with the
        plain tag; the loop ends when `read` reports the end of the stream. */
    static method CopyChunks(src: Source, os: Sink, t: byte)
      modifies src, os
      ensures os.written == old(os.written) + Chunks(t, old(src.remaining))
      ensures src.remaining == []
    {
      var buffer := new byte[BUFFER_SIZE];
      while true
        invariant os.written + Chunks(t, src.remaining) == old(os.written) + Chunks(t, old(src.remaining))
        decreases |src.remaining|
      {
        ghost var before := src.remaining;
        var n := src.Read(buffer);
        if n <= 0 {
          break;
        }
        WriteChunk(os, t, buffer, n, before);
      }
    }

    /** One TLV of that loop: the tag, the length `n` and the octets read. */
    static method WriteChunk(os: Sink, t: byte, buffer: array<byte>, n: int, ghost before: seq<byte>)
      requires 0 < n <= |before| && n <= buffer.Length && n == (if |before| < BUFFER_SIZE then |before| else BUFFER_SIZE)
      requires buffer[..n] == before[..n]
      modifies os
      ensures os.written + Chunks(t, before[n..]) == old(os.written) + Chunks(t, before)
    {
      os.Write(t);
      WriteLen(os, n);
      os.WriteRange(buffer, 0, n);
      assert buffer[0..n] == before[..n];
      ChunksStep(old(os.written), t, before, buffer[0..n], n);
    }

    /** `encode0`: a cached encoding is written as it is; otherwise the tag
        and length (or the indefinite header), the content from the stream,
        the primitive content or the members, and EOC after an indefinite
        length. Each stream contributes what it holds at this point, and is
        left read to the end. */
    method Encode0(os: Sink)
      requires Encodable() && HasLens()
      modifies Nodes, Sources, os
      decreases depth, 5
      ensures os.written == old(os.written) + Encoding(old(Now()))
      ensures Now() == Drained(old(Now()))
      ensures Valid()
    {
      ghost var d := Now();
      if encoding.Some? {
        CachedNow();
        os.WriteAll(encoding.value);
        return;
      }
      SameShapeKeeps(spec, d);
      EncodingSplit(d);
      // the members leave this node's `len` as it is
      var n := len;
      ghost var start := os.written;
      WriteHeader(os, tag, n);
      ghost var head := os.written;
      EncodeContents(os);
      ghost var body := os.written;
      WriteTrailer(os, n);
      AppendParts(start, head, body, os.written, Header(tag, n), Contents(d), Trailer(n));
    }

    /** The contents `encode0` writes between the header and the trailer:
        the stream, the primitive content, or the members. */
    method EncodeContents(os: Sink)
      requires Encodable() && HasLens() && encoding.None?
      modifies Nodes, Sources, os
      decreases depth, 4
      ensures !spec.Raw? && os.written == old(os.written) + Contents(old(Now()))
      ensures Now() == Drained(old(Now()))
      ensures Valid()
    {
      ghost var d := Now();
      SameShapeKeeps(spec, d);
      if source.Some? {
        EncodeStream(os);
      } else if content.Some? {
        os.WriteAll(content.value);
      } else if supplier.Some? {
        // getLens has already stored what the supplier gives in `content`
        assert false;
      } else if isSet && |subs| > 1 {
        NowDefinite();
        EncodeSet(os);
        NowDefinite();
      } else {
        EncodeInOrder(os);
      }
    }

    /** The header `encode0` writes: with `len == Integer.MAX_VALUE` the
        constructed tag and `0x80`, otherwise the tag and `writeLen`. */
    static method WriteHeader(os: Sink, t: byte, n: int)
      requires 0 <= n <= INDEFINITE
      modifies os
      ensures os.written == old(os.written) + Header(t, n)
    {
      if n == INDEFINITE {
        os.Write(WithConstructedBit(t));
        os.Write(0x80);
      } else {
        os.Write(t);
        WriteLen(os, n);
      }
    }

    /** The two zero octets `encode0` writes after an indefinite length. */
    static method WriteTrailer(os: Sink, n: int)
      modifies os
      ensures os.written == old(os.written) + Trailer(n)
    {
      if n == INDEFINITE {
        os.Write(0);
        os.Write(0);
      }
    }

    /** The stream branch of `encode0`: the octets read ahead in the
        constructor as one TLV, then what the stream still holds, in chunks. */
    method EncodeStream(os: Sink)
      requires spec.Stream? && source.Some? && tag == spec.tag && content == spec.pre && Fits(spec)
      modifies source.value, os
      ensures os.written == old(os.written) + Contents(Stream(tag, content, old(source.value.remaining)))
      ensures source.value.remaining == []
    {
      ghost var rest := source.value.remaining;
      if content.Some? {
        WriteTLV(os, tag, content.value);
      }
      ghost var mid := os.written;
      CopyChunks(source.value, os, tag);
      AppendParts(old(os.written), mid, os.written, os.written,
        if content.Some? then TLV(tag, content.value) else [], Chunks(tag, rest), []);
    }

    /** The octets read ahead, as one TLV with the plain tag. */
    static method WriteTLV(os: Sink, t: byte, c: seq<byte>)
      requires |c| <= INDEFINITE
      modifies os
      ensures os.written == old(os.written) + TLV(t, c)
    {
      os.Write(t);
      WriteLen(os, |c|);
      os.WriteAll(c);
    }

    /** The SET branch of `encode0`: each member's full encoding is computed
        (and cached in the member) unless it is cached already, the
        encodings are sorted with `Arrays::compare`, then written. */
    method EncodeSet(os: Sink)
      requires Encodable() && spec.Cons? && spec.isSet && |subs| > 1
      modifies Nodes, Sources, os
      decreases depth, 3
      ensures os.written == old(os.written) + Concat(Sort(Encodings(spec.subs)))
      ensures Valid()
    {
      var sets := CollectEncodings();
      WriteSorted(os, sets);
    }

    /** The first loop of the SET branch: `sets[i]` is the full encoding of
        `subs[i]`. */
    method CollectEncodings() returns (sets: array<seq<byte>>)
      requires Encodable() && spec.Cons? && spec.isSet && |subs| > 1
      modifies Nodes, Sources
      decreases depth, 2
      ensures fresh(sets) && sets[..] == Encodings(spec.subs)
      ensures Valid()
    {
      ghost var ds := spec.subs;
      sets := new seq<byte>[|subs|];
      var i := 0;
      while i < |subs|
        invariant 0 <= i <= |subs|
        invariant Valid()
        invariant forall j :: 0 <= j < i ==> sets[j] == Encoding(ds[j])
      {
        CollectEncoding(sets, i);
        i := i + 1;
      }
      EncodingsPointwise(sets[..], ds);
    }

    /** One pass of that loop: `sets[i]` receives the encoding of `subs[i]`. */
    method CollectEncoding(sets: array<seq<byte>>, i: nat)
      requires Valid() && Linear() && Fits(spec) && SetsDefinite(spec)
      requires spec.Cons? && spec.isSet && |subs| > 1
      requires i < |subs| == sets.Length
      modifies Nodes, Sources, sets
      decreases depth, 1
      ensures Valid()
      ensures sets[..] == old(sets[..])[i := Encoding(spec.subs[i])]
    {
      label before:
      var s := subs[i];
      assert s.spec == spec.subs[i] && s in Nodes;
      var e := s.SetMemberEncoding();
      ValidAfterMember@before(i);
      sets[i] := e;
    }

    /** One pass of the first loop of the SET branch, on member `subs[i]`:
        unless it is cached already, the member's encoding is written to a
        fresh `ByteArrayOutputStream` and kept in the member. */
    method SetMemberEncoding() returns (e: seq<byte>)
      requires Encodable() && !Indefinite(spec)
      modifies Nodes, Sources
      decreases depth, 6
      ensures e == Encoding(spec) && encoding == Some(e) && Valid()
    {
      if encoding.None? {
        NowDefinite();
        GetLens();
        var bout := new Sink();
        Encode0(bout);
        CacheEncoding(bout.written);
      }
      e := encoding.value;
    }

    /** `Arrays.sort(sets, Arrays::compare)` and the loop that writes the
        sorted encodings. */
    static method WriteSorted(os: Sink, sets: array<seq<byte>>)
      modifies os, sets
      ensures os.written == old(os.written) + Concat(Sort(old(sets[..])))
    {
      SortInPlace(sets);
      SortedPermutationIsSort(old(sets[..]), sets[..]);
      ghost var sorted := sets[..];
      var i := 0;
      while i < sets.Length
        invariant 0 <= i <= sets.Length && sets[..] == sorted
        invariant os.written == old(os.written) + Concat(sorted[..i])
      {
        ConcatStep(old(os.written), sorted, i);
        os.WriteAll(sets[i]);
        i := i + 1;
      }
      assert sorted[..sets.Length] == sorted;
    }

    /** The other constructed values: `getLens().encode0(os)`, that is
        `encode(os)`, on each member in declared order. */
    method EncodeInOrder(os: Sink)
      requires Encodable() && spec.Cons?
      modifies Nodes, Sources, os
      decreases depth, 3
      ensures os.written == old(os.written) + Concat(Encodings(old(Now()).subs))
      ensures Now() == Drained(old(Now()))
      ensures Valid()
    {
      ghost var ds := Now().subs;
      var i := 0;
      while i < |subs|
        invariant 0 <= i <= |subs|
        invariant Valid()
        invariant os.written == old(os.written) + Concat(Encodings(ds[..i]))
        invariant forall j :: 0 <= j < i ==> subs[j].Now() == Drained(ds[j])
        invariant forall j :: i <= j < |subs| ==> subs[j].Now() == ds[j]
      {
        EncodeMember(os, i, old(os.written), ds);
        i := i + 1;
      }
      EncodingsAll(ds);
      NowOfDrainedMembers(ds);
    }

    /** Once every member is drained, so is the node. */
    lemma NowOfDrainedMembers(ds: seq<Der>)
      requires Wf() && spec.Cons? && |ds| == |subs|
      requires forall j :: 0 <= j < |subs| ==> subs[j].Now() == Drained(ds[j])
      ensures Now() == Drained(Cons(spec.tag, spec.isSet, ds))
    {
      assert Now().subs == Drained(Cons(spec.tag, spec.isSet, ds)).subs;
    }

    /** One pass of that loop, on member `subs[i]`: it is encoded as it
        stands now and left drained, and the other members keep standing
        for what they did. */
    method EncodeMember(os: Sink, i: nat, ghost start: seq<byte>, ghost ds: seq<Der>)
      requires Valid() && Linear() && Fits(spec) && SetsDefinite(spec) && spec.Cons?
      requires i < |subs| == |ds|
      requires os.written == start + Concat(Encodings(ds[..i]))
      requires forall j :: 0 <= j < i ==> subs[j].Now() == Drained(ds[j])
      requires forall j :: i <= j < |subs| ==> subs[j].Now() == ds[j]
      modifies Nodes, Sources, os
      decreases depth, 2
      ensures Valid()
      ensures os.written == start + Concat(Encodings(ds[..i + 1]))
      ensures forall j :: 0 <= j <= i ==> subs[j].Now() == Drained(ds[j])
      ensures forall j :: i < j < |subs| ==> subs[j].Now() == ds[j]
    {
      label before:
      WrittenStep(start, os.written, ds, i);
      var s := subs[i];
      assert s.spec == spec.subs[i] && s in Nodes;
      var _ := s.Encode(os);
      ValidAfterMember@before(i);
      NowAfterMember@before(i);
    }

    // Public operations

    /** `encode(os)`: `getLens().encode0(os)`. It writes the encoding of what
        the tree stands for now, which is `spec` while no stream has been
        read; afterwards every stream is read to the end, so encoding again
        writes only what the streams' nodes read ahead in their constructors. */
    method Encode(os: Sink) returns (r: DerTree)
      requires Encodable()
      modifies Nodes, Sources, os
      decreases depth, 6
      ensures r == this
      ensures os.written == old(os.written) + Encoding(old(Now()))
      ensures old(Ready()) ==> os.written == old(os.written) + Encoding(spec)
      ensures Now() == Drained(old(Now()))
      ensures Encodable()
    {
      if Ready() {
        ReadyNow();
      }
      GetLens();
      Encode0(os);
      r := this;
    }

    /** `toByteArray`: a copy of the cached encoding, or what `encode`
        writes to a fresh `ByteArrayOutputStream`. */
    method ToByteArray() returns (r: seq<byte>)
      requires Encodable()
      modifies Nodes, Sources
      ensures r == Encoding(old(Now()))
      ensures old(Ready()) ==> r == Encoding(spec)
      ensures Now() == Drained(old(Now()))
      ensures Encodable()
    {
      if Ready() {
        ReadyNow();
      }
      if encoding.Some? {
        CachedNow();
        r := encoding.value;
      } else {
        var bout := new Sink();
        var _ := Encode(bout);
        r := bout.written;
      }
    }

    /** `asImplicitContext(i)`: a copy with tag `TAG_CONTEXT + 0x20 + i`.
        With a cached encoding only its first octet changes; an empty cached
        encoding makes `n.encoding[0] = n.tag` fail, which is `None` here. */
    method AsImplicitContext(i: int32) returns (r: Option<DerTree>)
      requires Valid()
      ensures r.None? <==> encoding == Some([])
      ensures r.Some? ==>
        fresh(r.value) && r.value.Valid() && r.value.tag == ContextTag(i) &&
        r.value.Nodes == {r.value} + Nodes && r.value.Sources == Sources
      ensures r.Some? && encoding.Some? ==>
        r.value.encoding == Some(encoding.value[0 := ContextTag(i)]) &&
        r.value.spec == Raw(encoding.value[0 := ContextTag(i)])
      ensures r.Some? && !Indefinite(spec) ==>
        |Encoding(spec)| > 0 && Encoding(r.value.spec) == Encoding(spec)[0 := ContextTag(i)]
      ensures r.Some? && Indefinite(spec) ==> r.value.spec == Retag(spec, ContextTag(i))
    {
      if encoding == Some([]) {
        return None;
      }
      var n := new DerTree.Copy(this, ContextTag(i));
      if encoding.None? && !spec.Raw? && !Indefinite(spec) {
        RetagEncoding(spec, ContextTag(i));
      }
      r := Some(n);
    }

    // Public creators

    static method Integer(i: int32) returns (r: DerTree)
      ensures fresh(r) && r.spec == Prim(TAG_INTEGER, IntBytes(i))
      ensures r.Valid() && r.Nodes == {r} && r.Sources == {}
    {
      r := new DerTree.Primitive(TAG_INTEGER, IntBytes(i));
    }

    /** `INTEGER(BigInteger)`, with the contents of `toByteArray()`. */
    static method BigInteger(i: int) returns (r: DerTree)
      ensures fresh(r) && r.spec == Prim(TAG_INTEGER, BigIntegerBytes(i))
      ensures r.Valid() && r.Nodes == {r} && r.Sources == {}
    {
      r := new DerTree.Primitive(TAG_INTEGER, BigIntegerBytes(i));
    }

    static method Null() returns (r: DerTree)
      ensures fresh(r) && r.spec == Prim(TAG_NULL, [])
      ensures r.Valid() && r.Nodes == {r} && r.Sources == {}
    {
      r := new DerTree.Primitive(TAG_NULL, []);
    }

    static method Enumerated(i: int32) returns (r: DerTree)
      ensures fresh(r) && r.spec == Prim(TAG_ENUMERATED, IntBytes(i))
      ensures r.Valid() && r.Nodes == {r} && r.Sources == {}
    {
      r := new DerTree.Primitive(TAG_ENUMERATED, IntBytes(i));
    }

    static method Boolean(b: bool) returns (r: DerTree)
      ensures fresh(r) && r.spec == Prim(TAG_BOOLEAN, BooleanContent(b))
      ensures r.Valid() && r.Nodes == {r} && r.Sources == {}
    {
      r := new DerTree.Primitive(TAG_BOOLEAN, BooleanContent(b));
    }

    /** `OID(oid)` with the identifier's encoding given as octets. */
    static method Oid(encoded: seq<byte>) returns (r: DerTree)
      ensures fresh(r) && r.spec == Prim(TAG_OBJECT_ID, encoded)
      ensures r.Valid() && r.Nodes == {r} && r.Sources == {}
    {
      r := new DerTree.Primitive(TAG_OBJECT_ID, encoded);
    }

    static method BitString(bits: seq<byte>) returns (r: DerTree)
      ensures fresh(r) && r.spec == Prim(TAG_BIT_STRING, BitStringContent(bits))
      ensures r.Valid() && r.Nodes == {r} && r.Sources == {}
    {
      r := new DerTree.Primitive(TAG_BIT_STRING, BitStringContent(bits));
    }

    static method OctetString(data: seq<byte>) returns (r: DerTree)
      ensures fresh(r) && r.spec == Prim(TAG_OCTET_STRING, data)
      ensures r.Valid() && r.Nodes == {r} && r.Sources == {}
    {
      r := new DerTree.Primitive(TAG_OCTET_STRING, data);
    }

    /** `OCTETSTRING(InputStream)`: up to `BUFFER_SIZE` available octets are
        read at once; a stream with more to give stays attached. */
    static method OctetStringFrom(src: Source) returns (r: DerTree)
      modifies src
      ensures fresh(r) && r.Valid() && r.Ready() && r.Nodes == {r}
      ensures (r.spec.Stream? || r.spec.Prim?) && r.spec.tag == TAG_OCTET_STRING
      ensures r.spec.Stream? ==>
        r.Sources == {src} && r.spec.rest == src.remaining &&
        StreamData(r.spec.pre, r.spec.rest) == old(src.remaining)
      ensures r.spec.Prim? ==>
        r.Sources == {} && Min(|src.remaining|, src.window) == 0 &&
        r.spec.content + src.remaining == old(src.remaining)
    {
      r := new DerTree.FromSource(TAG_OCTET_STRING, src);
      ghost var avail := Min(|old(src.remaining)|, src.window);
      if avail <= BUFFER_SIZE {
        assert old(src.remaining)[..avail] + old(src.remaining)[avail..] == old(src.remaining);
      } else {
        assert [] + old(src.remaining) == old(src.remaining);
      }
    }

    static method OctetStringSupplied(sup: Supplier) returns (r: DerTree)
      ensures fresh(r) && r.spec == Prim(TAG_OCTET_STRING, sup.value)
      ensures r.Valid() && r.Nodes == {r} && r.Sources == {} && r.runs == 0
    {
      r := new DerTree.FromSupplier(TAG_OCTET_STRING, sup);
    }

    /** `OCTETSTRING(DerTree)`: the node's encoding as the contents of a
        constructed OCTET STRING. */
    static method OctetStringOf(node: DerTree) returns (r: DerTree)
      requires node.Valid()
      ensures fresh(r) && r.spec == Cons(TAG_OCTET_STRING, false, [node.spec])
      ensures r.Valid() && r.Nodes == {r} + node.Nodes && r.Sources == node.Sources
    {
      r := new DerTree.Constructed(TAG_OCTET_STRING, [node], false);
    }

    /** `makeString(type, charset, s)` with the string already encoded by
        its charset. */
    static method MakeString(t: byte, encoded: seq<byte>) returns (r: DerTree)
      ensures fresh(r) && r.spec == Prim(t, encoded)
      ensures r.Valid() && r.Nodes == {r} && r.Sources == {}
    {
      r := new DerTree.Primitive(t, encoded);
    }

    static method Sequence(nodes: seq<DerTree>) returns (r: DerTree)
      requires forall i :: 0 <= i < |nodes| ==> nodes[i].Valid()
      ensures fresh(r) && r.spec == Cons(TAG_SEQUENCE, false, Specs(nodes))
      ensures r.Valid() && r.Nodes == {r} + NodesOf(nodes) && r.Sources == SourcesOf(nodes)
    {
      r := new DerTree.Constructed(TAG_SEQUENCE, nodes, false);
    }

    static method Set(nodes: seq<DerTree>) returns (r: DerTree)
      requires forall i :: 0 <= i < |nodes| ==> nodes[i].Valid()
      ensures fresh(r) && r.spec == Cons(TAG_SET, true, Specs(nodes))
      ensures r.Valid() && r.Nodes == {r} + NodesOf(nodes) && r.Sources == SourcesOf(nodes)
    {
      r := new DerTree.Constructed(TAG_SET, nodes, true);
    }

    static method Context(i: int32, nodes: seq<DerTree>) returns (r: DerTree)
      requires forall k :: 0 <= k < |nodes| ==> nodes[k].Valid()
      ensures fresh(r) && r.spec == Cons(ContextTag(i), false, Specs(nodes))
      ensures r.Valid() && r.Nodes == {r} + NodesOf(nodes) && r.Sources == SourcesOf(nodes)
    {
      r := new DerTree.Constructed(ContextTag(i), nodes, false);
    }

    static method Application(i: int32, nodes: seq<DerTree>) returns (r: DerTree)
      requires forall k :: 0 <= k < |nodes| ==> nodes[k].Valid()
      ensures fresh(r) && r.spec == Cons(ApplicationTag(i), false, Specs(nodes))
      ensures r.Valid() && r.Nodes == {r} + NodesOf(nodes) && r.Sources == SourcesOf(nodes)
    {
      r := new DerTree.Constructed(ApplicationTag(i), nodes, false);
    }

    /** `TIME(t)` for an instant `epochSecond` seconds after the epoch, with
        the text `DateTimeFormatter` produces for it given as octets. */
    static method Time(epochSecond: int, formatted: seq<byte>) returns (r: DerTree)
      ensures fresh(r) && r.spec == Prim(TimeTag(epochSecond), formatted)
      ensures r.Valid() && r.Nodes == {r} && r.Sources == {}
    {
      r := new DerTree.Primitive(TimeTag(epochSecond), formatted);
    }

    static method Wrap(data: seq<byte>) returns (r: DerTree)
      ensures fresh(r) && r.spec == Raw(data) && r.encoding == Some(data)
      ensures r.Valid() && r.Nodes == {r} && r.Sources == {}
    {
      r := new DerTree.FromEncoding(data);
    }

    // Indefinite helper

    /** `startIndefinite(os, tag)`. */
    static method StartIndefinite(os: Sink, t: byte) returns (h: IndefiniteHolder)
      modifies os
      ensures fresh(h) && h.os == os && os.written == old(os.written) + [t, 0x80]
    {
      h := new IndefiniteHolder(os, t);
    }

    /** `startIndefinite(os, tagSupplier)`: the node's tag with the
        constructed bit. */
    static method StartIndefiniteFor(os: Sink, tagSupplier: DerTree) returns (h: IndefiniteHolder)
      modifies os
      ensures fresh(h) && h.os == os
      ensures os.written == old(os.written) + IndefiniteHeader(tagSupplier.tag)
    {
      h := new IndefiniteHolder(os, WithConstructedBit(tagSupplier.tag));
    }
  }

  /** `DerTree.IndefiniteHolder`: writes the indefinite header when it is
      created and the end-of-contents octets when it is closed. */
  class IndefiniteHolder {
    const os: Sink

    constructor (os: Sink, t: byte)
      modifies os
      ensures this.os == os && os.written == old(os.written) + [t, 0x80]
    {
      this.os := os;
      new;
      os.Write(t);
      os.Write(0x80);
    }

    /** `close()`: `os.write(new byte[2])`. */
    method Close()
      modifies os
      ensures os.written == old(os.written) + EOC
    {
      os.WriteAll([0, 0]);
    }
  }
}
