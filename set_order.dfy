/** The ordering DerTree applies to the members of a SET: the members'
    complete encodings sorted with `Arrays.sort(sets, Arrays::compare)`. */
module SetOrder {
  import opened Bytes

  predicate Sorted(s: seq<seq<byte>>) {
    forall i, j :: 0 <= i < j < |s| ==> SignedLe(s[i], s[j])
  }

  /** Inserts `e` in front of the first element it sorts no later than. */
  function Insert(e: seq<byte>, s: seq<seq<byte>>): seq<seq<byte>> {
    if s == [] then [e]
    else if SignedLe(e, s[0]) then [e] + s
    else [s[0]] + Insert(e, s[1..])
  }

  /** The sorted arrangement of `s` (insertion sort, as a reference definition). */
  function Sort(s: seq<seq<byte>>): seq<seq<byte>> {
    if s == [] then [] else Insert(s[0], Sort(s[1..]))
  }

  /** The octets of the encodings of `ss`, one after the other. */
  function Concat(ss: seq<seq<byte>>): seq<byte> {
    if ss == [] then [] else Concat(ss[..|ss| - 1]) + ss[|ss| - 1]
  }

  lemma {:induction false} InsertProperties(e: seq<byte>, s: seq<seq<byte>>)
    requires Sorted(s)
    ensures Sorted(Insert(e, s))
    ensures multiset(Insert(e, s)) == multiset(s) + multiset{e}
  {
    if s == [] {
    } else if SignedLe(e, s[0]) {
      forall j | 0 < j < |s| ensures SignedLe(e, s[j]) {
        SignedLeTransitive(e, s[0], s[j]);
      }
      SortedCons(e, s);
    } else {
      SignedLeTotal(e, s[0]);
      InsertProperties(e, s[1..]);
      var r := Insert(e, s[1..]);
      assert s == [s[0]] + s[1..];
      LowerBoundOfPermutation(s[0], r, s[1..], e);
      SortedCons(s[0], r);
    }
  }

  /** A sorted sequence stays sorted behind a lower bound of it. */
  lemma SortedCons(x: seq<byte>, r: seq<seq<byte>>)
    requires Sorted(r) && forall j :: 0 <= j < |r| ==> SignedLe(x, r[j])
    ensures Sorted([x] + r)
  {
    var t := [x] + r;
    forall i, j | 0 <= i < j < |t| ensures SignedLe(t[i], t[j]) {
      if i == 0 {
        assert t[j] == r[j - 1];
      } else {
        assert t[i] == r[i - 1] && t[j] == r[j - 1];
      }
    }
  }

  /** An element no later than every element of `s` and than `e` is no
      later than every element of a permutation of `s` with `e`. */
  lemma LowerBoundOfPermutation(x: seq<byte>, r: seq<seq<byte>>, s: seq<seq<byte>>, e: seq<byte>)
    requires forall k :: 0 <= k < |s| ==> SignedLe(x, s[k])
    requires SignedLe(x, e) && multiset(r) == multiset(s) + multiset{e}
    ensures forall j :: 0 <= j < |r| ==> SignedLe(x, r[j])
  {
    forall j | 0 <= j < |r| ensures SignedLe(x, r[j]) {
      assert r[j] in multiset(r);
      if r[j] != e {
        assert r[j] in multiset(s);
        var k :| 0 <= k < |s| && s[k] == r[j];
      }
    }
  }

  lemma {:induction false} SortProperties(s: seq<seq<byte>>)
    ensures Sorted(Sort(s))
    ensures multiset(Sort(s)) == multiset(s)
  {
    if s != [] {
      SortProperties(s[1..]);
      InsertProperties(s[0], Sort(s[1..]));
      assert s == [s[0]] + s[1..];
    }
  }

  /** The least element of a sorted sequence is its first. */
  lemma SortedHeadIsLeast(s: seq<seq<byte>>, x: seq<byte>)
    requires Sorted(s) && x in multiset(s)
    ensures SignedLe(s[0], x)
  {
    var k :| 0 <= k < |s| && s[k] == x;
    if k > 0 {
    } else {
      CompareAntisymmetric(x, x);
    }
  }

  /** A sorted permutation is unique: `Arrays.sort` has only one possible
      result, whatever algorithm it uses. */
  lemma {:induction false} SortedUnique(a: seq<seq<byte>>, b: seq<seq<byte>>)
    requires Sorted(a) && Sorted(b) && multiset(a) == multiset(b)
    ensures a == b
    decreases |a|
  {
    if a != [] {
      assert |b| == |multiset(b)| == |multiset(a)| == |a|;
      SameHeads(a, b);
      Tails(a);
      Tails(b);
      SortedUnique(a[1..], b[1..]);
    }
  }

  /** Two sorted permutations of each other start with the same element. */
  lemma SameHeads(a: seq<seq<byte>>, b: seq<seq<byte>>)
    requires Sorted(a) && Sorted(b) && multiset(a) == multiset(b) && a != [] && b != []
    ensures a[0] == b[0]
  {
    assert a[0] in multiset(b) by { assert a[0] in multiset(a); }
    assert b[0] in multiset(a) by { assert b[0] in multiset(b); }
    SortedHeadIsLeast(b, a[0]);
    SortedHeadIsLeast(a, b[0]);
    SignedLeAntisymmetric(a[0], b[0]);
  }

  /** The tail of a sorted sequence is sorted and holds all but its head. */
  lemma Tails(a: seq<seq<byte>>)
    requires Sorted(a) && a != []
    ensures Sorted(a[1..]) && multiset(a[1..]) == multiset(a) - multiset{a[0]}
  {
    assert a == [a[0]] + a[1..];
  }

  /** Any sorted permutation of `s` is `Sort(s)`. */
  lemma SortedPermutationIsSort(s: seq<seq<byte>>, r: seq<seq<byte>>)
    requires Sorted(r) && multiset(r) == multiset(s)
    ensures r == Sort(s)
  {
    SortProperties(s);
    SortedUnique(r, Sort(s));
  }

  /** Writing one more element after the concatenation of those before it. */
  lemma ConcatStep(w: seq<byte>, ss: seq<seq<byte>>, i: nat)
    requires i < |ss|
    ensures w + Concat(ss[..i]) + ss[i] == w + Concat(ss[..i + 1])
  {
    assert ss[..i + 1][..i] == ss[..i];
  }

  lemma {:induction false} ConcatAppend(a: seq<seq<byte>>, b: seq<seq<byte>>)
    ensures Concat(a + b) == Concat(a) + Concat(b)
    decreases |b|
  {
    if b == [] {
      assert a + b == a;
    } else {
      var b' := b[..|b| - 1];
      assert (a + b)[..|a + b| - 1] == a + b';
      ConcatAppend(a, b');
    }
  }

  lemma {:induction false} InsertLength(e: seq<byte>, s: seq<seq<byte>>)
    ensures |Concat(Insert(e, s))| == |e| + |Concat(s)|
  {
    if s == [] {
      assert Concat([e]) == Concat([]) + e;
    } else if SignedLe(e, s[0]) {
      ConcatAppend([e], s);
      assert Concat([e]) == Concat([]) + e;
    } else {
      InsertLength(e, s[1..]);
      ConcatAppend([s[0]], Insert(e, s[1..]));
      ConcatAppend([s[0]], s[1..]);
      assert s == [s[0]] + s[1..];
    }
  }

  /** Sorting the members of a SET does not change its content length. */
  lemma {:induction false} SortLength(s: seq<seq<byte>>)
    ensures |Concat(Sort(s))| == |Concat(s)|
  {
    if s != [] {
      SortLength(s[1..]);
      InsertLength(s[0], Sort(s[1..]));
      ConcatAppend([s[0]], s[1..]);
      assert s == [s[0]] + s[1..];
      assert Concat([s[0]]) == Concat([]) + s[0];
    }
  }

  /** The first `n` elements of `a` are in order. */
  predicate SortedPrefix(a: array<seq<byte>>, n: int)
    reads a
    requires 0 <= n <= a.Length
  {
    forall p, q :: 0 <= p < q < n ==> SignedLe(a[p], a[q])
  }

  /** Exchanges `a[k - 1]` and `a[k]`. */
  method Swap(a: array<seq<byte>>, k: int)
    requires 0 < k < a.Length
    modifies a
    ensures a[..] == old(a[..])[k - 1 := old(a[k])][k := old(a[k - 1])]
    ensures multiset(a[..]) == multiset(old(a[..]))
  {
    a[k - 1], a[k] := a[k], a[k - 1];
  }

  /** Moves `a[i]` down into the sorted prefix `a[0..i)` by adjacent swaps. */
  method SinkInto(a: array<seq<byte>>, i: int)
    requires 0 <= i < a.Length && SortedPrefix(a, i)
    modifies a
    ensures SortedPrefix(a, i + 1)
    ensures multiset(a[..]) == multiset(old(a[..]))
  {
    var j := i;
    while j > 0 && !SignedLe(a[j - 1], a[j])
      invariant 0 <= j <= i
      invariant forall p, q :: 0 <= p < q <= i && q != j ==> SignedLe(a[p], a[q])
      invariant multiset(a[..]) == multiset(old(a[..]))
    {
      SignedLeTotal(a[j - 1], a[j]);
      Swap(a, j);
      j := j - 1;
    }
    forall p | 0 <= p < j - 1
      ensures SignedLe(a[p], a[j])
    {
      SignedLeTransitive(a[p], a[j - 1], a[j]);
    }
  }

  /** `Arrays.sort(sets, Arrays::compare)` on the array of member encodings
      (an insertion sort by adjacent swaps). */
  method SortInPlace(a: array<seq<byte>>)
    modifies a
    ensures Sorted(a[..])
    ensures multiset(a[..]) == multiset(old(a[..]))
  {
    var i := 0;
    while i < a.Length
      invariant 0 <= i <= a.Length
      invariant SortedPrefix(a, i)
      invariant multiset(a[..]) == multiset(old(a[..]))
    {
      SinkInto(a, i);
      i := i + 1;
    }
  }
}
