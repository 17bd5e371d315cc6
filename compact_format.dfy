/** The integer and string state of `java.text.CompactNumberFormat`: the
    per-index pattern tables and divisors that `processCompactPatterns`
    and `applyPattern` build, the pattern index `selectCompactPattern`
    picks for a `BigInteger`, and the digit-count and grouping-size
    setters. */
module CompactFormats {
  import opened Wrappers
  import opened PowersOfTen
  import opened CompactPatterns
  import opened CompactAffixes

  /** `DecimalFormat.DOUBLE_INTEGER_DIGITS` and `DOUBLE_FRACTION_DIGITS`. */
  const DOUBLE_INTEGER_DIGITS: int := 309
  const DOUBLE_FRACTION_DIGITS: int := 340

  /** One entry of the `compactPatterns` array: `null`, a single pattern
      (stored for the count "other"), or the plural form "{one:... other:...}"
      as the (count, pattern) pairs `COUNT_PATTERN` finds in it. */
  datatype PatternText = Null | Plain(pattern: string) | Plural(counts: seq<(string, string)>)

  /** The `IllegalArgumentException` of `setGroupingSize`. */
  datatype ArgumentError = GroupingSizeOutOfRange(value: int)

  /** The six per-index lists: the four affix tables, the place holder
      (zeros) table and the divisors. */
  datatype Tables = Tables(
    positivePrefix: seq<map<string, string>>, negativePrefix: seq<map<string, string>>,
    positiveSuffix: seq<map<string, string>>, negativeSuffix: seq<map<string, string>>,
    placeHolder: seq<map<string, string>>, divisors: seq<nat>)

  const EMPTY_TABLES := Tables([], [], [], [], [], [])

  /** All five pattern tables have `n` entries. */
  predicate Shaped(t: Tables, n: nat) {
    |t.positivePrefix| == n && |t.negativePrefix| == n && |t.positiveSuffix| == n &&
    |t.negativeSuffix| == n && |t.placeHolder| == n
  }

  /** The five `new Patterns()` added for the next index. */
  function Extend(t: Tables): (r: Tables)
    ensures forall n: nat :: Shaped(t, n) ==> Shaped(r, n + 1)
  {
    t.(positivePrefix := t.positivePrefix + [map[]], negativePrefix := t.negativePrefix + [map[]],
       positiveSuffix := t.positiveSuffix + [map[]], negativeSuffix := t.negativeSuffix + [map[]],
       placeHolder := t.placeHolder + [map[]])
  }

  /** A compiled pattern has an affix when its positive prefix or suffix is non-empty. */
  predicate HasAffix(c: Compiled) {
    c.positivePrefix != [] || c.positiveSuffix != []
  }

  /** What `applyPattern` stores: the compiled pattern when it has an
      affix, otherwise empty strings throughout. */
  function Stored(c: Compiled): (s: Compiled)
    ensures HasAffix(c) ==> s == c
    ensures !HasAffix(c) ==> s.positivePrefix == s.negativePrefix == s.positiveSuffix == s.negativeSuffix == "" && s.zeros == 0
  {
    if HasAffix(c) then c else Compiled("", "", "", "", 0)
  }

  /** The divisor `applyPattern` adds: 1 for a pattern without an affix,
      otherwise the divisor `computeDivisor(zeros, index)` is meant to give,
      with exact powers of ten (`ComputeDivisor`). `StoredDivisorAgrees`
      says where this is also the value the code as written computes. */
  function StoredDivisor(c: Compiled, index: nat): (d: Option<nat>)
    ensures !HasAffix(c) ==> d == Some(1)
    ensures HasAffix(c) && c.zeros == 0 ==> d == Some(Pow10(index))
    ensures HasAffix(c) && c.zeros > 0 ==> (d.None? <==> Pow10(index) < Pow10(c.zeros - 1))
    ensures HasAffix(c) && c.zeros > 0 && d.Some? ==> d.value * Pow10(c.zeros - 1) == Pow10(index)
  {
    if !HasAffix(c) then Some(1)
    else if c.zeros == 0 then ComputeDivisor(0, index)
    else DivisorCorrect(c.zeros, index); ComputeDivisor(c.zeros, index)
  }

  /** With fewer than 20 zeros, or below index 19, the divisor stored is the
      one `applyPattern` as written computes. */
  lemma StoredDivisorAgrees(c: Compiled, index: nat)
    requires c.zeros <= 19 || index < 19
    ensures StoredDivisor(c, index) == if HasAffix(c) then ComputeDivisorAsWritten(c.zeros, index) else Some(1)
  {
    if HasAffix(c) {
      DivisorAgrees(c.zeros, index);
    }
  }

  /** `put(count, ...)` into the five tables at `index`. */
  function Put(t: Tables, index: nat, count: string, s: Compiled): (r: Tables)
    requires index < |t.positivePrefix| && Shaped(t, |t.positivePrefix|)
    ensures Shaped(r, |t.positivePrefix|) && r.divisors == t.divisors
  {
    t.(positivePrefix := t.positivePrefix[index := t.positivePrefix[index][count := s.positivePrefix]],
       negativePrefix := t.negativePrefix[index := t.negativePrefix[index][count := s.negativePrefix]],
       positiveSuffix := t.positiveSuffix[index := t.positiveSuffix[index][count := s.positiveSuffix]],
       negativeSuffix := t.negativeSuffix[index := t.negativeSuffix[index][count := s.negativeSuffix]],
       placeHolder := t.placeHolder[index := t.placeHolder[index][count := Zeros(s.zeros)]])
  }

  /** `applyPattern(count, pattern, index)` on the tables; `None` is a
      null pattern. */
  function Apply(t: Tables, count: string, pattern: Option<string>, index: nat): (r: Result<Tables, PatternError>)
    requires index < |t.positivePrefix| && Shaped(t, |t.positivePrefix|)
    ensures r.Success? ==> Shaped(r.value, |t.positivePrefix|)
  {
    if pattern.None? then Failure(NullPattern(index))
    else
      match Compile(pattern.value)
      case Failure(e) => Failure(e)
      case Success(c) =>
        var t1 := Put(t, index, count, Stored(c));
        if |t.divisors| <= index then
          match StoredDivisor(c, index)
          case None => Failure(DigitsExceedLimit(index))
          case Some(d) => Success(t1.(divisors := t.divisors + [d]))
        else Success(t1)
  }

  /** The plural form: `applyPattern` for each (count, pattern) pair in turn. */
  function ApplyAll(t: Tables, counts: seq<(string, string)>, index: nat): (r: Result<Tables, PatternError>)
    requires index < |t.positivePrefix| && Shaped(t, |t.positivePrefix|)
    ensures r.Success? ==> Shaped(r.value, |t.positivePrefix|)
    decreases |counts|
  {
    if counts == [] then Success(t)
    else
      match Apply(t, counts[0].0, Some(counts[0].1), index)
      case Failure(e) => Failure(e)
      case Success(t1) => ApplyAll(t1, counts[1..], index)
  }

  /** One iteration of the `processCompactPatterns` loop, after the new
      `Patterns` have been added. */
  function ApplyEntry(t: Tables, text: PatternText, index: nat): (r: Result<Tables, PatternError>)
    requires index < |t.positivePrefix| && Shaped(t, |t.positivePrefix|)
    ensures r.Success? ==> Shaped(r.value, |t.positivePrefix|)
  {
    match text
    case Null => Apply(t, "other", None, index)
    case Plain(p) => Apply(t, "other", Some(p), index)
    case Plural(counts) => ApplyAll(t, counts, index)
  }

  /** The tables after the first `k` entries of `patterns` are processed. */
  function Process(patterns: seq<PatternText>, k: nat): (r: Result<Tables, PatternError>)
    requires k <= |patterns|
    ensures r.Success? ==> Shaped(r.value, k)
  {
    if k == 0 then Success(EMPTY_TABLES)
    else
      match Process(patterns, k - 1)
      case Failure(e) => Failure(e)
      case Success(t) => ApplyEntry(Extend(t), patterns[k - 1], k - 1)
  }

  lemma ProcessStep(patterns: seq<PatternText>, k: nat, t: Tables)
    requires k < |patterns| && Process(patterns, k) == Success(t)
    ensures Process(patterns, k + 1) == ApplyEntry(Extend(t), patterns[k], k)
  {
  }

  /** Once an entry fails, processing fails with its error. */
  lemma {:induction false} ProcessFails(patterns: seq<PatternText>, k: nat, k': nat)
    requires k <= k' <= |patterns| && Process(patterns, k).Failure?
    ensures Process(patterns, k') == Process(patterns, k)
    decreases k' - k
  {
    if k < k' {
      ProcessFails(patterns, k, k' - 1);
    }
  }

  /** An entry applies at least one pattern: a plain pattern, or a plural
      form in which `COUNT_PATTERN` found some count. */
  predicate Applies(text: PatternText) {
    text.Plain? || (text.Plural? && |text.counts| > 0)
  }

  /** The pattern whose divisor an index gets: the first one applied. */
  function FirstPattern(text: PatternText): string
    requires Applies(text)
  {
    if text.Plain? then text.pattern else text.counts[0].1
  }

  /** Every stored affix is well quoted. */
  predicate AffixesWellQuoted(t: Tables) {
    (forall i, c :: 0 <= i < |t.positivePrefix| && c in t.positivePrefix[i] ==> WellQuoted(t.positivePrefix[i][c])) &&
    (forall i, c :: 0 <= i < |t.negativePrefix| && c in t.negativePrefix[i] ==> WellQuoted(t.negativePrefix[i][c])) &&
    (forall i, c :: 0 <= i < |t.positiveSuffix| && c in t.positiveSuffix[i] ==> WellQuoted(t.positiveSuffix[i][c])) &&
    (forall i, c :: 0 <= i < |t.negativeSuffix| && c in t.negativeSuffix[i] ==> WellQuoted(t.negativeSuffix[i][c]))
  }

  /** Every divisor is at least one. */
  predicate DivisorsPositive(t: Tables) {
    forall i :: 0 <= i < |t.divisors| ==> t.divisors[i] >= 1
  }

  /** The tables of a format whose `n` patterns have been processed. */
  predicate TablesValid(t: Tables, n: nat) {
    Shaped(t, n) && AffixesWellQuoted(t) && DivisorsPositive(t)
  }

  lemma StoredWellQuoted(c: Compiled)
    requires WellQuoted(c.positivePrefix) && WellQuoted(c.positiveSuffix)
    requires WellQuoted(c.negativePrefix) && WellQuoted(c.negativeSuffix)
    ensures var s := Stored(c);
      WellQuoted(s.positivePrefix) && WellQuoted(s.positiveSuffix) &&
      WellQuoted(s.negativePrefix) && WellQuoted(s.negativeSuffix)
  {
  }

  lemma PutKeeps(t: Tables, index: nat, count: string, s: Compiled)
    requires index < |t.positivePrefix| && Shaped(t, |t.positivePrefix|)
    requires AffixesWellQuoted(t) && DivisorsPositive(t)
    requires WellQuoted(s.positivePrefix) && WellQuoted(s.positiveSuffix)
    requires WellQuoted(s.negativePrefix) && WellQuoted(s.negativeSuffix)
    ensures AffixesWellQuoted(Put(t, index, count, s)) && DivisorsPositive(Put(t, index, count, s))
  {
  }

  lemma DivisorPositive(c: Compiled, index: nat)
    requires StoredDivisor(c, index).Some?
    ensures StoredDivisor(c, index).value >= 1
  {
  }

  /** `applyPattern` keeps every stored affix well quoted and every divisor positive. */
  lemma ApplyKeeps(t: Tables, count: string, pattern: Option<string>, index: nat)
    requires index < |t.positivePrefix| && Shaped(t, |t.positivePrefix|)
    requires AffixesWellQuoted(t) && DivisorsPositive(t)
    ensures var r := Apply(t, count, pattern, index);
      r.Success? ==> AffixesWellQuoted(r.value) && DivisorsPositive(r.value)
  {
    if pattern.Some? && Compile(pattern.value).Success? {
      var c := Compile(pattern.value).value;
      CompiledWellQuoted(pattern.value);
      StoredWellQuoted(c);
      PutKeeps(t, index, count, Stored(c));
      if StoredDivisor(c, index).Some? {
        DivisorPositive(c, index);
      }
    }
  }

  lemma {:induction false} ApplyAllKeeps(t: Tables, counts: seq<(string, string)>, index: nat)
    requires index < |t.positivePrefix| && Shaped(t, |t.positivePrefix|)
    requires AffixesWellQuoted(t) && DivisorsPositive(t)
    ensures var r := ApplyAll(t, counts, index);
      r.Success? ==> AffixesWellQuoted(r.value) && DivisorsPositive(r.value)
    decreases |counts|
  {
    if counts != [] {
      ApplyKeeps(t, counts[0].0, Some(counts[0].1), index);
      var a := Apply(t, counts[0].0, Some(counts[0].1), index);
      if a.Success? {
        ApplyAllKeeps(a.value, counts[1..], index);
      }
    }
  }

  /** Processing keeps the affixes well quoted, so `expandAffix` can expand
      every one of them, and stores only positive divisors. */
  lemma {:induction false} ProcessKeeps(patterns: seq<PatternText>, k: nat)
    requires k <= |patterns|
    ensures Process(patterns, k).Success? ==> TablesValid(Process(patterns, k).value, k)
  {
    if k > 0 {
      ProcessKeeps(patterns, k - 1);
      var p := Process(patterns, k - 1);
      if p.Success? {
        var t := Extend(p.value);
        assert AffixesWellQuoted(t) by {
          forall i, c | 0 <= i < |t.positivePrefix| && c in t.positivePrefix[i]
            ensures WellQuoted(t.positivePrefix[i][c])
          {
            assert i < k - 1;
            assert t.positivePrefix[i] == p.value.positivePrefix[i];
          }
          forall i, c | 0 <= i < |t.negativePrefix| && c in t.negativePrefix[i]
            ensures WellQuoted(t.negativePrefix[i][c])
          {
            assert i < k - 1;
            assert t.negativePrefix[i] == p.value.negativePrefix[i];
          }
          forall i, c | 0 <= i < |t.positiveSuffix| && c in t.positiveSuffix[i]
            ensures WellQuoted(t.positiveSuffix[i][c])
          {
            assert i < k - 1;
            assert t.positiveSuffix[i] == p.value.positiveSuffix[i];
          }
          forall i, c | 0 <= i < |t.negativeSuffix| && c in t.negativeSuffix[i]
            ensures WellQuoted(t.negativeSuffix[i][c])
          {
            assert i < k - 1;
            assert t.negativeSuffix[i] == p.value.negativeSuffix[i];
          }
        }
        match patterns[k - 1]
        case Null =>
        case Plain(s) => ApplyKeeps(t, "other", Some(s), k - 1);
        case Plural(counts) => ApplyAllKeeps(t, counts, k - 1);
      }
    }
  }

  /** `applyPattern` adds a divisor only when it has none yet for `index`:
      the divisor list grows by one exactly when it had `index` or fewer
      entries, and keeps the ones it had. */
  lemma ApplyDivisors(t: Tables, count: string, pattern: Option<string>, index: nat)
    requires index < |t.positivePrefix| && Shaped(t, |t.positivePrefix|)
    ensures var r := Apply(t, count, pattern, index);
      r.Success? ==>
        |r.value.divisors| == (if |t.divisors| <= index then |t.divisors| + 1 else |t.divisors|) &&
        r.value.divisors[..|t.divisors|] == t.divisors
  {
    if pattern.Some? {
      match Compile(pattern.value)
      case Failure(_) =>
      case Success(c) =>
        if |t.divisors| <= index && StoredDivisor(c, index).Some? {
          assert (t.divisors + [StoredDivisor(c, index).value])[..|t.divisors|] == t.divisors;
        }
    }
  }

  /** A plural form that applies one pattern or more gives the index the
      divisor of its first pattern when the index had none. */
  lemma {:induction false} ApplyAllDivisors(t: Tables, counts: seq<(string, string)>, index: nat)
    requires index < |t.positivePrefix| && Shaped(t, |t.positivePrefix|)
    requires |t.divisors| == index || |t.divisors| == index + 1
    ensures var r := ApplyAll(t, counts, index);
      r.Success? ==>
        |t.divisors| <= |r.value.divisors| && r.value.divisors[..|t.divisors|] == t.divisors &&
        (counts != [] && |t.divisors| == index ==>
          |r.value.divisors| == index + 1 &&
          Some(r.value.divisors[index]) == StoredDivisor(Compile(counts[0].1).value, index)) &&
        (counts == [] || |t.divisors| == index + 1 ==> r.value.divisors == t.divisors)
    decreases |counts|
  {
    if counts != [] {
      ApplyDivisors(t, counts[0].0, Some(counts[0].1), index);
      var a := Apply(t, counts[0].0, Some(counts[0].1), index);
      if a.Success? {
        ApplyAllDivisors(a.value, counts[1..], index);
        assert |a.value.divisors| == index + 1;
        if |t.divisors| == index + 1 {
          assert a.value.divisors == a.value.divisors[..|t.divisors|];
        }
        var r := ApplyAll(a.value, counts[1..], index);
        if r.Success? {
          assert r.value.divisors == a.value.divisors;
        }
      }
    }
  }

  /** An entry that applies a pattern, at an index that has no divisor yet,
      appends the divisor of its first pattern and keeps the earlier ones. */
  lemma EntryDivisor(t: Tables, text: PatternText, index: nat)
    requires index < |t.positivePrefix| && Shaped(t, |t.positivePrefix|)
    requires Applies(text) && |t.divisors| == index
    ensures var r := ApplyEntry(t, text, index);
      r.Success? ==>
        |r.value.divisors| == index + 1 && r.value.divisors[..index] == t.divisors &&
        Compile(FirstPattern(text)).Success? &&
        Some(r.value.divisors[index]) == StoredDivisor(Compile(FirstPattern(text)).value, index)
  {
    match text {
      case Plain(s) =>
        ApplyDivisors(t, "other", Some(s), index);
      case Plural(counts) =>
        ApplyAllDivisors(t, counts, index);
        if ApplyAll(t, counts, index).Success? {
          assert Apply(t, counts[0].0, Some(counts[0].1), index).Success?;
        }
    }
  }

  /** One entry per index in the divisor list, holding the divisor of the
      index's first pattern, provided every entry applies a pattern. */
  lemma {:induction false} DivisorsAligned(patterns: seq<PatternText>, k: nat)
    requires k <= |patterns| && forall i :: 0 <= i < k ==> Applies(patterns[i])
    ensures var r := Process(patterns, k);
      r.Success? ==>
        |r.value.divisors| == k &&
        forall i :: 0 <= i < k ==>
          Compile(FirstPattern(patterns[i])).Success? &&
          Some(r.value.divisors[i]) == StoredDivisor(Compile(FirstPattern(patterns[i])).value, i)
  {
    if k > 0 {
      DivisorsAligned(patterns, k - 1);
      var p := Process(patterns, k - 1);
      if p.Success? {
        var t := Extend(p.value);
        EntryDivisor(t, patterns[k - 1], k - 1);
        var r := ApplyEntry(t, patterns[k - 1], k - 1);
        if r.Success? {
          forall i | 0 <= i < k - 1
            ensures r.value.divisors[i] == p.value.divisors[i]
          {
            assert r.value.divisors[..k - 1][i] == p.value.divisors[i];
          }
        }
      }
    }
  }

  /** A plural form in which no count was found leaves its index without a
      divisor, so the divisor of the next index lands in its place. */
  lemma EmptyPluralShiftsDivisors()
    ensures Process([Plural([]), Plain("0K")], 2).Success?
    ensures Process([Plural([]), Plain("0K")], 2).value.divisors == [10]
  {
    CompileSingle("", 1, "K", "", "K");
    assert "" + Zeros(1) + "K" == "0K";
    assert Pow10(1) == 10;
  }

  /** `PatternsGet` of a table whose affixes are well quoted is well quoted. */
  lemma GetWellQuoted(patterns: map<string, string>, category: string)
    requires forall c :: c in patterns ==> WellQuoted(patterns[c])
    ensures WellQuoted(PatternsGet(patterns, category))
  {
  }

  /** Java's `Math.max(0, Math.min(v, limit))`: how the setters bound a digit count. */
  function Clamp(v: int, limit: nat): (r: int)
    ensures 0 <= r <= limit
    ensures 0 <= v <= limit ==> r == v
    ensures v > limit ==> r == limit
    ensures v < 0 ==> r == 0
  {
    if v < 0 then 0 else if v > limit then limit else v
  }

  function Max(a: int, b: int): int {
    if a >= b then a else b
  }

  /** The index `selectCompactPattern(BigInteger)` returns when there is one:
      the largest index below `size` whose power of ten does not exceed `n`. */
  predicate LargestIndex(size: nat, n: int, i: int) {
    0 <= i < size && Pow10(i) <= n && (i == size - 1 || n < Pow10(i + 1))
  }

  /** The digit-count form of `LargestIndex`: `min(floor(log10(n)), size - 1)`. */
  function SelectByDigits(size: nat, n: int): int {
    if size == 0 || n < 1 then -1
    else if Log10Floor(n) < size - 1 then Log10Floor(n) else size - 1
  }

  lemma LargestIsByDigits(size: nat, n: int, i: int)
    requires LargestIndex(size, n, i)
    ensures i == SelectByDigits(size, n)
  {
    Log10FloorAtLeast(n, i);
    if i < size - 1 {
      Log10FloorUnique(n, i);
    }
  }

  lemma ByDigitsIsLargest(size: nat, n: int)
    requires size > 0 && n >= 1
    ensures LargestIndex(size, n, SelectByDigits(size, n))
  {
    Log10FloorBounds(n);
    var l := Log10Floor(n);
    if l >= size - 1 {
      Pow10Monotone(size - 1, l);
    }
  }

  class CompactNumberFormat {
    const compactPatterns: seq<PatternText>
    var positivePrefixPatterns: seq<map<string, string>>
    var negativePrefixPatterns: seq<map<string, string>>
    var positiveSuffixPatterns: seq<map<string, string>>
    var negativeSuffixPatterns: seq<map<string, string>>
    var placeHolderPatterns: seq<map<string, string>>
    var divisors: seq<nat>
    var minimumIntegerDigits: int
    var maximumIntegerDigits: int
    var minimumFractionDigits: int
    var maximumFractionDigits: int
    var groupingSize: int

    function TablesOf(): Tables
      reads this
    {
      Tables(positivePrefixPatterns, negativePrefixPatterns, positiveSuffixPatterns, negativeSuffixPatterns,
             placeHolderPatterns, divisors)
    }

    /** The bounds the digit setters maintain. */
    predicate DigitsValid()
      reads this
    {
      0 <= minimumIntegerDigits <= maximumIntegerDigits <= DOUBLE_INTEGER_DIGITS &&
      0 <= minimumFractionDigits <= maximumFractionDigits <= DOUBLE_FRACTION_DIGITS &&
      0 <= groupingSize <= 127
    }

    /** A format whose patterns have all been processed. */
    predicate Valid()
      reads this
    {
      DigitsValid() && TablesValid(TablesOf(), |compactPatterns|)
    }

    /** The four digit-count setter calls of the constructor, starting from
        the counts of the `DecimalFormat` built on the pattern "0"; the
        pattern tables are built by `ProcessCompactPatterns`. */
    constructor (patterns: seq<PatternText>, maxInt: int, minInt: int, maxFrac: int, minFrac: int)
      ensures compactPatterns == patterns && TablesOf() == EMPTY_TABLES && DigitsValid()
      ensures minimumIntegerDigits == Clamp(minInt, DOUBLE_INTEGER_DIGITS)
      ensures maximumIntegerDigits == Max(Clamp(maxInt, DOUBLE_INTEGER_DIGITS), Clamp(minInt, DOUBLE_INTEGER_DIGITS))
      ensures minimumFractionDigits == Clamp(minFrac, DOUBLE_FRACTION_DIGITS)
      ensures maximumFractionDigits == Max(Clamp(maxFrac, DOUBLE_FRACTION_DIGITS), Clamp(minFrac, DOUBLE_FRACTION_DIGITS))
      ensures 0 <= minInt <= maxInt <= DOUBLE_INTEGER_DIGITS && 0 <= minFrac <= maxFrac <= DOUBLE_FRACTION_DIGITS ==>
        minimumIntegerDigits == minInt && maximumIntegerDigits == maxInt &&
        minimumFractionDigits == minFrac && maximumFractionDigits == maxFrac
    {
      compactPatterns := patterns;
      positivePrefixPatterns, negativePrefixPatterns, positiveSuffixPatterns := [], [], [];
      negativeSuffixPatterns, placeHolderPatterns, divisors := [], [], [];
      minimumIntegerDigits, maximumIntegerDigits := 0, 0;
      minimumFractionDigits, maximumFractionDigits := 0, 0;
      groupingSize := 0;
      new;
      SetMaximumIntegerDigits(maxInt);
      SetMinimumIntegerDigits(minInt);
      SetMaximumFractionDigits(maxFrac);
      SetMinimumFractionDigits(minFrac);
    }

    /** `applyPattern(count, pattern, index)`. A null or invalid pattern
        is rejected before anything is stored; a divisor that cannot be
        computed is rejected after the affixes are stored. */
    method ApplyPattern(count: string, pattern: Option<string>, index: nat) returns (r: Result<(), PatternError>)
      requires index < |positivePrefixPatterns| && Shaped(TablesOf(), |positivePrefixPatterns|)
      modifies this`positivePrefixPatterns, this`negativePrefixPatterns, this`positiveSuffixPatterns,
               this`negativeSuffixPatterns, this`placeHolderPatterns, this`divisors
      ensures var a := Apply(old(TablesOf()), count, pattern, index);
        (r.Success? <==> a.Success?) && (a.Success? ==> TablesOf() == a.value) && (a.Failure? ==> r.error == a.error)
      ensures pattern.None? || Compile(pattern.value).Failure? ==> TablesOf() == old(TablesOf())
      ensures r == Failure(DigitsExceedLimit(index)) && pattern.Some? && Compile(pattern.value).Success? ==>
        TablesOf() == Put(old(TablesOf()), index, count, Stored(Compile(pattern.value).value))
    {
      if pattern.None? {
        return Failure(NullPattern(index));
      }
      var compiled := CompilePattern(pattern.value);
      if compiled.Failure? {
        return Failure(compiled.error);
      }
      var c := compiled.value;
      if c.positivePrefix != "" || c.positiveSuffix != "" {
        positivePrefixPatterns := positivePrefixPatterns[index := positivePrefixPatterns[index][count := c.positivePrefix]];
        negativePrefixPatterns := negativePrefixPatterns[index := negativePrefixPatterns[index][count := c.negativePrefix]];
        positiveSuffixPatterns := positiveSuffixPatterns[index := positiveSuffixPatterns[index][count := c.positiveSuffix]];
        negativeSuffixPatterns := negativeSuffixPatterns[index := negativeSuffixPatterns[index][count := c.negativeSuffix]];
        placeHolderPatterns := placeHolderPatterns[index := placeHolderPatterns[index][count := Zeros(c.zeros)]];
        if |divisors| <= index {
          var d := ComputeDivisor(c.zeros, index);
          if d.None? {
            return Failure(DigitsExceedLimit(index));
          }
          divisors := divisors + [d.value];
        }
      } else {
        positivePrefixPatterns := positivePrefixPatterns[index := positivePrefixPatterns[index][count := ""]];
        negativePrefixPatterns := negativePrefixPatterns[index := negativePrefixPatterns[index][count := ""]];
        positiveSuffixPatterns := positiveSuffixPatterns[index := positiveSuffixPatterns[index][count := ""]];
        negativeSuffixPatterns := negativeSuffixPatterns[index := negativeSuffixPatterns[index][count := ""]];
        placeHolderPatterns := placeHolderPatterns[index := placeHolderPatterns[index][count := ""]];
        if |divisors| <= index {
          divisors := divisors + [1];
        }
      }
      r := Success(());
    }

    /** The `forEach` over the counts of a plural form. */
    method ApplyCounts(counts: seq<(string, string)>, index: nat) returns (r: Result<(), PatternError>)
      requires index < |positivePrefixPatterns| && Shaped(TablesOf(), |positivePrefixPatterns|)
      modifies this`positivePrefixPatterns, this`negativePrefixPatterns, this`positiveSuffixPatterns,
               this`negativeSuffixPatterns, this`placeHolderPatterns, this`divisors
      ensures var a := ApplyAll(old(TablesOf()), counts, index);
        (r.Success? <==> a.Success?) && (a.Success? ==> TablesOf() == a.value) && (a.Failure? ==> r.error == a.error)
    {
      ghost var t0 := TablesOf();
      var k := 0;
      while k < |counts|
        invariant 0 <= k <= |counts| && index < |positivePrefixPatterns| && Shaped(TablesOf(), |positivePrefixPatterns|)
        invariant ApplyAll(t0, counts, index) == ApplyAll(TablesOf(), counts[k..], index)
      {
        assert counts[k..][1..] == counts[k + 1..];
        r := ApplyPattern(counts[k].0, Some(counts[k].1), index);
        if r.Failure? {
          return;
        }
        k := k + 1;
      }
      r := Success(());
    }

    /** The body of the `processCompactPatterns` loop after the new
        `Patterns` are added: a single pattern is stored for "other". */
    method ApplyText(text: PatternText, index: nat) returns (r: Result<(), PatternError>)
      requires index < |positivePrefixPatterns| && Shaped(TablesOf(), |positivePrefixPatterns|)
      modifies this`positivePrefixPatterns, this`negativePrefixPatterns, this`positiveSuffixPatterns,
               this`negativeSuffixPatterns, this`placeHolderPatterns, this`divisors
      ensures var a := ApplyEntry(old(TablesOf()), text, index);
        (r.Success? <==> a.Success?) && (a.Success? ==> TablesOf() == a.value) && (a.Failure? ==> r.error == a.error)
    {
      match text {
        case Null => r := ApplyPattern("other", None, index);
        case Plain(p) => r := ApplyPattern("other", Some(p), index);
        case Plural(counts) => r := ApplyCounts(counts, index);
      }
    }

    /** One turn of the `processCompactPatterns` loop: new, empty
        `Patterns` for `index`, then the entry's patterns applied to them. */
    method ProcessEntry(index: nat) returns (r: Result<(), PatternError>)
      requires index < |compactPatterns| && Process(compactPatterns, index) == Success(TablesOf())
      modifies this`positivePrefixPatterns, this`negativePrefixPatterns, this`positiveSuffixPatterns,
               this`negativeSuffixPatterns, this`placeHolderPatterns, this`divisors
      ensures var p := Process(compactPatterns, index + 1);
        (r.Success? <==> p.Success?) && (p.Success? ==> TablesOf() == p.value) && (p.Failure? ==> r.error == p.error)
    {
      ghost var before := TablesOf();
      positivePrefixPatterns := positivePrefixPatterns + [map[]];
      negativePrefixPatterns := negativePrefixPatterns + [map[]];
      positiveSuffixPatterns := positiveSuffixPatterns + [map[]];
      negativeSuffixPatterns := negativeSuffixPatterns + [map[]];
      placeHolderPatterns := placeHolderPatterns + [map[]];
      assert TablesOf() == Extend(before);
      r := ApplyText(compactPatterns[index], index);
      ProcessStep(compactPatterns, index, before);
    }

    /** `processCompactPatterns()`: fresh tables, then one set of new
        `Patterns` and the entry's patterns for each index in turn. */
    method ProcessCompactPatterns() returns (r: Result<(), PatternError>)
      modifies this`positivePrefixPatterns, this`negativePrefixPatterns, this`positiveSuffixPatterns,
               this`negativeSuffixPatterns, this`placeHolderPatterns, this`divisors
      ensures var p := Process(compactPatterns, |compactPatterns|);
        (r.Success? <==> p.Success?) && (p.Success? ==> TablesOf() == p.value) && (p.Failure? ==> r.error == p.error)
    {
      positivePrefixPatterns, negativePrefixPatterns, positiveSuffixPatterns := [], [], [];
      negativeSuffixPatterns, placeHolderPatterns, divisors := [], [], [];
      var index := 0;
      while index < |compactPatterns|
        invariant 0 <= index <= |compactPatterns|
        invariant Process(compactPatterns, index) == Success(TablesOf())
      {
        r := ProcessEntry(index);
        if r.Failure? {
          ProcessFails(compactPatterns, index + 1, |compactPatterns|);
          return;
        }
        index := index + 1;
      }
      r := Success(());
    }

    /** `selectCompactPattern(BigInteger number)`: -1 without patterns or
        below one, otherwise the largest index whose power of ten does not
        exceed the number. */
    method SelectCompactPattern(number: int) returns (matchedIndex: int)
      ensures matchedIndex == -1 <==> |compactPatterns| == 0 || number < 1
      ensures matchedIndex != -1 ==> LargestIndex(|compactPatterns|, number, matchedIndex)
      ensures matchedIndex == SelectByDigits(|compactPatterns|, number)
    {
      matchedIndex := -1;
      if |compactPatterns| == 0 {
        return;
      }
      var currentValue := 1;
      var index := 0;
      while index < |compactPatterns|
        invariant 0 <= index <= |compactPatterns| && currentValue == Pow10(index)
        invariant matchedIndex == index - 1
        invariant index > 0 ==> Pow10(index - 1) < number
      {
        if number > currentValue {
          matchedIndex := index;
          currentValue := currentValue * RANGE_MULTIPLIER;
          index := index + 1;
          continue;
        }
        if number < currentValue {
          break;
        } else {
          matchedIndex := index;
          break;
        }
      }
      if matchedIndex != -1 {
        LargestIsByDigits(|compactPatterns|, number, matchedIndex);
      }
    }

    /** `setMaximumIntegerDigits`: at most 309 and not negative; the minimum
        is lowered to it when above. */
    method SetMaximumIntegerDigits(newValue: int)
      modifies this
      ensures maximumIntegerDigits == Clamp(newValue, DOUBLE_INTEGER_DIGITS)
      ensures minimumIntegerDigits == if old(minimumIntegerDigits) > maximumIntegerDigits then maximumIntegerDigits
                                      else old(minimumIntegerDigits)
      ensures minimumFractionDigits == old(minimumFractionDigits) && maximumFractionDigits == old(maximumFractionDigits)
      ensures groupingSize == old(groupingSize) && TablesOf() == old(TablesOf())
      ensures old(DigitsValid()) ==> DigitsValid()
    {
      maximumIntegerDigits := Clamp(newValue, DOUBLE_INTEGER_DIGITS);
      if minimumIntegerDigits > maximumIntegerDigits {
        minimumIntegerDigits := maximumIntegerDigits;
      }
    }

    /** `setMinimumIntegerDigits`: at most 309 and not negative; the maximum
        is raised to it when below. */
    method SetMinimumIntegerDigits(newValue: int)
      modifies this
      ensures minimumIntegerDigits == Clamp(newValue, DOUBLE_INTEGER_DIGITS)
      ensures maximumIntegerDigits == if minimumIntegerDigits > old(maximumIntegerDigits) then minimumIntegerDigits
                                      else old(maximumIntegerDigits)
      ensures minimumFractionDigits == old(minimumFractionDigits) && maximumFractionDigits == old(maximumFractionDigits)
      ensures groupingSize == old(groupingSize) && TablesOf() == old(TablesOf())
      ensures old(DigitsValid()) ==> DigitsValid()
    {
      minimumIntegerDigits := Clamp(newValue, DOUBLE_INTEGER_DIGITS);
      if minimumIntegerDigits > maximumIntegerDigits {
        maximumIntegerDigits := minimumIntegerDigits;
      }
    }

    /** `setMinimumFractionDigits`: at most 340 and not negative; the maximum
        is raised to it when below. */
    method SetMinimumFractionDigits(newValue: int)
      modifies this
      ensures minimumFractionDigits == Clamp(newValue, DOUBLE_FRACTION_DIGITS)
      ensures maximumFractionDigits == if minimumFractionDigits > old(maximumFractionDigits) then minimumFractionDigits
                                       else old(maximumFractionDigits)
      ensures minimumIntegerDigits == old(minimumIntegerDigits) && maximumIntegerDigits == old(maximumIntegerDigits)
      ensures groupingSize == old(groupingSize) && TablesOf() == old(TablesOf())
      ensures old(DigitsValid()) ==> DigitsValid()
    {
      minimumFractionDigits := Clamp(newValue, DOUBLE_FRACTION_DIGITS);
      if minimumFractionDigits > maximumFractionDigits {
        maximumFractionDigits := minimumFractionDigits;
      }
    }

    /** `setMaximumFractionDigits`: at most 340 and not negative; the minimum
        is lowered to it when above. */
    method SetMaximumFractionDigits(newValue: int)
      modifies this
      ensures maximumFractionDigits == Clamp(newValue, DOUBLE_FRACTION_DIGITS)
      ensures minimumFractionDigits == if old(minimumFractionDigits) > maximumFractionDigits then maximumFractionDigits
                                       else old(minimumFractionDigits)
      ensures minimumIntegerDigits == old(minimumIntegerDigits) && maximumIntegerDigits == old(maximumIntegerDigits)
      ensures groupingSize == old(groupingSize) && TablesOf() == old(TablesOf())
      ensures old(DigitsValid()) ==> DigitsValid()
    {
      maximumFractionDigits := Clamp(newValue, DOUBLE_FRACTION_DIGITS);
      if minimumFractionDigits > maximumFractionDigits {
        minimumFractionDigits := maximumFractionDigits;
      }
    }

    /** `setGroupingSize`: rejects a value outside 0..127 and changes nothing
        then; otherwise stores it (the `byte` cast keeps 0..127 as is). */
    method SetGroupingSize(newValue: int) returns (r: Result<(), ArgumentError>)
      modifies this
      ensures r.Failure? <==> newValue < 0 || newValue > 127
      ensures r.Failure? ==> r.error == GroupingSizeOutOfRange(newValue) && groupingSize == old(groupingSize)
      ensures r.Success? ==> groupingSize == newValue
      ensures minimumIntegerDigits == old(minimumIntegerDigits) && maximumIntegerDigits == old(maximumIntegerDigits)
      ensures minimumFractionDigits == old(minimumFractionDigits) && maximumFractionDigits == old(maximumFractionDigits)
      ensures TablesOf() == old(TablesOf())
      ensures old(DigitsValid()) ==> DigitsValid()
    {
      if newValue < 0 || newValue > 127 {
        return Failure(GroupingSizeOutOfRange(newValue));
      }
      groupingSize := newValue;
      r := Success(());
    }
  }

  /** The public constructor: the digit setters, then `processCompactPatterns`,
      whose exception the constructor passes on. */
  method NewCompactNumberFormat(patterns: seq<PatternText>, maxInt: int, minInt: int, maxFrac: int, minFrac: int)
    returns (r: Result<CompactNumberFormat, PatternError>)
    ensures r.Success? <==> Process(patterns, |patterns|).Success?
    ensures r.Failure? ==> r.error == Process(patterns, |patterns|).error
    ensures r.Success? ==> fresh(r.value) && r.value.Valid() && r.value.TablesOf() == Process(patterns, |patterns|).value
  {
    var f := new CompactNumberFormat(patterns, maxInt, minInt, maxFrac, minFrac);
    var done := f.ProcessCompactPatterns();
    if done.Failure? {
      return Failure(done.error);
    }
    ProcessKeeps(patterns, |patterns|);
    r := Success(f);
  }
}
