/** The compact pattern compiler of CompactNumberFormat.applyPattern: a
    pattern such as "0K" or "'don''t' 00;-00" is split into a positive
    prefix, a run of zeros (the minimum integer digits) and a suffix, with an
    optional negative subpattern after ';' (Unicode Technical Standard #35,
    Part 3 Numbers, "Compact Number Formats"). */
module CompactPatterns {
  import opened Wrappers

  const ZERO_DIGIT: char := '0'
  const DIGIT: char := '#'
  const DECIMAL_SEPARATOR: char := '.'
  const GROUPING_SEPARATOR: char := ','
  const MINUS_SIGN: char := '-'
  const PERCENT: char := '%'
  const PER_MILLE: char := '\U{2030}'
  const SEPARATOR: char := ';'
  const CURRENCY_SIGN: char := '\U{00A4}'
  const QUOTE: char := '\''

  /** The special characters that must be quoted in an affix. */
  predicate Special(c: char) {
    c == DECIMAL_SEPARATOR || c == GROUPING_SEPARATOR || c == DIGIT ||
    c == PERCENT || c == PER_MILLE || c == CURRENCY_SIGN
  }

  /** The `IllegalArgumentException`s of `applyPattern` and `computeDivisor`. */
  datatype PatternError =
    | NullPattern(index: nat)
    | UnquotedSpecial(ch: char)
    | UnterminatedQuote
    | DigitsExceedLimit(index: nat)

  /** What one subpattern yields: its affixes (still in quoted form), its
      count of zeros, and where a following subpattern starts (`start`
      unchanged when there is none). */
  datatype Subpattern = Subpattern(prefix: string, suffix: string, zeros: nat, next: nat)

  /** A compiled pattern. Affixes keep `''` for a quote and `'-` for the
      minus sign; `expandAffix` resolves both. */
  datatype Compiled = Compiled(
    positivePrefix: string, positiveSuffix: string,
    negativePrefix: string, negativeSuffix: string,
    zeros: nat)

  /** The string of `n` zeros `applyPattern` stores as the place holder. */
  function Zeros(n: nat): (z: string)
    ensures |z| == n
  {
    seq(n, _ => ZERO_DIGIT)
  }

  lemma ZerosAreZeros(n: nat)
    ensures forall i :: 0 <= i < n ==> Zeros(n)[i] == ZERO_DIGIT
  {
  }

  function Add(acc: Subpattern, digits: bool, s: string): Subpattern {
    if digits then acc.(suffix := acc.suffix + s) else acc.(prefix := acc.prefix + s)
  }

  /** Reference reading of a subpattern from `pos`, one character (or one
      doubled quote) at a time. `digits` says the zeros have begun, so that
      affix text goes to the suffix; `quoted` that a quote is open. The
      three phases of the source collapse into `digits`: phase 1 and
      phase 2 treat every character alike. */
  function Scan(p: string, pos: nat, positive: bool, digits: bool, quoted: bool, acc: Subpattern)
    : (r: Result<Subpattern, PatternError>)
    requires pos <= |p|
    ensures r.Success? ==> r.value.next == acc.next || r.value.next <= |p|
    decreases |p| - pos
  {
    if pos == |p| then
      if quoted then Failure(UnterminatedQuote) else Success(acc)
    else
      var c := p[pos];
      if c == QUOTE then
        if pos + 1 < |p| && p[pos + 1] == QUOTE then
          Scan(p, pos + 2, positive, digits, quoted, Add(acc, digits, "''"))
        else
          Scan(p, pos + 1, positive, digits, !quoted, acc)
      else if quoted then
        Scan(p, pos + 1, positive, digits, true, Add(acc, digits, [c]))
      else if c == ZERO_DIGIT then
        Scan(p, pos + 1, positive, true, false, if positive then acc.(zeros := acc.zeros + 1) else acc)
      else if c == SEPARATOR then
        if !digits || !positive then Failure(UnquotedSpecial(c)) else Success(acc.(next := pos + 1))
      else if c == MINUS_SIGN then
        Scan(p, pos + 1, positive, digits, false, Add(acc, digits, "'-"))
      else if Special(c) then
        Failure(UnquotedSpecial(c))
      else
        Scan(p, pos + 1, positive, digits, false, Add(acc, digits, [c]))
  }

  function Positive(p: string): Result<Subpattern, PatternError> {
    Scan(p, 0, true, false, false, Subpattern("", "", 0, 0))
  }

  /** The negative affixes: those of the subpattern from `pos.next`
      (which, without a ';', is the whole pattern again), unless there is
      none or it repeats the positive affixes, in which case `'-` is put
      before the positive prefix. */
  function WithNegative(p: string, pos: Subpattern): Result<Compiled, PatternError> {
    var dflt := Compiled(pos.prefix, pos.suffix, "'-" + pos.prefix, pos.suffix, pos.zeros);
    if pos.next < |p| then
      match Scan(p, pos.next, false, false, false, Subpattern("", "", 0, pos.next))
      case Failure(e) => Failure(e)
      case Success(neg) =>
        if neg.prefix == pos.prefix && neg.suffix == pos.suffix then Success(dflt)
        else Success(Compiled(pos.prefix, pos.suffix, neg.prefix, neg.suffix, pos.zeros))
    else Success(dflt)
  }

  /** The affixes and zeros `applyPattern` computes for a non-null pattern. */
  function Compile(p: string): Result<Compiled, PatternError> {
    if |p| == 0 then Success(Compiled("", "", "", "", 0))
    else
      match Positive(p)
      case Failure(e) => Failure(e)
      case Success(pos) => WithNegative(p, pos)
  }

  function Rank(p: string, pos: nat, phase: int): nat {
    if pos < |p| && p[pos] == ZERO_DIGIT then (if phase == 1 then 0 else 1)
    else (if phase == 1 then 1 else 0)
  }

  /** One pass of the `j` loop of `applyPattern`: the three-phase scan of
      the subpattern from `start` (`positive` is `j == 1`). Phase 0 is the
      prefix, phase 1 the zeros, phase 2 the suffix; a character that ends a
      phase is processed again in the next one. */
  method ScanSubpattern(pattern: string, start: nat, positive: bool) returns (r: Result<Subpattern, PatternError>)
    requires start <= |pattern|
    ensures r == Scan(pattern, start, positive, false, false, Subpattern("", "", 0, start))
  {
    ghost var spec := Scan(pattern, start, positive, false, false, Subpattern("", "", 0, start));
    var prefix, suffix := "", "";
    var zeros: nat := 0;
    var next: nat := start;
    var inQuote := false;
    var phase := 0;
    var pos := start;
    while pos < |pattern|
      invariant start <= pos <= |pattern| && next == start
      invariant 0 <= phase <= 2 && (phase == 1 ==> !inQuote)
      invariant spec == Scan(pattern, pos, positive, phase != 0, inQuote, Subpattern(prefix, suffix, zeros, start))
      decreases |pattern| - pos, Rank(pattern, pos, phase)
    {
      var ch := pattern[pos];
      if phase != 1 && !inQuote && ch == ZERO_DIGIT {
        // a zero ends the prefix or suffix phase and is processed again in phase 1
        phase := 1;
      } else if phase != 1 {
        // prefix or suffix characters; `affix` is the suffix in phase 2
        var toSuffix := phase == 2;
        var add := "";
        if inQuote {
          if ch == QUOTE {
            if pos + 1 < |pattern| && pattern[pos + 1] == QUOTE {
              pos := pos + 1;
              add := "''";
            } else {
              inQuote := false;
            }
          } else {
            add := [ch];
          }
          pos := pos + 1;
        } else if ch == QUOTE {
          if pos + 1 < |pattern| && pattern[pos + 1] == QUOTE {
            pos := pos + 1;
            add := "''";
          } else {
            inQuote := true;
          }
          pos := pos + 1;
        } else if ch == SEPARATOR {
          if phase == 0 || !positive {
            return Failure(UnquotedSpecial(ch));
          }
          next := pos + 1;
          break;
        } else if ch == MINUS_SIGN {
          add := "'-";
          pos := pos + 1;
        } else if Special(ch) {
          return Failure(UnquotedSpecial(ch));
        } else {
          add := [ch];
          pos := pos + 1;
        }
        if add != "" && toSuffix {
          suffix := suffix + add;
        } else if add != "" {
          prefix := prefix + add;
        }
      } else if !positive {
        // the negative subpattern skips its zeros
        while pos < |pattern| && pattern[pos] == ZERO_DIGIT
          invariant start <= pos <= |pattern|
          invariant spec == Scan(pattern, pos, positive, true, false, Subpattern(prefix, suffix, zeros, start))
        {
          pos := pos + 1;
        }
        if pos < |pattern| {
          phase := 2;
        }
      } else if ch == ZERO_DIGIT {
        zeros := zeros + 1;
        pos := pos + 1;
      } else {
        phase := 2;
      }
    }
    if inQuote {
      return Failure(UnterminatedQuote);
    }
    r := Success(Subpattern(prefix, suffix, zeros, next));
  }

  /** The `j` loop of `applyPattern`: the positive subpattern, then the
      negative one from `start`, then the default negative affixes. */
  method CompilePattern(pattern: string) returns (r: Result<Compiled, PatternError>)
    ensures r == Compile(pattern)
  {
    var start: nat := 0;
    var gotNegative := false;
    var positivePrefix, positiveSuffix, negativePrefix, negativeSuffix := "", "", "", "";
    var zeros: nat := 0;
    var j := 1;
    while j >= 0 && start < |pattern|
      invariant -1 <= j <= 1 && start <= |pattern|
      invariant j == 1 ==> start == 0 && positivePrefix == positiveSuffix == "" && zeros == 0 && !gotNegative
      invariant j == 1 ==> negativePrefix == negativeSuffix == ""
      invariant j == 0 ==>
        |pattern| > 0 && !gotNegative &&
        Positive(pattern) == Success(Subpattern(positivePrefix, positiveSuffix, zeros, start)) &&
        negativePrefix == "'-" + positivePrefix && negativeSuffix == positiveSuffix
      invariant j == -1 ==>
        Compile(pattern) == Success(Compiled(positivePrefix, positiveSuffix, negativePrefix, negativeSuffix, zeros))
    {
      var sub := ScanSubpattern(pattern, start, j == 1);
      if sub.Failure? {
        return Failure(sub.error);
      }
      if j == 1 {
        positivePrefix, positiveSuffix := sub.value.prefix, sub.value.suffix;
        zeros := zeros + sub.value.zeros;
        start := sub.value.next;
        negativePrefix, negativeSuffix := positivePrefix, positiveSuffix;
      } else {
        negativePrefix, negativeSuffix := sub.value.prefix, sub.value.suffix;
        gotNegative := true;
      }
      if !gotNegative || (negativePrefix == positivePrefix && negativeSuffix == positiveSuffix) {
        negativeSuffix := positiveSuffix;
        negativePrefix := "'-" + positivePrefix;
      }
      j := j - 1;
    }
    r := Success(Compiled(positivePrefix, positiveSuffix, negativePrefix, negativeSuffix, zeros));
  }

  /** A character that stands for itself, unquoted, in an affix. */
  predicate PlainChar(c: char) {
    c != QUOTE && c != ZERO_DIGIT && c != SEPARATOR && !Special(c)
  }

  /** Unquoted affix text: plain characters and doubled quotes. */
  predicate UnquotedText(s: string)
    decreases |s|
  {
    if s == [] then true
    else if s[0] == QUOTE then |s| >= 2 && s[1] == QUOTE && UnquotedText(s[2..])
    else PlainChar(s[0]) && UnquotedText(s[1..])
  }

  /** How unquoted text is stored: a doubled quote stays `''`, a minus sign
      becomes `'-`, everything else is kept. */
  function EscapeText(s: string): string
    requires UnquotedText(s)
    decreases |s|
  {
    if s == [] then []
    else if s[0] == QUOTE then "''" + EscapeText(s[2..])
    else (if s[0] == MINUS_SIGN then "'-" else [s[0]]) + EscapeText(s[1..])
  }

  lemma AddAssoc(acc: Subpattern, digits: bool, a: string, b: string)
    ensures Add(Add(acc, digits, a), digits, b) == Add(acc, digits, a + b)
  {
    assert acc.prefix + a + b == acc.prefix + (a + b);
    assert acc.suffix + a + b == acc.suffix + (a + b);
  }

  /** `p` spells `s` from position `pos` on. */
  predicate At(p: string, pos: nat, s: string)
    decreases |s|
  {
    pos + |s| <= |p| && (s == [] || (p[pos] == s[0] && At(p, pos + 1, s[1..])))
  }

  /** `p` holds `n` zeros from position `pos` on. */
  predicate ZerosAt(p: string, pos: nat, n: nat)
    decreases n
  {
    pos + n <= |p| && (n == 0 || (p[pos] == ZERO_DIGIT && ZerosAt(p, pos + 1, n - 1)))
  }

  lemma {:induction false} AtFromIndices(p: string, pos: nat, s: string)
    requires pos + |s| <= |p| && forall i :: 0 <= i < |s| ==> p[pos + i] == s[i]
    ensures At(p, pos, s)
    decreases |s|
  {
    if s != [] {
      assert p[pos + 0] == s[0];
      forall i | 0 <= i < |s[1..]|
        ensures p[pos + 1 + i] == s[1..][i]
      {
        assert p[pos + (i + 1)] == s[i + 1];
      }
      AtFromIndices(p, pos + 1, s[1..]);
    }
  }

  lemma {:induction false} ZerosFromIndices(p: string, pos: nat, n: nat)
    requires pos + n <= |p| && forall i :: pos <= i < pos + n ==> p[i] == ZERO_DIGIT
    ensures ZerosAt(p, pos, n)
    decreases n
  {
    if n > 0 {
      ZerosFromIndices(p, pos + 1, n - 1);
    }
  }

  /** Unquoted text `s` is stored escaped, as `e`, in the current affix. */
  lemma {:induction false} ScanText(p: string, pos: nat, s: string, e: string, positive: bool, digits: bool,
                                    acc: Subpattern, acc': Subpattern)
    requires At(p, pos, s) && UnquotedText(s) && e == EscapeText(s)
    requires acc' == Add(acc, digits, e)
    ensures Scan(p, pos, positive, digits, false, acc) == Scan(p, pos + |s|, positive, digits, false, acc')
    decreases |s|
  {
    if s == [] {
      assert acc.prefix + [] == acc.prefix && acc.suffix + [] == acc.suffix;
    } else {
      assert p[pos] == s[0];
      var k := if s[0] == QUOTE then 2 else 1;
      var head := if s[0] == QUOTE then "''" else if s[0] == MINUS_SIGN then "'-" else [s[0]];
      if s[0] == QUOTE {
        assert At(p, pos + 1, s[1..]);
        assert p[pos + 1] == s[1];
        assert s[1..][1..] == s[2..];
      }
      assert At(p, pos + k, s[k..]);
      assert Scan(p, pos, positive, digits, false, acc) ==
        Scan(p, pos + k, positive, digits, false, Add(acc, digits, head));
      AddAssoc(acc, digits, head, EscapeText(s[k..]));
      ScanText(p, pos + k, s[k..], EscapeText(s[k..]), positive, digits, Add(acc, digits, head), acc');
    }
  }

  /** A run of `n >= 1` zeros: the digits have begun, and the positive
      subpattern counts them. */
  lemma {:induction false} ScanZeros(p: string, pos: nat, n: nat, positive: bool, digits: bool,
                                     acc: Subpattern, acc': Subpattern)
    requires n >= 1 && ZerosAt(p, pos, n)
    requires acc' == if positive then acc.(zeros := acc.zeros + n) else acc
    ensures Scan(p, pos, positive, digits, false, acc) == Scan(p, pos + n, positive, true, false, acc')
    decreases n
  {
    assert p[pos] == ZERO_DIGIT;
    var acc1 := if positive then acc.(zeros := acc.zeros + 1) else acc;
    assert Scan(p, pos, positive, digits, false, acc) == Scan(p, pos + 1, positive, true, false, acc1);
    if n > 1 {
      ScanZeros(p, pos + 1, n - 1, positive, true, acc1, acc');
    }
  }

  /** Where the pieces of a subpattern `w == pre + Zeros(n) + suf` lie when
      `p` holds `w` from `off` on. */
  lemma ShapeAt(p: string, off: nat, pre: string, n: nat, suf: string, w: string)
    requires w == pre + Zeros(n) + suf
    requires off + |w| <= |p| && forall i :: 0 <= i < |w| ==> p[off + i] == w[i]
    ensures At(p, off, pre) && ZerosAt(p, off + |pre|, n) && At(p, off + |pre| + n, suf)
  {
    ZerosAreZeros(n);
    assert forall i :: 0 <= i < |pre| ==> p[off + i] == pre[i] by {
      forall i | 0 <= i < |pre| ensures p[off + i] == pre[i] {
        assert w[i] == pre[i];
      }
    }
    assert forall i :: off + |pre| <= i < off + |pre| + n ==> p[i] == ZERO_DIGIT by {
      forall i | off + |pre| <= i < off + |pre| + n ensures p[i] == ZERO_DIGIT {
        assert p[off + (i - off)] == w[i - off] == Zeros(n)[i - off - |pre|];
      }
    }
    assert forall i :: 0 <= i < |suf| ==> p[off + |pre| + n + i] == suf[i] by {
      forall i | 0 <= i < |suf| ensures p[off + |pre| + n + i] == suf[i] {
        assert p[off + (|pre| + n + i)] == w[|pre| + n + i] == suf[i];
      }
    }
    AtFromIndices(p, off, pre);
    ZerosFromIndices(p, off + |pre|, n);
    AtFromIndices(p, off + |pre| + n, suf);
  }

  /** A subpattern `pre`, `n` zeros, `suf` read from `start` up to `end`
      has the escaped `pre` as prefix, the escaped `suf` as suffix, and
      counts the zeros (`z`) only when it is the positive subpattern. */
  lemma ScanShape(p: string, start: nat, pre: string, n: nat, suf: string, positive: bool,
                  epre: string, esuf: string, z: nat, end: nat)
    requires UnquotedText(pre) && UnquotedText(suf) && n >= 1
    requires epre == EscapeText(pre) && esuf == EscapeText(suf) && z == (if positive then n else 0)
    requires At(p, start, pre) && ZerosAt(p, start + |pre|, n) && At(p, start + |pre| + n, suf)
    requires end == start + |pre| + n + |suf|
    ensures Scan(p, start, positive, false, false, Subpattern("", "", 0, start)) ==
      Scan(p, end, positive, true, false, Subpattern(epre, esuf, z, start))
  {
    var acc0 := Subpattern("", "", 0, start);
    var acc1 := Subpattern(epre, "", 0, start);
    var acc2 := Subpattern(epre, "", z, start);
    var acc3 := Subpattern(epre, esuf, z, start);
    assert "" + epre == epre && "" + esuf == esuf;
    ScanText(p, start, pre, epre, positive, false, acc0, acc1);
    ScanZeros(p, start + |pre|, n, positive, false, acc1, acc2);
    ScanText(p, start + |pre| + n, suf, esuf, positive, true, acc2, acc3);
  }

  /** A pattern without a negative subpattern, "pre 0...0 suf": the zeros
      give the minimum integer digits, and the negative affixes are the
      positive ones with `'-` before the prefix. */
  lemma CompileSingle(pre: string, n: nat, suf: string, epre: string, esuf: string)
    requires UnquotedText(pre) && UnquotedText(suf) && n >= 1
    requires epre == EscapeText(pre) && esuf == EscapeText(suf)
    ensures Compile(pre + Zeros(n) + suf) == Success(Compiled(epre, esuf, "'-" + epre, esuf, n))
  {
    var p := pre + Zeros(n) + suf;
    assert forall i :: 0 <= i < |p| ==> p[0 + i] == p[i];
    ShapeAt(p, 0, pre, n, suf, p);
    assert At(p, 0, pre);
    assert ZerosAt(p, |pre|, n);
    assert At(p, |pre| + n, suf);
    OneSubpattern(p, pre, n, suf, epre, esuf);
  }

  lemma OneSubpattern(p: string, pre: string, n: nat, suf: string, epre: string, esuf: string)
    requires UnquotedText(pre) && UnquotedText(suf) && n >= 1
    requires epre == EscapeText(pre) && esuf == EscapeText(suf)
    requires |pre| + n + |suf| == |p|
    requires At(p, 0, pre) && ZerosAt(p, |pre|, n) && At(p, |pre| + n, suf)
    ensures Compile(p) == Success(Compiled(epre, esuf, "'-" + epre, esuf, n))
  {
    PositiveToEnd(p, pre, n, suf, epre, esuf);
    NegativeAffixes(p, Subpattern(epre, esuf, n, 0), 0, pre, n, suf, epre, esuf);
  }

  /** Without a ';' the positive subpattern runs to the end of the pattern. */
  lemma PositiveToEnd(p: string, pre: string, n: nat, suf: string, epre: string, esuf: string)
    requires UnquotedText(pre) && UnquotedText(suf) && n >= 1
    requires epre == EscapeText(pre) && esuf == EscapeText(suf)
    requires |pre| + n + |suf| == |p|
    requires At(p, 0, pre) && ZerosAt(p, |pre|, n) && At(p, |pre| + n, suf)
    ensures Positive(p) == Success(Subpattern(epre, esuf, n, 0))
  {
    ScanShape(p, 0, pre, n, suf, true, epre, esuf, n, |p|);
  }

  lemma SeparatorEnds(p: string, pos: nat, acc: Subpattern)
    requires pos < |p| && p[pos] == SEPARATOR
    ensures Scan(p, pos, true, true, false, acc) == Success(acc.(next := pos + 1))
  {
  }

  /** The positive subpattern "pre 0...0 suf" ends at a ';'. */
  lemma PositiveBeforeSeparator(p: string, pre: string, n: nat, suf: string, epre: string, esuf: string, end: nat)
    requires UnquotedText(pre) && UnquotedText(suf) && n >= 1
    requires epre == EscapeText(pre) && esuf == EscapeText(suf)
    requires end == |pre| + n + |suf| && end < |p| && p[end] == SEPARATOR
    requires At(p, 0, pre) && ZerosAt(p, |pre|, n) && At(p, |pre| + n, suf)
    ensures Positive(p) == Success(Subpattern(epre, esuf, n, end + 1))
  {
    SeparatorEnds(p, end, Subpattern(epre, esuf, n, 0));
    ScanShape(p, 0, pre, n, suf, true, epre, esuf, n, end);
  }

  /** The negative subpattern "npre 0...0 nsuf" runs to the end of the pattern. */
  lemma NegativeToEnd(p: string, start: nat, npre: string, m: nat, nsuf: string, enpre: string, ensuf: string)
    requires UnquotedText(npre) && UnquotedText(nsuf) && m >= 1
    requires enpre == EscapeText(npre) && ensuf == EscapeText(nsuf)
    requires start + |npre| + m + |nsuf| == |p|
    requires At(p, start, npre) && ZerosAt(p, start + |npre|, m) && At(p, start + |npre| + m, nsuf)
    ensures Scan(p, start, false, false, false, Subpattern("", "", 0, start)) ==
      Success(Subpattern(enpre, ensuf, 0, start))
  {
    ScanShape(p, start, npre, m, nsuf, false, enpre, ensuf, 0, |p|);
  }

  lemma TwoSubpatterns(p: string, pre: string, n: nat, suf: string, npre: string, m: nat, nsuf: string,
                       epre: string, esuf: string, enpre: string, ensuf: string, w1: string, w2: string, start: nat)
    requires UnquotedText(pre) && UnquotedText(suf) && n >= 1
    requires UnquotedText(npre) && UnquotedText(nsuf) && m >= 1
    requires epre == EscapeText(pre) && esuf == EscapeText(suf)
    requires enpre == EscapeText(npre) && ensuf == EscapeText(nsuf)
    requires w1 == pre + Zeros(n) + suf && w2 == npre + Zeros(m) + nsuf
    requires Laid(p, w1, w2, start)
    ensures var same := enpre == epre && ensuf == esuf;
      Compile(p) == Success(Compiled(epre, esuf, if same then "'-" + epre else enpre, if same then esuf else ensuf, n))
  {
    LaidShapes(p, pre, n, suf, npre, m, nsuf, w1, w2, start);
    CompileTwo(p, pre, n, suf, npre, m, nsuf, epre, esuf, enpre, ensuf, start);
  }

  /** Where the affixes and the zeros of both subpatterns lie. */
  lemma LaidShapes(p: string, pre: string, n: nat, suf: string, npre: string, m: nat, nsuf: string,
                   w1: string, w2: string, start: nat)
    requires w1 == pre + Zeros(n) + suf && w2 == npre + Zeros(m) + nsuf
    requires Laid(p, w1, w2, start)
    ensures start == |pre| + n + |suf| + 1 && start + |npre| + m + |nsuf| == |p| && p[start - 1] == SEPARATOR
    ensures At(p, 0, pre) && ZerosAt(p, |pre|, n) && At(p, |pre| + n, suf)
    ensures At(p, start, npre) && ZerosAt(p, start + |npre|, m) && At(p, start + |npre| + m, nsuf)
  {
    ShapeAt(p, 0, pre, n, suf, w1);
    ShapeAt(p, start, npre, m, nsuf, w2);
  }

  /** `p` is `w1`, a ';' and then `w2`, with `w2` from `start` on. */
  predicate Laid(p: string, w1: string, w2: string, start: nat) {
    start == |w1| + 1 && start + |w2| == |p| && p[start - 1] == SEPARATOR &&
    (forall i :: 0 <= i < |w1| ==> p[0 + i] == w1[i]) &&
    (forall i :: 0 <= i < |w2| ==> p[start + i] == w2[i])
  }

  /** Where `w1` and the negative subpattern `w2` lie in the pattern
      `w1 + [SEPARATOR] + npre + Zeros(m) + nsuf`. */
  lemma Placement(p: string, w1: string, npre: string, m: nat, nsuf: string, w2: string, start: nat)
    requires p == w1 + [SEPARATOR] + npre + Zeros(m) + nsuf && w2 == npre + Zeros(m) + nsuf
    requires start == |w1| + 1
    ensures Laid(p, w1, w2, start)
  {
    assert p == w1 + [SEPARATOR] + w2;
  }

  lemma CompileTwo(p: string, pre: string, n: nat, suf: string, npre: string, m: nat, nsuf: string,
                   epre: string, esuf: string, enpre: string, ensuf: string, start: nat)
    requires UnquotedText(pre) && UnquotedText(suf) && n >= 1
    requires UnquotedText(npre) && UnquotedText(nsuf) && m >= 1
    requires epre == EscapeText(pre) && esuf == EscapeText(suf)
    requires enpre == EscapeText(npre) && ensuf == EscapeText(nsuf)
    requires start == |pre| + n + |suf| + 1 && start + |npre| + m + |nsuf| == |p| && p[start - 1] == SEPARATOR
    requires At(p, 0, pre) && ZerosAt(p, |pre|, n) && At(p, |pre| + n, suf)
    requires At(p, start, npre) && ZerosAt(p, start + |npre|, m) && At(p, start + |npre| + m, nsuf)
    ensures var same := enpre == epre && ensuf == esuf;
      Compile(p) == Success(Compiled(epre, esuf, if same then "'-" + epre else enpre, if same then esuf else ensuf, n))
  {
    PositiveBeforeSeparator(p, pre, n, suf, epre, esuf, start - 1);
    NegativeAffixes(p, Subpattern(epre, esuf, n, start), start, npre, m, nsuf, enpre, ensuf);
  }

  lemma NegativeAffixes(p: string, pos: Subpattern, start: nat, npre: string, m: nat, nsuf: string, enpre: string, ensuf: string)
    requires UnquotedText(npre) && UnquotedText(nsuf) && m >= 1
    requires enpre == EscapeText(npre) && ensuf == EscapeText(nsuf)
    requires pos.next == start && start + |npre| + m + |nsuf| == |p|
    requires At(p, start, npre) && ZerosAt(p, start + |npre|, m) && At(p, start + |npre| + m, nsuf)
    ensures var same := enpre == pos.prefix && ensuf == pos.suffix;
      WithNegative(p, pos) == Success(Compiled(pos.prefix, pos.suffix, if same then "'-" + pos.prefix else enpre,
                                               if same then pos.suffix else ensuf, pos.zeros))
  {
    NegativeToEnd(p, start, npre, m, nsuf, enpre, ensuf);
  }

  /** "pre 0...0 suf ; npre 0...0 nsuf": the negative subpattern supplies only
      the negative affixes; its zeros are not counted; if it repeats the
      positive affixes, the default negative affixes are used. */
  lemma CompileWithNegative(pre: string, n: nat, suf: string, npre: string, m: nat, nsuf: string,
                            epre: string, esuf: string, enpre: string, ensuf: string)
    requires UnquotedText(pre) && UnquotedText(suf) && n >= 1
    requires UnquotedText(npre) && UnquotedText(nsuf) && m >= 1
    requires epre == EscapeText(pre) && esuf == EscapeText(suf)
    requires enpre == EscapeText(npre) && ensuf == EscapeText(nsuf)
    ensures var same := enpre == epre && ensuf == esuf;
      Compile(pre + Zeros(n) + suf + [SEPARATOR] + npre + Zeros(m) + nsuf) ==
      Success(Compiled(epre, esuf, if same then "'-" + epre else enpre, if same then esuf else ensuf, n))
  {
    var w1, w2 := pre + Zeros(n) + suf, npre + Zeros(m) + nsuf;
    var p := w1 + [SEPARATOR] + npre + Zeros(m) + nsuf;
    Placement(p, w1, npre, m, nsuf, w2, |w1| + 1);
    TwoSubpatterns(p, pre, n, suf, npre, m, nsuf, epre, esuf, enpre, ensuf, w1, w2, |w1| + 1);
  }

  /** An unquoted special character, or ';', before any zero is rejected. */
  lemma SpecialBeforeDigits(pre: string, c: char, rest: string)
    requires UnquotedText(pre) && (Special(c) || c == SEPARATOR)
    ensures Compile(pre + [c] + rest) == Failure(UnquotedSpecial(c))
  {
    var p := pre + [c] + rest;
    var epre := EscapeText(pre);
    assert forall i :: 0 <= i < |pre| ==> p[0 + i] == pre[i];
    AtFromIndices(p, 0, pre);
    assert p[|pre|] == c;
    assert "" + epre == epre;
    ScanText(p, 0, pre, epre, true, false, Subpattern("", "", 0, 0), Subpattern(epre, "", 0, 0));
  }

  /** A negative subpattern "npre ;..." is rejected at its ';'. */
  lemma NegativeSeparator(p: string, start: nat, npre: string)
    requires UnquotedText(npre)
    requires start + |npre| < |p| && p[start + |npre|] == SEPARATOR
    requires At(p, start, npre)
    ensures Scan(p, start, false, false, false, Subpattern("", "", 0, start)) == Failure(UnquotedSpecial(SEPARATOR))
  {
    var enpre := EscapeText(npre);
    assert "" + enpre == enpre;
    ScanText(p, start, npre, enpre, false, false, Subpattern("", "", 0, start), Subpattern(enpre, "", 0, start));
  }

  lemma SeparatorLayout(p: string, pre: string, n: nat, suf: string, npre: string, rest: string, start: nat)
    requires p == pre + Zeros(n) + suf + [SEPARATOR] + npre + [SEPARATOR] + rest
    requires start == |pre| + n + |suf| + 1
    ensures start + |npre| < |p| && p[start - 1] == SEPARATOR && p[start + |npre|] == SEPARATOR
    ensures At(p, 0, pre) && ZerosAt(p, |pre|, n) && At(p, |pre| + n, suf) && At(p, start, npre)
  {
    var w1 := pre + Zeros(n) + suf;
    assert p == w1 + [SEPARATOR] + npre + [SEPARATOR] + rest;
    assert forall i :: 0 <= i < |w1| ==> p[0 + i] == w1[i];
    assert forall i :: 0 <= i < |npre| ==> p[start + i] == npre[i];
    ShapeAt(p, 0, pre, n, suf, w1);
    AtFromIndices(p, start, npre);
  }

  lemma NegativeRejected(p: string, pos: Subpattern, start: nat, npre: string)
    requires UnquotedText(npre)
    requires pos.next == start && start + |npre| < |p| && p[start + |npre|] == SEPARATOR
    requires At(p, start, npre)
    ensures WithNegative(p, pos) == Failure(UnquotedSpecial(SEPARATOR))
  {
    NegativeSeparator(p, start, npre);
  }

  lemma RejectSecondSeparator(p: string, pre: string, n: nat, suf: string, npre: string, start: nat)
    requires UnquotedText(pre) && UnquotedText(suf) && UnquotedText(npre) && n >= 1
    requires start == |pre| + n + |suf| + 1
    requires start + |npre| < |p| && p[start - 1] == SEPARATOR && p[start + |npre|] == SEPARATOR
    requires At(p, 0, pre) && ZerosAt(p, |pre|, n) && At(p, |pre| + n, suf) && At(p, start, npre)
    ensures Compile(p) == Failure(UnquotedSpecial(SEPARATOR))
  {
    var epre, esuf := EscapeText(pre), EscapeText(suf);
    PositiveBeforeSeparator(p, pre, n, suf, epre, esuf, start - 1);
    NegativeRejected(p, Subpattern(epre, esuf, n, start), start, npre);
  }

  /** A second ';', inside the negative subpattern, is rejected. */
  lemma SeparatorInNegative(pre: string, n: nat, suf: string, npre: string, rest: string)
    requires UnquotedText(pre) && UnquotedText(suf) && UnquotedText(npre) && n >= 1
    ensures Compile(pre + Zeros(n) + suf + [SEPARATOR] + npre + [SEPARATOR] + rest) ==
      Failure(UnquotedSpecial(SEPARATOR))
  {
    var p := pre + Zeros(n) + suf + [SEPARATOR] + npre + [SEPARATOR] + rest;
    var start := |pre| + n + |suf| + 1;
    SeparatorLayout(p, pre, n, suf, npre, rest, start);
    RejectSecondSeparator(p, pre, n, suf, npre, start);
  }

  lemma {:induction false} ScanOpenQuote(p: string, pos: nat, positive: bool, digits: bool, acc: Subpattern)
    requires pos <= |p| && forall i :: pos <= i < |p| ==> p[i] != QUOTE
    ensures Scan(p, pos, positive, digits, true, acc) == Failure(UnterminatedQuote)
    decreases |p| - pos
  {
    if pos < |p| {
      ScanOpenQuote(p, pos + 1, positive, digits, Add(acc, digits, [p[pos]]));
    }
  }

  /** A quote that is never closed is rejected. */
  lemma UnterminatedQuoteRejected(pre: string, q: string)
    requires UnquotedText(pre) && forall i :: 0 <= i < |q| ==> q[i] != QUOTE
    ensures Compile(pre + [QUOTE] + q) == Failure(UnterminatedQuote)
  {
    var p := pre + [QUOTE] + q;
    var epre := EscapeText(pre);
    assert forall i :: 0 <= i < |pre| ==> p[0 + i] == pre[i];
    AtFromIndices(p, 0, pre);
    assert p[|pre|] == QUOTE;
    assert "" + epre == epre;
    ScanText(p, 0, pre, epre, true, false, Subpattern("", "", 0, 0), Subpattern(epre, "", 0, 0));
    assert forall i :: |pre| + 1 <= i < |p| ==> p[i] == q[i - |pre| - 1];
    ScanOpenQuote(p, |pre| + 1, true, false, Subpattern(epre, "", 0, 0));
  }
}
