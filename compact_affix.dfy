/** What CompactNumberFormat does with a stored affix: `expandAffix` turns
    its quoted form into literal text, `getFieldPositions` reports where the
    minus signs and the whole affix lie in that text, `matchAffix` is the
    longest-match test of parsing, and `Patterns.get` picks the affix stored
    for a plural category. */
module CompactAffixes {
  import opened CompactPatterns

  /** A stored affix: every quote is followed by the character it quotes;
      the affixes `applyPattern` stores are always of this form. */
  predicate WellQuoted(s: string)
    decreases |s|
  {
    if s == [] then true
    else if s[0] == QUOTE then |s| >= 2 && WellQuoted(s[2..])
    else WellQuoted(s[1..])
  }

  lemma {:induction false} WellQuotedAppend(a: string, b: string)
    requires WellQuoted(a) && WellQuoted(b)
    ensures WellQuoted(a + b)
    decreases |a|
  {
    if a == [] {
      assert a + b == b;
    } else {
      var k := if a[0] == QUOTE then 2 else 1;
      assert (a + b)[k..] == a[k..] + b;
      WellQuotedAppend(a[k..], b);
    }
  }

  lemma AddWellQuoted(acc: Subpattern, digits: bool, piece: string)
    requires WellQuoted(acc.prefix) && WellQuoted(acc.suffix) && WellQuoted(piece)
    ensures WellQuoted(Add(acc, digits, piece).prefix) && WellQuoted(Add(acc, digits, piece).suffix)
  {
    WellQuotedAppend(acc.prefix, piece);
    WellQuotedAppend(acc.suffix, piece);
  }

  /** Everything the subpattern scan appends to an affix is `''`, `'-` or
      one character that is not a quote, so well-quoted affixes stay so. */
  lemma {:induction false} ScanWellQuoted(p: string, pos: nat, positive: bool, digits: bool, quoted: bool, acc: Subpattern)
    requires pos <= |p| && WellQuoted(acc.prefix) && WellQuoted(acc.suffix)
    ensures var r := Scan(p, pos, positive, digits, quoted, acc);
      r.Success? ==> WellQuoted(r.value.prefix) && WellQuoted(r.value.suffix)
    decreases |p| - pos
  {
    if pos < |p| {
      var c := p[pos];
      assert WellQuoted("''"[2..]) && WellQuoted("'-"[2..]);
      assert WellQuoted([c][1..]);
      if c == QUOTE {
        if pos + 1 < |p| && p[pos + 1] == QUOTE {
          AddWellQuoted(acc, digits, "''");
          ScanWellQuoted(p, pos + 2, positive, digits, quoted, Add(acc, digits, "''"));
        } else {
          ScanWellQuoted(p, pos + 1, positive, digits, !quoted, acc);
        }
      } else if quoted {
        AddWellQuoted(acc, digits, [c]);
        ScanWellQuoted(p, pos + 1, positive, digits, true, Add(acc, digits, [c]));
      } else if c == ZERO_DIGIT {
        ScanWellQuoted(p, pos + 1, positive, true, false, if positive then acc.(zeros := acc.zeros + 1) else acc);
      } else if c == SEPARATOR {
      } else if c == MINUS_SIGN {
        AddWellQuoted(acc, digits, "'-");
        ScanWellQuoted(p, pos + 1, positive, digits, false, Add(acc, digits, "'-"));
      } else if !Special(c) {
        AddWellQuoted(acc, digits, [c]);
        ScanWellQuoted(p, pos + 1, positive, digits, false, Add(acc, digits, [c]));
      }
    }
  }

  /** The four affixes of every compiled pattern are well quoted, so
      `expandAffix` never reads past their end. */
  lemma CompiledWellQuoted(p: string)
    requires Compile(p).Success?
    ensures var c := Compile(p).value;
      WellQuoted(c.positivePrefix) && WellQuoted(c.positiveSuffix) &&
      WellQuoted(c.negativePrefix) && WellQuoted(c.negativeSuffix)
  {
    assert WellQuoted("");
    if |p| > 0 {
      ScanWellQuoted(p, 0, true, false, false, Subpattern("", "", 0, 0));
      var pos := Positive(p).value;
      if pos.next < |p| {
        ScanWellQuoted(p, pos.next, false, false, false, Subpattern("", "", 0, pos.next));
      }
      assert WellQuoted("'-"[2..]);
      WellQuotedAppend("'-", pos.prefix);
    }
  }

  /** The literal text of a stored affix: a quote is dropped, and a quoted
      minus sign becomes the locale's minus-sign text. */
  function Expand(s: string, minus: string): string
    requires WellQuoted(s)
    decreases |s|
  {
    if s == [] then []
    else if s[0] == QUOTE then (if s[1] == MINUS_SIGN then minus else [s[1]]) + Expand(s[2..], minus)
    else [s[0]] + Expand(s[1..], minus)
  }

  /** Text without quotes is its own expansion. */
  lemma {:induction false} ExpandNoQuote(s: string, minus: string)
    requires QUOTE !in s
    ensures WellQuoted(s) && Expand(s, minus) == s
    decreases |s|
  {
    if s != [] {
      assert s[0] in s;
      assert forall c :: c in s[1..] ==> c in s;
      ExpandNoQuote(s[1..], minus);
      assert s == [s[0]] + s[1..];
    }
  }

  /** Affix text without quotes, stored by `applyPattern` and expanded with
      the ASCII minus sign, comes back unchanged. */
  lemma {:induction false} ExpandEscaped(s: string)
    requires UnquotedText(s) && QUOTE !in s
    ensures WellQuoted(EscapeText(s)) && Expand(EscapeText(s), [MINUS_SIGN]) == s
    decreases |s|
  {
    if s != [] {
      assert s[0] in s && s[0] != QUOTE;
      assert forall c :: c in s[1..] ==> c in s;
      ExpandEscaped(s[1..]);
      var head := if s[0] == MINUS_SIGN then "'-" else [s[0]];
      var e := head + EscapeText(s[1..]);
      assert EscapeText(s) == e;
      if s[0] == MINUS_SIGN {
        assert e[0] == QUOTE && e[1] == MINUS_SIGN && e[2..] == EscapeText(s[1..]);
      } else {
        assert e[0] == s[0] && e[1..] == EscapeText(s[1..]);
      }
      assert s == [s[0]] + s[1..];
    }
  }

  /** One character of the `expandAffix` loop: a quoted character expands
      to the minus text or to itself. */
  lemma ExpandQuoted(pattern: string, index: nat, minus: string)
    requires index < |pattern| && pattern[index] == QUOTE && WellQuoted(pattern[index..])
    ensures index + 2 <= |pattern| && WellQuoted(pattern[index + 2..])
    ensures Expand(pattern[index..], minus) ==
      (if pattern[index + 1] == MINUS_SIGN then minus else [pattern[index + 1]]) + Expand(pattern[index + 2..], minus)
  {
    var rest := pattern[index..];
    assert rest[2..] == pattern[index + 2..];
  }

  /** One character of the `expandAffix` loop: an unquoted character is kept. */
  lemma ExpandPlain(pattern: string, index: nat, minus: string)
    requires index < |pattern| && pattern[index] != QUOTE && WellQuoted(pattern[index..])
    ensures WellQuoted(pattern[index + 1..])
    ensures Expand(pattern[index..], minus) == [pattern[index]] + Expand(pattern[index + 1..], minus)
  {
    var rest := pattern[index..];
    assert rest[1..] == pattern[index + 1..];
  }

  lemma AppendAssoc<T>(a: seq<T>, b: seq<T>, c: seq<T>)
    ensures a + (b + c) == (a + b) + c
  {
  }

  /** `expandAffix(pattern)`: the early return for a quote-free pattern,
      then the character loop. */
  method ExpandAffix(pattern: string, minus: string) returns (r: string)
    requires WellQuoted(pattern)
    ensures r == Expand(pattern, minus)
  {
    if QUOTE !in pattern {
      ExpandNoQuote(pattern, minus);
      return pattern;
    }
    var sb := "";
    var index := 0;
    while index < |pattern|
      invariant 0 <= index <= |pattern| && WellQuoted(pattern[index..])
      invariant sb + Expand(pattern[index..], minus) == Expand(pattern, minus)
    {
      var ch := pattern[index];
      if ch == QUOTE {
        ExpandQuoted(pattern, index, minus);
        index := index + 1;
        ch := pattern[index];
        index := index + 1;
        if ch == MINUS_SIGN {
          AppendAssoc(sb, minus, Expand(pattern[index..], minus));
          sb := sb + minus;
          continue;
        }
      } else {
        ExpandPlain(pattern, index, minus);
        index := index + 1;
      }
      AppendAssoc(sb, [ch], Expand(pattern[index..], minus));
      sb := sb + [ch];
    }
    assert pattern[index..] == [];
    r := sb;
  }

  /** `NumberFormat.Field.SIGN`, `PREFIX` and `SUFFIX`. */
  datatype Field = Sign | Prefix | Suffix

  /** A `FieldPosition`: the field and its range [begin, end) in the expanded affix. */
  datatype FieldPosition = FieldPosition(field: Field, begin: nat, end: nat)

  /** The SIGN ranges of `s`, whose expansion starts at offset `at`. */
  function SignPositions(s: string, minus: string, at: nat): seq<FieldPosition>
    requires WellQuoted(s)
    decreases |s|
  {
    if s == [] then []
    else if s[0] == QUOTE then
      if s[1] == MINUS_SIGN then [FieldPosition(Sign, at, at + |minus|)] + SignPositions(s[2..], minus, at + |minus|)
      else SignPositions(s[2..], minus, at + 1)
    else SignPositions(s[1..], minus, at + 1)
  }

  /** What `getFieldPositions(pattern, field)` returns: one SIGN range per
      quoted minus sign, then, unless the expansion is empty, one range of
      the given field over the whole expansion. */
  function FieldPositions(s: string, minus: string, field: Field): seq<FieldPosition>
    requires WellQuoted(s)
  {
    SignPositions(s, minus, 0) +
    (if Expand(s, minus) != [] then [FieldPosition(field, 0, |Expand(s, minus)|)] else [])
  }

  /** `getFieldPositions`: the loop builds the expanded affix alongside the
      ranges, counting its length in `stringIndex`. */
  method GetFieldPositions(pattern: string, minus: string, field: Field) returns (positions: seq<FieldPosition>)
    requires WellQuoted(pattern)
    ensures positions == FieldPositions(pattern, minus, field)
  {
    positions := [];
    var affix := "";
    var stringIndex := 0;
    var index := 0;
    while index < |pattern|
      invariant 0 <= index <= |pattern| && WellQuoted(pattern[index..])
      invariant stringIndex == |affix|
      invariant affix + Expand(pattern[index..], minus) == Expand(pattern, minus)
      invariant positions + SignPositions(pattern[index..], minus, stringIndex) == SignPositions(pattern, minus, 0)
    {
      var ch := pattern[index];
      if ch == QUOTE {
        ExpandQuoted(pattern, index, minus);
        SignQuoted(pattern, index, minus, stringIndex);
        index := index + 1;
        ch := pattern[index];
        index := index + 1;
        if ch == MINUS_SIGN {
          var fp := FieldPosition(Sign, stringIndex, stringIndex + |minus|);
          AppendAssoc(positions, [fp], SignPositions(pattern[index..], minus, stringIndex + |minus|));
          positions := positions + [fp];
          stringIndex := stringIndex + |minus|;
          AppendAssoc(affix, minus, Expand(pattern[index..], minus));
          affix := affix + minus;
          continue;
        }
      } else {
        ExpandPlain(pattern, index, minus);
        SignPlain(pattern, index, minus, stringIndex);
        index := index + 1;
      }
      stringIndex := stringIndex + 1;
      AppendAssoc(affix, [ch], Expand(pattern[index..], minus));
      affix := affix + [ch];
    }
    assert pattern[index..] == [];
    assert positions == SignPositions(pattern, minus, 0);
    assert affix == Expand(pattern, minus);
    if |affix| != 0 {
      positions := positions + [FieldPosition(field, 0, |affix|)];
    }
  }

  /** The SIGN ranges after a quote: one for a quoted minus sign. */
  lemma SignQuoted(pattern: string, index: nat, minus: string, at: nat)
    requires index < |pattern| && pattern[index] == QUOTE && WellQuoted(pattern[index..])
    ensures index + 2 <= |pattern| && WellQuoted(pattern[index + 2..])
    ensures SignPositions(pattern[index..], minus, at) ==
      if pattern[index + 1] == MINUS_SIGN then
        [FieldPosition(Sign, at, at + |minus|)] + SignPositions(pattern[index + 2..], minus, at + |minus|)
      else SignPositions(pattern[index + 2..], minus, at + 1)
  {
    var rest := pattern[index..];
    assert rest[2..] == pattern[index + 2..];
  }

  /** No SIGN range starts at an unquoted character. */
  lemma SignPlain(pattern: string, index: nat, minus: string, at: nat)
    requires index < |pattern| && pattern[index] != QUOTE && WellQuoted(pattern[index..])
    ensures WellQuoted(pattern[index + 1..])
    ensures SignPositions(pattern[index..], minus, at) == SignPositions(pattern[index + 1..], minus, at + 1)
  {
    var rest := pattern[index..];
    assert rest[1..] == pattern[index + 1..];
  }

  /** Every SIGN range of `s`, placed after text `t`, spells the minus-sign
      text in `t` followed by the expansion of `s`. */
  lemma {:induction false} SignRangesAfter(t: string, s: string, minus: string)
    requires WellQuoted(s)
    ensures forall fp | fp in SignPositions(s, minus, |t|) ::
      fp.field == Sign && |t| <= fp.begin <= fp.end <= |t| + |Expand(s, minus)| &&
      (t + Expand(s, minus))[fp.begin..fp.end] == minus
    decreases |s|
  {
    if s != [] {
      var k := if s[0] == QUOTE then 2 else 1;
      var head := if s[0] == QUOTE then (if s[1] == MINUS_SIGN then minus else [s[1]]) else [s[0]];
      assert Expand(s, minus) == head + Expand(s[k..], minus);
      assert t + Expand(s, minus) == (t + head) + Expand(s[k..], minus);
      SignRangesAfter(t + head, s[k..], minus);
      if s[0] == QUOTE && s[1] == MINUS_SIGN {
        assert (t + head)[|t|..|t| + |minus|] == minus;
      }
    }
  }

  /** `getFieldPositions` agrees with `expandAffix`: each SIGN range covers
      exactly the minus-sign text in the expanded affix, and the last range,
      present exactly when the expansion is non-empty, spans all of it. */
  lemma FieldPositionsConsistent(s: string, minus: string, field: Field)
    requires WellQuoted(s)
    ensures var ps := FieldPositions(s, minus, field); var e := Expand(s, minus);
      (forall fp | fp in SignPositions(s, minus, 0) ::
        fp.field == Sign && fp.begin <= fp.end <= |e| && e[fp.begin..fp.end] == minus) &&
      (e != [] <==> |ps| > |SignPositions(s, minus, 0)|) &&
      (e != [] ==> ps[|ps| - 1] == FieldPosition(field, 0, |e|))
  {
    SignRangesAfter("", s, minus);
    assert "" + Expand(s, minus) == Expand(s, minus);
  }

  /** `text.regionMatches(offset, s, 0, s.length())`. */
  predicate RegionMatches(text: string, offset: int, s: string) {
    0 <= offset && offset + |s| <= |text| && text[offset..offset + |s|] == s
  }

  /** `matchAffix(text, position, affix, defaultAffix, matchedAffix)`. */
  predicate MatchAffix(text: string, position: int, affix: string, defaultAffix: string, matchedAffix: string) {
    if affix != [] && affix != defaultAffix && |matchedAffix| < |affix| then RegionMatches(text, position, affix)
    else false
  }

  /** A candidate compact affix: non-empty, not the default affix, and
      present in `text` at `position`. */
  predicate Candidate(text: string, position: int, affix: string, defaultAffix: string) {
    affix != [] && affix != defaultAffix && RegionMatches(text, position, affix)
  }

  /** The prefix-matching loop of `parse` over the compact prefixes, with
      `matchAffix` deciding each step. */
  method LongestMatch(text: string, position: int, affixes: seq<string>, defaultAffix: string)
    returns (matchedIndex: int, matched: string)
    ensures matchedIndex == -1 <==> forall k | 0 <= k < |affixes| :: !Candidate(text, position, affixes[k], defaultAffix)
    ensures matchedIndex == -1 ==> matched == ""
    ensures matchedIndex != -1 ==>
      0 <= matchedIndex < |affixes| && matched == affixes[matchedIndex] &&
      Candidate(text, position, matched, defaultAffix) &&
      forall k | 0 <= k < |affixes| && Candidate(text, position, affixes[k], defaultAffix) ::
        (k < matchedIndex ==> |affixes[k]| < |matched|) && |affixes[k]| <= |matched|
  {
    matchedIndex, matched := -1, "";
    for i := 0 to |affixes|
      invariant matchedIndex == -1 ==> matched == "" && forall k | 0 <= k < i :: !Candidate(text, position, affixes[k], defaultAffix)
      invariant matchedIndex != -1 ==>
        0 <= matchedIndex < i && matched == affixes[matchedIndex] && Candidate(text, position, matched, defaultAffix) &&
        forall k | 0 <= k < i && Candidate(text, position, affixes[k], defaultAffix) ::
          (k < matchedIndex ==> |affixes[k]| < |matched|) && |affixes[k]| <= |matched|
    {
      if MatchAffix(text, position, affixes[i], defaultAffix, matched) {
        matchedIndex, matched := i, affixes[i];
      }
    }
  }

  /** `Patterns.get`: the affix stored for the plural category, else the
      one stored for "other", else the empty string. */
  function PatternsGet(patterns: map<string, string>, category: string): (r: string)
    ensures category in patterns ==> r == patterns[category]
    ensures category !in patterns && "other" in patterns ==> r == patterns["other"]
    ensures category !in patterns && "other" !in patterns ==> r == ""
  {
    if category in patterns then patterns[category]
    else if "other" in patterns then patterns["other"]
    else ""
  }

  /** A category without its own affix reads the "other" affix, and
      `put(count, pattern)` is read back by `get` for that category. */
  lemma PatternsGetPut(patterns: map<string, string>, count: string, pattern: string, category: string)
    ensures PatternsGet(patterns[count := pattern], count) == pattern
    ensures category != count && category !in patterns && count == "other" ==>
      PatternsGet(patterns[count := pattern], category) == pattern
    ensures category != count ==>
      (category in patterns ==> PatternsGet(patterns[count := pattern], category) == patterns[category])
  {
  }
}
