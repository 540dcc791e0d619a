/**
 * The substitution passes both compressors are built from. Each `Rule` is
 * one `re.sub` or `str.replace` call; `Apply` runs it as those functions
 * do: a leftmost, non-overlapping scan of the input in which every
 * word-boundary test looks at the input string, not at the output.
 */
module Rewrite {
  import opened Text
  import opened Dicts

  datatype Rule =
      /** `s.replace(pat, tok)`: exact, anywhere. */
    | Literal(pat: string, tok: string)
      /** `re.sub(re.escape(pat), tok, s, flags=re.IGNORECASE)`. */
    | Caseless(pat: string, tok: string)
      /** `re.sub(r'\b' + re.escape(pat) + r'\b', tok, s, flags=re.IGNORECASE)`. */
    | WholeWord(pat: string, tok: string)
      /** `re.sub(r'\b(\w+)' + pat + r'\b', r'\1' + tok, s, flags=re.IGNORECASE)`: the stem is kept. */
    | StemSuffix(pat: string, tok: string)

  /** Patterns are never empty, and a suffix is made of word characters only. */
  predicate WellFormed(r: Rule) {
    |r.pat| > 0 && (r.StemSuffix? ==> forall k :: 0 <= k < |r.pat| ==> IsWordChar(r.pat[k]))
  }

  predicate AllWellFormed(rules: seq<Rule>) {
    forall k :: 0 <= k < |rules| ==> WellFormed(rules[k])
  }

  /** Position `i` holds a word character. */
  predicate WordAt(s: string, i: int) {
    0 <= i < |s| && IsWordChar(s[i])
  }

  /** `\b` at position `i`: a word character on exactly one side. */
  predicate Boundary(s: string, i: int) {
    WordAt(s, i - 1) != WordAt(s, i)
  }

  /** The end of the run of word characters that starts at `i`. */
  function WordEnd(s: string, i: nat): (j: nat)
    requires i <= |s|
    ensures i <= j <= |s|
    ensures forall k :: i <= k < j ==> IsWordChar(s[k])
    ensures j == |s| || !IsWordChar(s[j])
    decreases |s| - i
  {
    if i == |s| || !IsWordChar(s[i]) then i else WordEnd(s, i + 1)
  }

  /** `pat` occurs at `i`, compared exactly or ignoring ASCII case. */
  predicate PatternAt(s: string, i: nat, pat: string, ignoreCase: bool) {
    i + |pat| <= |s| && AgreeFrom(s, i, pat, 0, ignoreCase)
  }

  /**
   * What the rule's regular expression (or literal) matches at `i`, if
   * anything: how many characters it consumes and what replaces them.
   */
  function MatchAt(s: string, i: nat, r: Rule): (m: Option<(nat, string)>)
    requires i <= |s| && WellFormed(r)
    ensures m.Some? ==> 0 < m.value.0 && i + m.value.0 <= |s|
    ensures m.Some? ==> |m.value.1| == m.value.0 - |r.pat| + |r.tok|
    ensures m.Some? && !r.StemSuffix? ==> m.value == (|r.pat|, r.tok)
  {
    match r
    case Literal(p, t) =>
      if PatternAt(s, i, p, false) then Some((|p|, t)) else None
    case Caseless(p, t) =>
      if PatternAt(s, i, p, true) then Some((|p|, t)) else None
    case WholeWord(p, t) =>
      if PatternAt(s, i, p, true) && Boundary(s, i) && Boundary(s, i + |p|) then Some((|p|, t)) else None
    case StemSuffix(p, t) =>
      // `\b(\w+)` must start a run of word characters; as the suffix is made
      // of word characters and is followed by `\b`, it ends where the run ends.
      var j := WordEnd(s, i);
      if !WordAt(s, i - 1) && j - i > |p| && PatternAt(s, j - |p|, p, true)
      then Some((j - i, s[i..j - |p|] + t))
      else None
  }

  /**
   * The scan of `re.sub`/`str.replace` from position `i` of `s` to its end.
   * A replacement no longer than its pattern never lengthens the text, one
   * at least as long never shortens it, and with a non-empty replacement
   * only the empty rest of the text scans to nothing.
   */
  function ScanFrom(s: string, i: nat, r: Rule): (out: string)
    requires i <= |s| && WellFormed(r)
    ensures |r.tok| <= |r.pat| ==> |out| <= |s| - i
    ensures |r.tok| >= |r.pat| ==> |out| >= |s| - i
    ensures |r.tok| > 0 ==> (out == [] <==> i == |s|)
    decreases |s| - i
  {
    if i == |s| then []
    else match MatchAt(s, i, r)
      case Some(m) => m.1 + ScanFrom(s, i + m.0, r)
      case None => [s[i]] + ScanFrom(s, i + 1, r)
  }

  /** One substitution pass over the whole string. */
  function Apply(s: string, r: Rule): string
    requires WellFormed(r)
  {
    ScanFrom(s, 0, r)
  }

  /** The passes of `rules`, one after another, as the compressors' `for` loops run them. */
  function ApplyAll(s: string, rules: seq<Rule>): string
    requires AllWellFormed(rules)
    decreases |rules|
  {
    if rules == [] then s else Apply(ApplyAll(s, rules[..|rules| - 1]), rules[|rules| - 1])
  }

  /** Running two lists of passes is running their concatenation. */
  lemma {:induction false} ApplyAllConcat(s: string, a: seq<Rule>, b: seq<Rule>)
    requires AllWellFormed(a) && AllWellFormed(b)
    ensures AllWellFormed(a + b)
    ensures ApplyAll(s, a + b) == ApplyAll(ApplyAll(s, a), b)
    decreases |b|
  {
    if b == [] {
      assert a + b == a;
    } else {
      assert (a + b)[..|a + b| - 1] == a + b[..|b| - 1];
      ApplyAllConcat(s, a, b[..|b| - 1]);
    }
  }

  /** One more pass of a rule list: the step of a loop that runs the list. */
  lemma ApplyAllStep(s: string, rules: seq<Rule>, k: nat)
    requires AllWellFormed(rules) && k < |rules|
    ensures AllWellFormed(rules[..k]) && AllWellFormed(rules[..k + 1])
    ensures ApplyAll(s, rules[..k + 1]) == Apply(ApplyAll(s, rules[..k]), rules[k])
  {
    assert rules[..k + 1][..k] == rules[..k];
  }

  /** When the first `k` passes give `a` and pass `k` turns `a` into `b`, the first `k + 1` passes give `b`. */
  lemma ApplyAllChain(s: string, rules: seq<Rule>, k: nat, a: string, b: string)
    requires AllWellFormed(rules) && k < |rules|
    requires ApplyAll(s, rules[..k]) == a && Apply(a, rules[k]) == b
    ensures AllWellFormed(rules[..k + 1]) && ApplyAll(s, rules[..k + 1]) == b
  {
    ApplyAllStep(s, rules, k);
  }

  /** When pass `i` turns `trace[i]` into `trace[i + 1]`, the first `k` passes turn `trace[0]` into `trace[k]`. */
  lemma {:induction false} ApplyAllTrace(rules: seq<Rule>, trace: seq<string>, k: nat)
    requires AllWellFormed(rules) && |trace| == |rules| + 1 && k <= |rules|
    requires forall i :: 0 <= i < |rules| ==> Apply(trace[i], rules[i]) == trace[i + 1]
    ensures AllWellFormed(rules[..k]) && ApplyAll(trace[0], rules[..k]) == trace[k]
    decreases k
  {
    if k == 0 {
      assert rules[..0] == [];
    } else {
      ApplyAllTrace(rules, trace, k - 1);
      ApplyAllChain(trace[0], rules, k - 1, trace[k - 1], trace[k]);
    }
  }

  /** A pass whose pattern occurs nowhere leaves the text as it is. */
  lemma {:induction false} ScanNoMatch(s: string, i: nat, r: Rule)
    requires i <= |s| && WellFormed(r)
    requires forall j :: i <= j < |s| ==> MatchAt(s, j, r).None?
    ensures ScanFrom(s, i, r) == s[i..]
    decreases |s| - i
  {
    if i < |s| {
      ScanNoMatch(s, i + 1, r);
      assert s[i..] == [s[i]] + s[i + 1..];
    }
  }

  /** Passes none of which matches anywhere in the text leave it as it is. */
  lemma {:induction false} ApplyAllNoMatch(s: string, rules: seq<Rule>)
    requires AllWellFormed(rules)
    requires forall k, j :: 0 <= k < |rules| && 0 <= j <= |s| ==> MatchAt(s, j, rules[k]).None?
    ensures ApplyAll(s, rules) == s
    decreases |rules|
  {
    if rules != [] {
      var init, last := rules[..|rules| - 1], rules[|rules| - 1];
      ApplyAllNoMatch(s, init);
      ScanNoMatch(s, 0, last);
      assert s[0..] == s;
    }
  }

  /** Only pass `k` of a list matches, turning `s` into `t`: the list turns `s` into `t`. */
  lemma ApplyAllOne(s: string, t: string, rules: seq<Rule>, k: nat)
    requires AllWellFormed(rules) && k < |rules|
    requires Apply(s, rules[k]) == t
    requires forall i, j :: 0 <= i < k && 0 <= j <= |s| ==> MatchAt(s, j, rules[i]).None?
    requires forall i, j :: k < i < |rules| && 0 <= j <= |t| ==> MatchAt(t, j, rules[i]).None?
    ensures ApplyAll(s, rules) == t
  {
    var before, upto, after := rules[..k], rules[..k + 1], rules[k + 1..];
    assert upto + after == rules;
    forall i, j | 0 <= i < |before| && 0 <= j <= |s| ensures MatchAt(s, j, before[i]).None? {
      assert before[i] == rules[i];
    }
    ApplyAllNoMatch(s, before);
    ApplyAllStep(s, rules, k);
    forall i, j | 0 <= i < |after| && 0 <= j <= |t| ensures MatchAt(t, j, after[i]).None? {
      assert after[i] == rules[k + 1 + i];
    }
    ApplyAllNoMatch(t, after);
    ApplyAllConcat(s, upto, after);
  }

  /** A pattern that agrees with the text agrees with it, ignoring case, character by character. */
  lemma {:induction false} AgreeChar(s: string, i: nat, p: string, m: nat, ignoreCase: bool, k: nat)
    requires i + |p| <= |s| && m <= k < |p| && AgreeFrom(s, i, p, m, ignoreCase)
    ensures LowerChar(s[i + k]) == LowerChar(p[k])
    decreases k - m
  {
    if m < k {
      AgreeChar(s, i, p, m + 1, ignoreCase, k);
    }
  }

  /** Where `p` would sit at `j` in `s`, the text differs from its character `a` or its character `b`, ignoring case. */
  predicate DiffersAt(s: string, j: nat, p: string, a: nat, b: nat)
    requires j + |p| <= |s| && a < |p| && b < |p|
  {
    LowerChar(s[j + a]) != LowerChar(p[a]) || LowerChar(s[j + b]) != LowerChar(p[b])
  }

  /**
   * A pass without a stem matches nowhere when, wherever its pattern would
   * fit, the text differs from the pattern's character `a` or its
   * character `b`, ignoring case.
   */
  lemma NoMatchAtChars(s: string, r: Rule, a: nat, b: nat)
    requires WellFormed(r) && !r.StemSuffix? && a < |r.pat| && b < |r.pat|
    requires forall j :: 0 <= j && j + |r.pat| <= |s| ==> DiffersAt(s, j, r.pat, a, b)
    ensures forall j :: 0 <= j <= |s| ==> MatchAt(s, j, r).None?
  {
    forall j: nat | j <= |s| ensures MatchAt(s, j, r).None? {
      if j + |r.pat| <= |s| { assert DiffersAt(s, j, r.pat, a, b); }
      if PatternAt(s, j, r.pat, true) {
        AgreeChar(s, j, r.pat, 0, true, a);
        AgreeChar(s, j, r.pat, 0, true, b);
      }
      if PatternAt(s, j, r.pat, false) {
        AgreeChar(s, j, r.pat, 0, false, a);
        AgreeChar(s, j, r.pat, 0, false, b);
      }
    }
  }

  /** A pass without a stem matches nowhere when its pattern starts with a character that, ignoring case, is not in the text. */
  lemma FirstCharAbsent(s: string, r: Rule, cs: set<char>)
    requires WellFormed(r) && !r.StemSuffix?
    requires forall j :: 0 <= j < |s| ==> LowerChar(s[j]) in cs
    requires LowerChar(r.pat[0]) !in cs
    ensures forall j :: 0 <= j <= |s| ==> MatchAt(s, j, r).None?
  {
    forall j | 0 <= j && j + |r.pat| <= |s| ensures DiffersAt(s, j, r.pat, 0, 0) { }
    NoMatchAtChars(s, r, 0, 0);
  }

  /** The passes `lo` to `hi` match nowhere when none of their patterns starts with a character of the text, ignoring case. */
  lemma FirstCharsAbsent(s: string, rules: seq<Rule>, cs: set<char>, lo: nat, hi: nat)
    requires AllWellFormed(rules) && lo <= hi <= |rules|
    requires forall k :: lo <= k < hi ==> !rules[k].StemSuffix? && LowerChar(rules[k].pat[0]) !in cs
    requires forall j :: 0 <= j < |s| ==> LowerChar(s[j]) in cs
    ensures forall k, j :: lo <= k < hi && 0 <= j <= |s| ==> MatchAt(s, j, rules[k]).None?
  {
    forall k | lo <= k < hi ensures forall j :: 0 <= j <= |s| ==> MatchAt(s, j, rules[k]).None? {
      FirstCharAbsent(s, rules[k], cs);
    }
  }

  /** In a text that is one word, a whole-word pass matches only a pattern as long as the text. */
  lemma OneWordMiss(s: string, r: Rule)
    requires WellFormed(r) && r.WholeWord? && |r.pat| != |s|
    requires forall k :: 0 <= k < |s| ==> IsWordChar(s[k])
    ensures forall j :: 0 <= j <= |s| ==> MatchAt(s, j, r).None?
  {
    forall j: nat | j <= |s| ensures MatchAt(s, j, r).None? {
      if 0 < j < |s| { assert WordAt(s, j - 1) && WordAt(s, j); }
      else if j == 0 && |r.pat| < |s| { assert WordAt(s, |r.pat| - 1) && WordAt(s, |r.pat|); }
    }
  }

  /**
   * A replacement strictly shorter than its pattern shortens the text at
   * every match, so a pass that keeps the length changed nothing.
   */
  lemma {:induction false} ScanSameLength(s: string, i: nat, r: Rule)
    requires i <= |s| && WellFormed(r) && |r.tok| < |r.pat|
    requires |ScanFrom(s, i, r)| == |s| - i
    ensures ScanFrom(s, i, r) == s[i..]
    decreases |s| - i
  {
    if i < |s| {
      if MatchAt(s, i, r).Some? {
        ScanShorterAtMatch(s, i, r);
        assert false;
      } else {
        ScanSameLength(s, i + 1, r);
        assert s[i..] == [s[i]] + s[i + 1..];
      }
    }
  }

  /** A match of a shortening rule makes the rest of the scan strictly shorter than the rest of the text. */
  lemma ScanShorterAtMatch(s: string, i: nat, r: Rule)
    requires i < |s| && WellFormed(r) && |r.tok| < |r.pat| && MatchAt(s, i, r).Some?
    ensures |ScanFrom(s, i, r)| < |s| - i
  {
    var m := MatchAt(s, i, r).value;
    assert ScanFrom(s, i, r) == m.1 + ScanFrom(s, i + m.0, r);
  }

  /** Every rule's replacement is shorter than its pattern. */
  predicate Shrinking(rules: seq<Rule>) {
    forall k :: 0 <= k < |rules| ==> |rules[k].tok| < |rules[k].pat|
  }

  /**
   * Passes that each shorten what they replace never lengthen the text, and
   * leave it exactly as it was when its length does not change.
   */
  lemma {:induction false} ApplyAllShrinking(s: string, rules: seq<Rule>)
    requires AllWellFormed(rules) && Shrinking(rules)
    ensures |ApplyAll(s, rules)| <= |s|
    ensures |ApplyAll(s, rules)| == |s| ==> ApplyAll(s, rules) == s
    decreases |rules|
  {
    if rules != [] {
      var init, last := rules[..|rules| - 1], rules[|rules| - 1];
      assert AllWellFormed(init) && Shrinking(init);
      ApplyAllShrinking(s, init);
      var mid := ApplyAll(s, init);
      if |Apply(mid, last)| == |s| {
        ScanSameLength(mid, 0, last);
      }
    }
  }

  /** Passes that never shorten what they replace never shorten the text. */
  lemma {:induction false} ApplyAllGrowing(s: string, rules: seq<Rule>)
    requires AllWellFormed(rules)
    requires forall k :: 0 <= k < |rules| ==> |rules[k].tok| >= |rules[k].pat|
    ensures |ApplyAll(s, rules)| >= |s|
    decreases |rules|
  {
    if rules != [] {
      ApplyAllGrowing(s, rules[..|rules| - 1]);
    }
  }

  /** No rule replaces its match with nothing. */
  predicate NonEmptyTokens(rules: seq<Rule>) {
    forall k :: 0 <= k < |rules| ==> |rules[k].tok| > 0
  }

  /** With non-empty replacements, the passes empty only the empty string. */
  lemma {:induction false} ApplyAllEmpty(s: string, rules: seq<Rule>)
    requires AllWellFormed(rules)
    requires NonEmptyTokens(rules)
    ensures ApplyAll(s, rules) == [] <==> s == []
    decreases |rules|
  {
    if rules != [] {
      var init := rules[..|rules| - 1];
      ApplyAllEmpty(s, init);
    }
  }
}
