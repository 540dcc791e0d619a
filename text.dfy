/**
 * The pieces of Python's `str` and `re` character handling that the
 * compressors rely on, restricted to ASCII: the `\w` class, `lower()`,
 * `upper()`, `capitalize()`, the whitespace `split()` uses, `" ".join`,
 * the `in` substring test and `str(n)` for integers.
 */
module Text {

  /** `\w` over ASCII: a letter, a digit or the underscore. */
  predicate IsWordChar(c: char) {
    'a' <= c <= 'z' || 'A' <= c <= 'Z' || '0' <= c <= '9' || c == '_'
  }

  predicate IsUpperChar(c: char) { 'A' <= c <= 'Z' }

  predicate IsLowerChar(c: char) { 'a' <= c <= 'z' }

  predicate IsLetter(c: char) { IsUpperChar(c) || IsLowerChar(c) }

  function LowerChar(c: char): (r: char)
    ensures IsUpperChar(c) ==> IsLowerChar(r)
    ensures !IsUpperChar(c) ==> r == c
    ensures !IsUpperChar(r)
  {
    if IsUpperChar(c) then (c as int + 32) as char else c
  }

  function UpperChar(c: char): (r: char)
    ensures IsLowerChar(c) ==> IsUpperChar(r)
    ensures !IsLowerChar(c) ==> r == c
    ensures IsLetter(c) ==> IsUpperChar(r)
  {
    if IsLowerChar(c) then (c as int - 32) as char else c
  }

  /** `s.lower()`. */
  function Lower(s: string): (r: string)
    ensures |r| == |s|
    ensures forall i :: 0 <= i < |s| ==> r[i] == LowerChar(s[i])
  {
    if s == [] then [] else [LowerChar(s[0])] + Lower(s[1..])
  }

  /** `s.upper()`. */
  function Upper(s: string): (r: string)
    ensures |r| == |s|
    ensures forall i :: 0 <= i < |s| ==> r[i] == UpperChar(s[i])
  {
    if s == [] then [] else [UpperChar(s[0])] + Upper(s[1..])
  }

  /** `s.capitalize()`: the first character upper-cased, the rest lower-cased. */
  function Capitalize(s: string): (r: string)
    ensures |r| == |s|
    ensures |s| > 0 ==> r[0] == UpperChar(s[0])
    ensures forall i :: 0 < i < |s| ==> r[i] == LowerChar(s[i])
  {
    if s == [] then [] else [UpperChar(s[0])] + Lower(s[1..])
  }

  /** A string with no upper-case letter, as `s == s.lower()` says. */
  predicate IsLowerCase(s: string) {
    forall i :: 0 <= i < |s| ==> !IsUpperChar(s[i])
  }

  /** The ASCII characters `str.split()` treats as separators. */
  predicate IsSpace(c: char) {
    c == ' ' || '\U{9}' <= c <= '\U{d}' || '\U{1c}' <= c <= '\U{1f}'
  }

  predicate HasNoSpace(w: string) {
    forall i :: 0 <= i < |w| ==> !IsSpace(w[i])
  }

  /**
   * `s.split()` from position `i` on, where the word being read started at
   * `start`: runs of separators divide the words and no word is empty.
   */
  function SplitFrom(s: string, start: nat, i: nat): (ws: seq<string>)
    requires start <= i <= |s|
    requires forall k :: start <= k < i ==> !IsSpace(s[k])
    ensures forall k :: 0 <= k < |ws| ==> |ws[k]| > 0 && HasNoSpace(ws[k])
    decreases |s| - i
  {
    if i == |s| then
      (if start == i then [] else [s[start..i]])
    else if IsSpace(s[i]) then
      (if start == i then [] else [s[start..i]]) + SplitFrom(s, i + 1, i + 1)
    else
      SplitFrom(s, start, i + 1)
  }

  /** `s.split()`. */
  function Split(s: string): (ws: seq<string>)
    ensures forall k :: 0 <= k < |ws| ==> |ws[k]| > 0 && HasNoSpace(ws[k])
  {
    SplitFrom(s, 0, 0)
  }

  /** `" ".join(ws)`. */
  function Join(ws: seq<string>): (r: string)
    ensures |ws| == 0 ==> r == []
    ensures |ws| == 1 ==> r == ws[0]
    ensures |ws| > 0 ==> |r| >= |ws[0]|
  {
    if |ws| == 0 then []
    else if |ws| == 1 then ws[0]
    else ws[0] + " " + Join(ws[1..])
  }

  /** `p` and `s[i..i + |p|]` agree from index `k` of `p` on, compared exactly or ASCII case-insensitively. */
  predicate AgreeFrom(s: string, i: nat, p: string, k: nat, ignoreCase: bool)
    requires i + |p| <= |s| && k <= |p|
    decreases |p| - k
  {
    k == |p| ||
    ((if ignoreCase then LowerChar(s[i + k]) == LowerChar(p[k]) else s[i + k] == p[k])
     && AgreeFrom(s, i, p, k + 1, ignoreCase))
  }

  /** The exact comparison is the slice equality `s[i:i + len(p)] == p`. */
  lemma {:induction false} AgreeFromExact(s: string, i: nat, p: string, k: nat)
    requires i + |p| <= |s| && k <= |p|
    ensures AgreeFrom(s, i, p, k, false) <==> s[i + k..i + |p|] == p[k..]
    decreases |p| - k
  {
    if k < |p| {
      AgreeFromExact(s, i, p, k + 1);
      assert s[i + k..i + |p|] == [s[i + k]] + s[i + k + 1..i + |p|];
      assert p[k..] == [p[k]] + p[k + 1..];
    }
  }

  /** `sub` occurs in `s` at or after position `i`. */
  predicate ContainsFrom(s: string, sub: string, i: nat)
    decreases |s| - i
  {
    i + |sub| <= |s| && (AgreeFrom(s, i, sub, 0, false) || ContainsFrom(s, sub, i + 1))
  }

  /** Python's `sub in s`. */
  predicate Contains(s: string, sub: string) {
    ContainsFrom(s, sub, 0)
  }

  /** The slice of `s` at `j` is `sub`. */
  predicate OccursAt(s: string, sub: string, j: nat) {
    j + |sub| <= |s| && s[j..j + |sub|] == sub
  }

  /** `Contains` is the substring test: some slice of `s` equals `sub`. */
  lemma {:induction false} ContainsFromSlice(s: string, sub: string, i: nat)
    ensures ContainsFrom(s, sub, i) <==> exists j :: i <= j && OccursAt(s, sub, j)
    decreases |s| - i
  {
    if i + |sub| <= |s| {
      AgreeFromExact(s, i, sub, 0);
      assert sub[0..] == sub;
      assert AgreeFrom(s, i, sub, 0, false) <==> OccursAt(s, sub, i);
      ContainsFromSlice(s, sub, i + 1);
      if exists j :: i <= j && OccursAt(s, sub, j) {
        var j :| i <= j && OccursAt(s, sub, j);
        if j > i {
          assert i + 1 <= j;
        }
      }
    } else {
      forall j | i <= j ensures !OccursAt(s, sub, j) { }
    }
  }

  /** `sub` is a slice of `s` somewhere. */
  ghost predicate Mentions(s: string, sub: string) {
    exists j: nat :: OccursAt(s, sub, j)
  }

  /** `sub in s` exactly when `sub` is a slice of `s`. */
  lemma ContainsSlice(s: string, sub: string)
    ensures Contains(s, sub) <==> Mentions(s, sub)
  {
    ContainsFromSlice(s, sub, 0);
  }

  function DigitChar(d: nat): (c: char)
    requires d < 10
    ensures '0' <= c <= '9'
  {
    ('0' as int + d) as char
  }

  /** The decimal digits of `n` without leading zeros. */
  function NatDigits(n: nat): (r: string)
    ensures |r| > 0
    ensures forall i :: 0 <= i < |r| ==> '0' <= r[i] <= '9'
    decreases n
  {
    if n < 10 then [DigitChar(n)] else NatDigits(n / 10) + [DigitChar(n % 10)]
  }

  /** `str(n)` (and `f"{n}"`) for an integer. */
  function Decimal(n: int): (r: string)
    ensures |r| > 0
    ensures forall i :: 0 <= i < |r| ==> '0' <= r[i] <= '9' || r[i] == '-'
  {
    if n < 0 then "-" + NatDigits(-n) else NatDigits(n)
  }

  lemma {:induction false} NatDigitsInjective(m: nat, n: nat)
    requires NatDigits(m) == NatDigits(n)
    ensures m == n
    decreases m
  {
    var a, b := NatDigits(m), NatDigits(n);
    if m < 10 && n < 10 {
      assert a[0] == b[0];
    } else if m >= 10 && n >= 10 {
      assert a[|a| - 1] == b[|b| - 1];
      assert m % 10 == n % 10;
      assert NatDigits(m / 10) == a[..|a| - 1] == b[..|b| - 1] == NatDigits(n / 10);
      NatDigitsInjective(m / 10, n / 10);
    }
  }

  /** Different integers print differently, so generated symbols never collide. */
  lemma DecimalInjective(m: int, n: int)
    requires m != n
    ensures Decimal(m) != Decimal(n)
  {
    if m < 0 && n < 0 {
      if Decimal(m) == Decimal(n) {
        assert NatDigits(-m) == Decimal(m)[1..] == NatDigits(-n);
        NatDigitsInjective(-m, -n);
      }
    } else if m >= 0 && n >= 0 {
      if Decimal(m) == Decimal(n) {
        NatDigitsInjective(m, n);
      }
    } else {
      assert Decimal(m)[0] != Decimal(n)[0];
    }
  }
}
