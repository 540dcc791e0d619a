/**
 * When `StenogressiveBridge.decompress` undoes `compress` (weekend-prototype.py).
 *
 * `compress` replaces each phrase, longest first, by its bracketed symbol
 * (and tries the capitalised and upper-cased phrase too); `decompress` puts
 * each symbol back, in table order. For a lower-case text without `[`, and
 * a table whose symbols are bracketed, distinct and no longer than any
 * phrase, and whose phrases are bracket-free and start with a lower-case
 * letter, the round trip gives the text back.
 *
 * The proof follows the text as a list of pieces: plain stretches of the
 * input and symbols standing for a phrase. Each compression pass splits
 * the plain pieces around the phrase; each decompression pass expands the
 * pieces holding one symbol.
 */
module BridgeRoundTrip {
  import opened Text
  import opened Dicts
  import opened Rewrite
  import opened Bridge
  import opened BridgeTables

  /** No bracket of either kind. */
  predicate Bracketless(s: string) {
    forall i :: 0 <= i < |s| ==> s[i] != '[' && s[i] != ']'
  }

  /** A bracketed symbol such as `[AI]`: a bracket at each end and none inside. */
  predicate IsSymbol(s: string) {
    |s| >= 2 && s[0] == '[' && s[|s| - 1] == ']'
    && forall i :: 0 < i < |s| - 1 ==> s[i] != '[' && s[i] != ']'
  }

  /**
   * A table the round trip works for: distinct symbols; phrases that are
   * non-empty, bracket-free and start with a lower-case letter; bracketed
   * symbols; and no symbol longer than any phrase.
   */
  predicate SafeTable(tbl: Dict<string>) {
    DistinctValues(tbl)
    && (forall e :: e in tbl ==> |e.0| > 0 && IsLowerChar(e.0[0]) && Bracketless(e.0) && IsSymbol(e.1))
    && (forall e, f :: e in tbl && f in tbl ==> |e.1| <= |f.0|)
  }

  /** No upper-case letter and no `[`. */
  predicate CleanText(s: string) {
    forall i :: 0 <= i < |s| ==> !IsUpperChar(s[i]) && s[i] != '['
  }

  // ---------------------------------------------------------------------
  // Literal passes over a concatenation.
  // ---------------------------------------------------------------------

  /** `str.replace` matches exactly where the slice equals the pattern. */
  lemma LitMatch(s: string, i: nat, q: string, t: string)
    requires i <= |s| && |q| > 0
    ensures MatchAt(s, i, Literal(q, t)) == if OccursAt(s, q, i) then Some((|q|, t)) else None
  {
    if i + |q| <= |s| {
      AgreeFromExact(s, i, q, 0);
      assert q[0..] == q;
    }
  }

  /** `s.replace(q, t)` from position `i`, written out for a literal pattern. */
  function LitScan(s: string, i: nat, q: string, t: string): string
    requires i <= |s| && |q| > 0
    decreases |s| - i
  {
    if i == |s| then []
    else if OccursAt(s, q, i) then t + LitScan(s, i + |q|, q, t)
    else [s[i]] + LitScan(s, i + 1, q, t)
  }

  /** The general scan of a `Literal` rule is the literal scan. */
  lemma {:induction false} LitScanAgrees(s: string, i: nat, q: string, t: string)
    requires i <= |s| && |q| > 0
    ensures ScanFrom(s, i, Literal(q, t)) == LitScan(s, i, q, t)
    decreases |s| - i
  {
    if i < |s| {
      LitMatch(s, i, q, t);
      if OccursAt(s, q, i) {
        LitScanAgrees(s, i + |q|, q, t);
      } else {
        LitScanAgrees(s, i + 1, q, t);
      }
    }
  }

  /** Past the end of `a`, scanning `a + b` is scanning `b`. */
  lemma {:induction false} ScanShift(a: string, b: string, j: nat, q: string, t: string)
    requires j <= |b| && |q| > 0
    ensures LitScan(a + b, |a| + j, q, t) == LitScan(b, j, q, t)
    decreases |b| - j
  {
    if j < |b| {
      ShiftUnfold(a, b, j, q, t);
      if OccursAt(b, q, j) {
        ScanShift(a, b, j + |q|, q, t);
      } else {
        ScanShift(a, b, j + 1, q, t);
      }
    }
  }

  /** One step of the scan of `a + b` past the end of `a` is the same step of the scan of `b`. */
  lemma ShiftUnfold(a: string, b: string, j: nat, q: string, t: string)
    requires j < |b| && |q| > 0
    ensures OccursAt(b, q, j) ==>
      (j + |q| <= |b| &&
       LitScan(a + b, |a| + j, q, t) == t + LitScan(a + b, |a| + j + |q|, q, t) &&
       LitScan(b, j, q, t) == t + LitScan(b, j + |q|, q, t))
    ensures !OccursAt(b, q, j) ==>
      (LitScan(a + b, |a| + j, q, t) == [b[j]] + LitScan(a + b, |a| + j + 1, q, t) &&
       LitScan(b, j, q, t) == [b[j]] + LitScan(b, j + 1, q, t))
  {
    ShiftStep(a, b, j, q);
  }

  lemma ShiftStep(a: string, b: string, j: nat, q: string)
    requires j < |b|
    ensures OccursAt(a + b, q, |a| + j) == OccursAt(b, q, j)
    ensures (a + b)[|a| + j] == b[j]
  {
    if j + |q| <= |b| {
      assert (a + b)[|a| + j..|a| + j + |q|] == b[j..j + |q|];
    }
  }

  /** No occurrence of `q` in `a + b` starts in `a` and ends in `b`. */
  predicate NoStraddle(a: string, b: string, q: string) {
    forall j: nat :: j < |a| < j + |q| <= |a| + |b| ==> !OccursAt(a + b, q, j)
  }

  /** Without a straddling occurrence, the scan of `a + b` reaches the end of `a` having scanned `a` alone. */
  lemma {:induction false} ScanPrefix(a: string, b: string, i: nat, q: string, t: string)
    requires i <= |a| && |q| > 0 && NoStraddle(a, b, q)
    ensures LitScan(a + b, i, q, t) == LitScan(a, i, q, t) + LitScan(a + b, |a|, q, t)
    decreases |a| - i
  {
    if i < |a| {
      PrefixStep(a, b, i, q);
      if OccursAt(a, q, i) {
        ScanPrefix(a, b, i + |q|, q, t);
        assert LitScan(a + b, i, q, t) == t + LitScan(a + b, i + |q|, q, t);
        assert LitScan(a, i, q, t) == t + LitScan(a, i + |q|, q, t);
        ConcatAssoc(t, LitScan(a, i + |q|, q, t), LitScan(a + b, |a|, q, t));
      } else {
        ScanPrefix(a, b, i + 1, q, t);
        assert LitScan(a + b, i, q, t) == [a[i]] + LitScan(a + b, i + 1, q, t);
        assert LitScan(a, i, q, t) == [a[i]] + LitScan(a, i + 1, q, t);
        ConcatAssoc([a[i]], LitScan(a, i + 1, q, t), LitScan(a + b, |a|, q, t));
      }
    }
  }

  lemma PrefixStep(a: string, b: string, i: nat, q: string)
    requires i < |a| && NoStraddle(a, b, q)
    ensures OccursAt(a + b, q, i) == OccursAt(a, q, i)
    ensures (a + b)[i] == a[i]
  {
    if i + |q| <= |a| {
      assert (a + b)[i..i + |q|] == a[i..i + |q|];
    }
  }

  /** A literal pass distributes over a concatenation no occurrence straddles. */
  lemma ApplyLitConcat(a: string, b: string, q: string, t: string)
    requires |q| > 0 && NoStraddle(a, b, q)
    ensures Apply(a + b, Literal(q, t)) == Apply(a, Literal(q, t)) + Apply(b, Literal(q, t))
  {
    LitScanAgrees(a + b, 0, q, t);
    LitScanAgrees(a, 0, q, t);
    LitScanAgrees(b, 0, q, t);
    ScanPrefix(a, b, 0, q, t);
    ScanShift(a, b, 0, q, t);
  }

  /** Where the pattern does not occur, the literal scan copies the text. */
  lemma {:induction false} LitScanAbsent(s: string, i: nat, q: string, t: string)
    requires i <= |s| && |q| > 0
    requires forall j: nat :: i <= j < |s| ==> !OccursAt(s, q, j)
    ensures LitScan(s, i, q, t) == s[i..]
    decreases |s| - i
  {
    if i < |s| {
      LitScanAbsent(s, i + 1, q, t);
      assert s[i..] == [s[i]] + s[i + 1..];
    }
  }

  /** A literal pass whose pattern does not occur changes nothing. */
  lemma ApplyAbsent(s: string, q: string, t: string)
    requires |q| > 0
    requires forall j: nat :: j < |s| ==> !OccursAt(s, q, j)
    ensures Apply(s, Literal(q, t)) == s
  {
    LitScanAgrees(s, 0, q, t);
    LitScanAbsent(s, 0, q, t);
    assert s[0..] == s;
  }

  // ---------------------------------------------------------------------
  // Texts as pieces.
  // ---------------------------------------------------------------------

  /** A stretch of the input, or a symbol standing for its phrase. */
  datatype Piece = Plain(text: string) | Sym(sym: string, pat: string)

  /** A piece as it reads once the symbols in `done` have been expanded. */
  function Render(pc: Piece, done: set<string>): string {
    match pc
    case Plain(x) => x
    case Sym(s, p) => if s in done then p else s
  }

  function View(ps: seq<Piece>, done: set<string>): string
    decreases |ps|
  {
    if ps == [] then [] else Render(ps[0], done) + View(ps[1..], done)
  }

  /** The text a piece stands for. */
  function Phrase(pc: Piece): string {
    match pc
    case Plain(x) => x
    case Sym(_, p) => p
  }

  /** The text the pieces stand for: every symbol read as its phrase. */
  function Expand(ps: seq<Piece>): string
    decreases |ps|
  {
    if ps == [] then [] else Phrase(ps[0]) + Expand(ps[1..])
  }

  lemma {:induction false} ViewConcat(a: seq<Piece>, b: seq<Piece>, done: set<string>)
    ensures View(a + b, done) == View(a, done) + View(b, done)
    decreases |a|
  {
    if a == [] {
      assert a + b == b;
    } else {
      assert (a + b)[0] == a[0] && (a + b)[1..] == a[1..] + b;
      ViewConcat(a[1..], b, done);
      assert View(a + b, done) == Render(a[0], done) + View(a[1..] + b, done);
    }
  }

  lemma {:induction false} ExpandConcat(a: seq<Piece>, b: seq<Piece>)
    ensures Expand(a + b) == Expand(a) + Expand(b)
    decreases |a|
  {
    if a == [] {
      assert a + b == b;
    } else {
      assert (a + b)[0] == a[0] && (a + b)[1..] == a[1..] + b;
      ExpandConcat(a[1..], b);
      assert Expand(a + b) == Phrase(a[0]) + Expand(a[1..] + b);
    }
  }

  /** Once every symbol has been expanded, the pieces read as the text they stand for. */
  lemma {:induction false} ViewExpanded(ps: seq<Piece>, done: set<string>)
    requires forall k :: 0 <= k < |ps| && ps[k].Sym? ==> ps[k].sym in done
    ensures View(ps, done) == Expand(ps)
    decreases |ps|
  {
    if ps != [] {
      ViewExpanded(ps[1..], done);
    }
  }

  /** No two plain pieces side by side. */
  predicate Alternating(ps: seq<Piece>) {
    forall k :: 0 <= k < |ps| - 1 ==> ps[k].Sym? || ps[k + 1].Sym?
  }

  /** A clean plain piece, or a symbol of the table standing for its own phrase. */
  predicate GoodPiece(pc: Piece, tbl: Dict<string>) {
    match pc
    case Plain(x) => CleanText(x)
    case Sym(s, p) => (p, s) in tbl
  }

  /** Alternating pieces, clean plain text, and symbols from the table. */
  predicate Good(ps: seq<Piece>, tbl: Dict<string>) {
    Alternating(ps) && forall k :: 0 <= k < |ps| ==> GoodPiece(ps[k], tbl)
  }

  lemma GoodConcat(a: seq<Piece>, b: seq<Piece>, tbl: Dict<string>)
    requires Good(a, tbl) && Good(b, tbl)
    requires a != [] && b != [] ==> a[|a| - 1].Sym? || b[0].Sym?
    ensures Good(a + b, tbl)
  {
    var ab := a + b;
    forall k | 0 <= k < |ab| - 1 ensures ab[k].Sym? || ab[k + 1].Sym? {
      if k + 1 < |a| {
        assert ab[k] == a[k] && ab[k + 1] == a[k + 1];
      } else if k >= |a| {
        assert ab[k] == b[k - |a|] && ab[k + 1] == b[k + 1 - |a|];
      }
    }
  }

  // ---------------------------------------------------------------------
  // One compression pass on the pieces.
  // ---------------------------------------------------------------------

  /** One more character at the front of the leading plain piece. */
  function Cons(c: char, ps: seq<Piece>): (r: seq<Piece>)
    requires ps != [] && ps[0].Plain?
    ensures |r| == |ps| && r[0] == Plain([c] + ps[0].text)
    ensures forall k :: 0 < k < |ps| ==> r[k] == ps[k]
  {
    [Plain([c] + ps[0].text)] + ps[1..]
  }

  /** The plain text `x` from position `i` after one pass of `Literal(q, t)`, as pieces. */
  function LitPieces(x: string, i: nat, q: string, t: string): (ps: seq<Piece>)
    requires i <= |x| && |q| > 0
    ensures ps != [] && ps[0].Plain? && ps[|ps| - 1].Plain?
    decreases |x| - i
  {
    if i == |x| then [Plain([])]
    else if OccursAt(x, q, i) then [Plain([]), Sym(t, q)] + LitPieces(x, i + |q|, q, t)
    else
      Cons(x[i], LitPieces(x, i + 1, q, t))
  }

  lemma ViewHead(pc: Piece, rest: seq<Piece>, done: set<string>)
    ensures View([pc] + rest, done) == Render(pc, done) + View(rest, done)
  {
    assert ([pc] + rest)[1..] == rest;
  }

  lemma ExpandHead(pc: Piece, rest: seq<Piece>)
    ensures Expand([pc] + rest) == Phrase(pc) + Expand(rest)
  {
    assert ([pc] + rest)[1..] == rest;
  }

  lemma ViewCons(c: char, ps: seq<Piece>)
    requires ps != [] && ps[0].Plain?
    ensures View(Cons(c, ps), {}) == [c] + View(ps, {})
  {
    assert ps == [ps[0]] + ps[1..];
    ViewHead(ps[0], ps[1..], {});
    ViewHead(Plain([c] + ps[0].text), ps[1..], {});
  }

  lemma ExpandCons(c: char, ps: seq<Piece>)
    requires ps != [] && ps[0].Plain?
    ensures Expand(Cons(c, ps)) == [c] + Expand(ps)
  {
    assert ps == [ps[0]] + ps[1..];
    ExpandHead(ps[0], ps[1..]);
    ExpandHead(Plain([c] + ps[0].text), ps[1..]);
  }

  lemma ViewMatched(q: string, t: string, ps: seq<Piece>)
    ensures View([Plain([]), Sym(t, q)] + ps, {}) == t + View(ps, {})
  {
    assert [Plain([]), Sym(t, q)] + ps == [Plain([])] + ([Sym(t, q)] + ps);
    ViewHead(Plain([]), [Sym(t, q)] + ps, {});
    ViewHead(Sym(t, q), ps, {});
  }

  lemma ExpandMatched(q: string, t: string, ps: seq<Piece>)
    ensures Expand([Plain([]), Sym(t, q)] + ps) == q + Expand(ps)
  {
    assert [Plain([]), Sym(t, q)] + ps == [Plain([])] + ([Sym(t, q)] + ps);
    ExpandHead(Plain([]), [Sym(t, q)] + ps);
    ExpandHead(Sym(t, q), ps);
  }

  /** The pieces read as the output of the pass. */
  lemma {:induction false} LitPiecesView(x: string, i: nat, q: string, t: string)
    requires i <= |x| && |q| > 0
    ensures View(LitPieces(x, i, q, t), {}) == LitScan(x, i, q, t)
    decreases |x| - i
  {
    if i < |x| {
      if OccursAt(x, q, i) {
        LitPiecesView(x, i + |q|, q, t);
        ViewMatchStep(x, i, q, t);
      } else {
        LitPiecesView(x, i + 1, q, t);
        ViewKeepStep(x, i, q, t);
      }
    }
  }

  lemma ViewMatchStep(x: string, i: nat, q: string, t: string)
    requires i < |x| && |q| > 0 && OccursAt(x, q, i)
    requires View(LitPieces(x, i + |q|, q, t), {}) == LitScan(x, i + |q|, q, t)
    ensures View(LitPieces(x, i, q, t), {}) == LitScan(x, i, q, t)
  {
    var rest := LitPieces(x, i + |q|, q, t);
    assert LitPieces(x, i, q, t) == [Plain([]), Sym(t, q)] + rest;
    assert LitScan(x, i, q, t) == t + LitScan(x, i + |q|, q, t);
    ViewMatched(q, t, rest);
  }

  lemma ViewKeepStep(x: string, i: nat, q: string, t: string)
    requires i < |x| && |q| > 0 && !OccursAt(x, q, i)
    requires View(LitPieces(x, i + 1, q, t), {}) == LitScan(x, i + 1, q, t)
    ensures View(LitPieces(x, i, q, t), {}) == LitScan(x, i, q, t)
  {
    var rest := LitPieces(x, i + 1, q, t);
    assert LitPieces(x, i, q, t) == Cons(x[i], rest);
    assert LitScan(x, i, q, t) == [x[i]] + LitScan(x, i + 1, q, t);
    ViewCons(x[i], rest);
  }

  /** The end of a string from `i`, cut at `j`. */
  lemma SliceSplit(x: string, i: nat, j: nat)
    requires i <= j <= |x|
    ensures x[i..] == x[i..j] + x[j..]
  {
  }

  /** The pieces stand for the input. */
  lemma {:induction false} LitPiecesExpand(x: string, i: nat, q: string, t: string)
    requires i <= |x| && |q| > 0
    ensures Expand(LitPieces(x, i, q, t)) == x[i..]
    decreases |x| - i
  {
    if i < |x| {
      if OccursAt(x, q, i) {
        LitPiecesExpand(x, i + |q|, q, t);
        ExpandMatchStep(x, i, q, t);
      } else {
        LitPiecesExpand(x, i + 1, q, t);
        ExpandKeepStep(x, i, q, t);
      }
    }
  }

  lemma ExpandMatchStep(x: string, i: nat, q: string, t: string)
    requires i < |x| && |q| > 0 && OccursAt(x, q, i)
    requires Expand(LitPieces(x, i + |q|, q, t)) == x[i + |q|..]
    ensures Expand(LitPieces(x, i, q, t)) == x[i..]
  {
    var rest := LitPieces(x, i + |q|, q, t);
    assert LitPieces(x, i, q, t) == [Plain([]), Sym(t, q)] + rest;
    ExpandMatched(q, t, rest);
    SliceSplit(x, i, i + |q|);
  }

  lemma ExpandKeepStep(x: string, i: nat, q: string, t: string)
    requires i < |x| && |q| > 0 && !OccursAt(x, q, i)
    requires Expand(LitPieces(x, i + 1, q, t)) == x[i + 1..]
    ensures Expand(LitPieces(x, i, q, t)) == x[i..]
  {
    var rest := LitPieces(x, i + 1, q, t);
    assert LitPieces(x, i, q, t) == Cons(x[i], rest);
    ExpandCons(x[i], rest);
    SliceSplit(x, i, i + 1);
    assert x[i..i + 1] == [x[i]];
  }

  /** One more clean character keeps good pieces good. */
  lemma GoodCons(c: char, ps: seq<Piece>, tbl: Dict<string>)
    requires ps != [] && ps[0].Plain? && Good(ps, tbl) && !IsUpperChar(c) && c != '['
    ensures Good(Cons(c, ps), tbl)
  {
    var r := Cons(c, ps);
    var y := [c] + ps[0].text;
    assert GoodPiece(ps[0], tbl);
    assert forall m :: 0 < m < |y| ==> y[m] == ps[0].text[m - 1];
    assert GoodPiece(r[0], tbl);
  }

  /** The pieces alternate, hold only `Sym(t, q)`, and keep the input's plain text clean. */
  lemma {:induction false} LitPiecesGood(x: string, i: nat, q: string, t: string, tbl: Dict<string>)
    requires i <= |x| && |q| > 0 && (q, t) in tbl
    requires forall j :: i <= j < |x| ==> !IsUpperChar(x[j]) && x[j] != '['
    ensures Good(LitPieces(x, i, q, t), tbl)
    decreases |x| - i
  {
    if i < |x| {
      if OccursAt(x, q, i) {
        LitPiecesGood(x, i + |q|, q, t, tbl);
        GoodConcat([Plain([]), Sym(t, q)], LitPieces(x, i + |q|, q, t), tbl);
      } else {
        LitPiecesGood(x, i + 1, q, t, tbl);
        GoodCons(x[i], LitPieces(x, i + 1, q, t), tbl);
      }
    }
  }

  /** Where the pattern never occurs, the plain text stays one piece. */
  lemma {:induction false} LitPiecesAbsent(x: string, i: nat, q: string, t: string)
    requires i <= |x| && |q| > 0
    requires forall j: nat :: i <= j < |x| ==> !OccursAt(x, q, j)
    ensures LitPieces(x, i, q, t) == [Plain(x[i..])]
    decreases |x| - i
  {
    if i < |x| {
      LitPiecesAbsent(x, i + 1, q, t);
      assert x[i..] == [x[i]] + x[i + 1..];
    }
  }

  function Rewritten(pc: Piece, q: string, t: string): seq<Piece>
    requires |q| > 0
  {
    match pc
    case Plain(x) => LitPieces(x, 0, q, t)
    case Sym(_, _) => [pc]
  }

  /** Every plain piece split around the occurrences of `q`. */
  function SplitPieces(ps: seq<Piece>, q: string, t: string): (r: seq<Piece>)
    requires |q| > 0
    ensures ps != [] && ps[0].Sym? ==> r != [] && r[0] == ps[0]
    decreases |ps|
  {
    if ps == [] then [] else Rewritten(ps[0], q, t) + SplitPieces(ps[1..], q, t)
  }

  /** Every symbol piece is a bracketed symbol no longer than `q`. */
  predicate SymbolsFit(ps: seq<Piece>, q: string) {
    forall k :: 0 <= k < |ps| && ps[k].Sym? ==> IsSymbol(ps[k].sym) && |ps[k].sym| <= |q|
  }

  /** A bracket-free pattern never runs from one piece into the next. */
  lemma NoStraddleAfterHead(ps: seq<Piece>, q: string)
    requires ps != [] && Bracketless(q) && Alternating(ps) && SymbolsFit(ps, q)
    ensures NoStraddle(Render(ps[0], {}), View(ps[1..], {}), q)
  {
    var h, rest := ps[0], ps[1..];
    var a, b := Render(h, {}), View(rest, {});
    forall j: nat | j < |a| < j + |q| <= |a| + |b| ensures !OccursAt(a + b, q, j) {
      if h.Sym? {
        assert (a + b)[|a| - 1] == ']' && (a + b)[j..j + |q|][|a| - 1 - j] == (a + b)[|a| - 1];
      } else {
        assert rest[0] == ps[1] && rest[0].Sym?;
        assert (a + b)[|a|] == '[' && (a + b)[j..j + |q|][|a| - j] == (a + b)[|a|];
      }
    }
  }

  /** A bracket-free pattern at least as long as a symbol does not occur in it. */
  lemma NotInSymbol(s: string, q: string, t: string)
    requires IsSymbol(s) && |s| <= |q| && Bracketless(q)
    ensures Apply(s, Literal(q, t)) == s
  {
    forall j: nat | j < |s| ensures !OccursAt(s, q, j) {
      if j + |q| <= |s| {
        assert s[j..j + |q|][0] == s[0] == '[';
      }
    }
    ApplyAbsent(s, q, t);
  }

  /**
   * A pass of a bracket-free pattern at least as long as every symbol only
   * matches inside plain pieces: its output reads as the split pieces.
   */
  lemma {:induction false} ApplyPieces(ps: seq<Piece>, q: string, t: string)
    requires |q| > 0 && Bracketless(q) && Alternating(ps) && SymbolsFit(ps, q)
    ensures Apply(View(ps, {}), Literal(q, t)) == View(SplitPieces(ps, q, t), {})
    decreases |ps|
  {
    if ps != [] {
      var h, rest := ps[0], ps[1..];
      NoStraddleAfterHead(ps, q);
      ApplyLitConcat(Render(h, {}), View(rest, {}), q, t);
      ApplyPieces(rest, q, t);
      match h {
        case Plain(x) =>
          LitPiecesView(x, 0, q, t);
          LitScanAgrees(x, 0, q, t);
        case Sym(s, p) =>
          NotInSymbol(s, q, t);
          assert View([h], {}) == s + [];
      }
      ViewConcat(Rewritten(h, q, t), SplitPieces(rest, q, t), {});
    }
  }

  /** Splitting keeps what the pieces stand for. */
  lemma {:induction false} SplitExpand(ps: seq<Piece>, q: string, t: string)
    requires |q| > 0
    ensures Expand(SplitPieces(ps, q, t)) == Expand(ps)
    decreases |ps|
  {
    if ps != [] {
      SplitExpand(ps[1..], q, t);
      ExpandConcat(Rewritten(ps[0], q, t), SplitPieces(ps[1..], q, t));
      if ps[0].Plain? {
        LitPiecesExpand(ps[0].text, 0, q, t);
        assert ps[0].text[0..] == ps[0].text;
      } else {
        assert Expand([ps[0]]) == ps[0].pat + [];
      }
    }
  }

  /** Splitting around a phrase of the table keeps the pieces good. */
  lemma {:induction false} SplitGood(ps: seq<Piece>, q: string, t: string, tbl: Dict<string>)
    requires |q| > 0 && (q, t) in tbl && Good(ps, tbl)
    ensures Good(SplitPieces(ps, q, t), tbl)
    decreases |ps|
  {
    if ps != [] {
      var h, rest := ps[0], ps[1..];
      assert GoodPiece(h, tbl);
      SplitGood(rest, q, t, tbl);
      if h.Plain? {
        LitPiecesGood(h.text, 0, q, t, tbl);
        if rest != [] {
          assert rest[0] == ps[1] && rest[0].Sym?;
        }
      }
      GoodConcat(Rewritten(h, q, t), SplitPieces(rest, q, t), tbl);
    }
  }

  /** A pattern starting with a capital never occurs in clean plain pieces: splitting changes nothing. */
  lemma {:induction false} SplitCapital(ps: seq<Piece>, q: string, t: string, tbl: Dict<string>)
    requires |q| > 0 && IsUpperChar(q[0]) && Good(ps, tbl)
    ensures SplitPieces(ps, q, t) == ps
    decreases |ps|
  {
    if ps != [] {
      SplitCapital(ps[1..], q, t, tbl);
      if ps[0].Plain? {
        var x := ps[0].text;
        assert GoodPiece(ps[0], tbl);
        forall j: nat | j < |x| ensures !OccursAt(x, q, j) {
          if j + |q| <= |x| {
            assert x[j..j + |q|][0] == x[j];
          }
        }
        LitPiecesAbsent(x, 0, q, t);
        assert x[0..] == x;
      }
      assert ps == [ps[0]] + ps[1..];
    }
  }

  // ---------------------------------------------------------------------
  // Compression.
  // ---------------------------------------------------------------------

  lemma CaseVariantsBracketless(p: string)
    requires Bracketless(p) && |p| > 0 && IsLowerChar(p[0])
    ensures Bracketless(Capitalize(p)) && Bracketless(Upper(p))
    ensures IsUpperChar(Capitalize(p)[0]) && IsUpperChar(Upper(p)[0])
  {
  }

  /** The pieces after the passes of `sorted`. */
  function PiecesAfter(sorted: Dict<string>, text: string): seq<Piece>
    requires NonEmptyEntries(sorted)
    decreases |sorted|
  {
    if sorted == [] then [Plain(text)]
    else
      var init, last := sorted[..|sorted| - 1], sorted[|sorted| - 1];
      assert forall x :: x in init ==> x in sorted;
      assert last in sorted;
      SplitPieces(PiecesAfter(init, text), last.0, last.1)
  }

  /** Symbols of a safe table fit inside any of its phrases. */
  lemma SymbolsFitTable(ps: seq<Piece>, tbl: Dict<string>, e: (string, string), q: string)
    requires SafeTable(tbl) && Good(ps, tbl) && e in tbl && |e.0| == |q|
    ensures SymbolsFit(ps, q)
  {
    forall k | 0 <= k < |ps| && ps[k].Sym? ensures IsSymbol(ps[k].sym) && |ps[k].sym| <= |q| {
      assert GoodPiece(ps[k], tbl);
    }
  }

  /** The three passes for one entry of a safe table, on good pieces. */
  lemma CompressEntry(tbl: Dict<string>, ps: seq<Piece>, e: (string, string))
    requires SafeTable(tbl) && Good(ps, tbl) && e in tbl
    ensures |e.0| > 0
    ensures Good(SplitPieces(ps, e.0, e.1), tbl)
    ensures Expand(SplitPieces(ps, e.0, e.1)) == Expand(ps)
    ensures ApplyAll(View(ps, {}), PatternRules(e)) == View(SplitPieces(ps, e.0, e.1), {})
  {
    var p, s := e.0, e.1;
    SymbolsFitTable(ps, tbl, e, p);
    ApplyPieces(ps, p, s);
    SplitExpand(ps, p, s);
    SplitGood(ps, p, s, tbl);
    var ps2 := SplitPieces(ps, p, s);
    CaseVariantsBracketless(p);
    SymbolsFitTable(ps2, tbl, e, Capitalize(p));
    ApplyPieces(ps2, Capitalize(p), s);
    SplitCapital(ps2, Capitalize(p), s, tbl);
    SymbolsFitTable(ps2, tbl, e, Upper(p));
    ApplyPieces(ps2, Upper(p), s);
    SplitCapital(ps2, Upper(p), s, tbl);
    ApplyAllThree(View(ps, {}), PatternRules(e));
  }

  /**
   * The passes of `compress` for `sorted`, a list of entries of a safe
   * table, turn a clean text into the view of good pieces that stand for it.
   */
  lemma {:induction false} CompressPieces(tbl: Dict<string>, sorted: Dict<string>, text: string)
    requires SafeTable(tbl) && NonEmptyEntries(sorted) && (forall e :: e in sorted ==> e in tbl)
    requires CleanText(text)
    ensures Good(PiecesAfter(sorted, text), tbl)
    ensures View(PiecesAfter(sorted, text), {}) == ApplyAll(text, CompressRules(sorted))
    ensures Expand(PiecesAfter(sorted, text)) == text
    decreases |sorted|
  {
    if sorted == [] {
      assert View([Plain(text)], {}) == text + [];
      assert Expand([Plain(text)]) == text + [];
    } else {
      var init, last := sorted[..|sorted| - 1], sorted[|sorted| - 1];
      assert forall x :: x in init ==> x in sorted;
      assert last in sorted;
      CompressPieces(tbl, init, text);
      CompressEntry(tbl, PiecesAfter(init, text), last);
      assert CompressRules(sorted) == CompressRules(init) + PatternRules(last);
      ApplyAllConcat(text, CompressRules(init), PatternRules(last));
    }
  }

  // ---------------------------------------------------------------------
  // Decompression.
  // ---------------------------------------------------------------------

  /** The symbols of the first `k` entries. */
  function Done(tbl: Dict<string>, k: nat): set<string>
    requires k <= |tbl|
    decreases k
  {
    if k == 0 then {} else Done(tbl, k - 1) + {tbl[k - 1].1}
  }

  /** Each of the first `k` symbols is done after `k` passes. */
  lemma {:induction false} DoneHas(tbl: Dict<string>, k: nat, j: nat)
    requires j < k <= |tbl|
    ensures tbl[j].1 in Done(tbl, k)
    decreases k
  {
    if j < k - 1 {
      DoneHas(tbl, k - 1, j);
    }
  }

  /** In a table with distinct symbols, a symbol names one phrase. */
  lemma SymbolNamesOnePhrase(tbl: Dict<string>, p: string, k: nat)
    requires DistinctValues(tbl) && k < |tbl| && (p, tbl[k].1) in tbl
    ensures p == tbl[k].0
  {
    var i :| 0 <= i < |tbl| && tbl[i] == (p, tbl[k].1);
  }

  /** A symbol, which starts with `[`, never runs from one piece into the next. */
  lemma SymbolNoStraddle(ps: seq<Piece>, done: set<string>, tbl: Dict<string>, q: string)
    requires SafeTable(tbl) && Good(ps, tbl) && ps != [] && IsSymbol(q)
    ensures NoStraddle(Render(ps[0], done), View(ps[1..], done), q)
  {
    var h := ps[0];
    var a, b := Render(h, done), View(ps[1..], done);
    assert GoodPiece(h, tbl);
    forall j: nat | j < |a| < j + |q| <= |a| + |b| ensures !OccursAt(a + b, q, j) {
      var w := (a + b)[j..j + |q|];
      if h.Sym? && h.sym !in done && j == 0 {
        assert w[|a| - 1] == ']' && q[|a| - 1] != ']';
      } else {
        assert w[0] == a[j] != '[';
      }
    }
  }

  /** Entry `k`'s pass on one piece: a symbol piece holding its symbol becomes its phrase, all else stays. */
  lemma DecompressPiece(h: Piece, done: set<string>, tbl: Dict<string>, k: nat)
    requires SafeTable(tbl) && GoodPiece(h, tbl) && k < |tbl|
    ensures |tbl[k].1| > 0
    ensures Apply(Render(h, done), Literal(tbl[k].1, tbl[k].0)) == Render(h, done + {tbl[k].1})
  {
    var q, pk := tbl[k].1, tbl[k].0;
    assert tbl[k] in tbl;
    var a := Render(h, done);
    if h.Sym? && h.sym !in done && h.sym == q {
      LitScanAgrees(q, 0, q, pk);
      assert q[0..|q|] == q;
      assert LitScan(q, 0, q, pk) == pk + [];
      SymbolNamesOnePhrase(tbl, h.pat, k);
    } else {
      forall j: nat | j < |a| ensures !OccursAt(a, q, j) {
        if j + |q| <= |a| {
          var w := a[j..j + |q|];
          if h.Sym? && h.sym !in done && j == 0 {
            if |q| < |a| {
              assert w[|q| - 1] == a[|q| - 1] != ']';
            } else {
              assert w == a;
            }
          } else {
            assert w[0] == a[j] != '[';
          }
        }
      }
      ApplyAbsent(a, q, pk);
    }
  }

  /** The pass that expands entry `k`'s symbol expands exactly the pieces holding it. */
  lemma {:induction false} DecompressStep(ps: seq<Piece>, done: set<string>, tbl: Dict<string>, k: nat)
    requires SafeTable(tbl) && Good(ps, tbl) && k < |tbl|
    ensures |tbl[k].1| > 0
    ensures Apply(View(ps, done), Literal(tbl[k].1, tbl[k].0)) == View(ps, done + {tbl[k].1})
    decreases |ps|
  {
    assert tbl[k] in tbl;
    if ps != [] {
      SymbolNoStraddle(ps, done, tbl, tbl[k].1);
      ApplyLitConcat(Render(ps[0], done), View(ps[1..], done), tbl[k].1, tbl[k].0);
      assert Good(ps[1..], tbl);
      DecompressStep(ps[1..], done, tbl, k);
      DecompressPiece(ps[0], done, tbl, k);
    }
  }

  /** All of `decompress` on good pieces gives the text they stand for. */
  lemma DecompressPieces(ps: seq<Piece>, tbl: Dict<string>)
    requires SafeTable(tbl) && Good(ps, tbl) && NonEmptyEntries(Invert(tbl))
    ensures ApplyAll(View(ps, {}), DecompressRules(Invert(tbl))) == Expand(ps)
  {
    InvertRules(tbl);
    DecompressAll(ps, tbl, DecompressRules(Invert(tbl)));
    AllDone(ps, tbl);
    ViewExpanded(ps, Done(tbl, |tbl|));
  }

  /** The views of the pieces after each number of passes, none to all. */
  function Trace(ps: seq<Piece>, tbl: Dict<string>): (trace: seq<string>)
    ensures |trace| == |tbl| + 1
    ensures forall i :: 0 <= i <= |tbl| ==> trace[i] == View(ps, Done(tbl, i))
  {
    seq(|tbl| + 1, i requires 0 <= i <= |tbl| => View(ps, Done(tbl, i)))
  }

  /** The passes that expand the symbols of the table one entry at a time expand all of them. */
  lemma DecompressAll(ps: seq<Piece>, tbl: Dict<string>, rules: seq<Rule>)
    requires SafeTable(tbl) && Good(ps, tbl) && |rules| == |tbl| && AllWellFormed(rules)
    requires forall i :: 0 <= i < |tbl| ==> rules[i] == Literal(tbl[i].1, tbl[i].0)
    ensures ApplyAll(View(ps, {}), rules) == View(ps, Done(tbl, |tbl|))
  {
    DecompressTrace(ps, tbl, rules);
    ApplyAllTrace(rules, Trace(ps, tbl), |rules|);
    assert rules[..|rules|] == rules;
  }

  /** Pass `i` of `decompress` expands the symbol of entry `i` and leaves the other pieces as they are. */
  lemma DecompressTrace(ps: seq<Piece>, tbl: Dict<string>, rules: seq<Rule>)
    requires SafeTable(tbl) && Good(ps, tbl) && |rules| == |tbl| && AllWellFormed(rules)
    requires forall i :: 0 <= i < |tbl| ==> rules[i] == Literal(tbl[i].1, tbl[i].0)
    ensures forall i :: 0 <= i < |rules| ==> Apply(Trace(ps, tbl)[i], rules[i]) == Trace(ps, tbl)[i + 1]
  {
    forall i | 0 <= i < |rules|
      ensures Apply(Trace(ps, tbl)[i], rules[i]) == Trace(ps, tbl)[i + 1]
    {
      DecompressStep(ps, Done(tbl, i), tbl, i);
    }
  }

  /** With distinct symbols, the passes of `decompress` turn each entry's symbol back into its phrase, in table order. */
  lemma InvertRules(tbl: Dict<string>)
    requires DistinctValues(tbl) && NonEmptyEntries(Invert(tbl))
    ensures |DecompressRules(Invert(tbl))| == |tbl|
    ensures forall i :: 0 <= i < |tbl| ==> DecompressRules(Invert(tbl))[i] == Literal(tbl[i].1, tbl[i].0)
  {
    InvertDistinct(tbl);
  }

  /** After every pass, every symbol of good pieces is done. */
  lemma AllDone(ps: seq<Piece>, tbl: Dict<string>)
    requires Good(ps, tbl)
    ensures forall i :: 0 <= i < |ps| && ps[i].Sym? ==> ps[i].sym in Done(tbl, |tbl|)
  {
    forall i | 0 <= i < |ps| && ps[i].Sym? ensures ps[i].sym in Done(tbl, |tbl|) {
      assert GoodPiece(ps[i], tbl);
      var j :| 0 <= j < |tbl| && tbl[j] == (ps[i].pat, ps[i].sym);
      DoneHas(tbl, |tbl|, j);
    }
  }

  // ---------------------------------------------------------------------
  // The round trip.
  // ---------------------------------------------------------------------

  /** No `[` in the text. */
  predicate NoOpen(s: string) {
    forall i :: 0 <= i < |s| ==> s[i] != '['
  }

  /**
   * With a safe table, decompressing what `compress` made of a lower-case
   * text without `[` gives the text back.
   */
  lemma RoundTrip(tbl: Dict<string>, text: string)
    requires SafeTable(tbl) && IsLowerCase(text) && NoOpen(text)
    ensures NonEmptyEntries(tbl) && NonEmptyEntries(Invert(tbl))
    ensures DecompressText(Invert(tbl), CompressText(SortByLength(tbl), text)) == text
  {
    assert NonEmptyEntries(tbl);
    InvertNonEmpty(tbl);
    var sorted := SortByLength(tbl);
    assert forall e :: e in sorted ==> e in multiset(tbl);
    CompressPieces(tbl, sorted, text);
    DecompressPieces(PiecesAfter(sorted, text), tbl);
  }

  /** The symbols of the built-in table are bracketed and at most five characters long. */
  lemma BuiltinSymbols()
    ensures forall i :: 0 <= i < |BridgeDict| ==> IsSymbol(BridgeDict[i].1) && |BridgeDict[i].1| <= 5
  {
  }

  /** The phrases of the built-in table start with a lower-case letter and are at least eight characters long. */
  lemma BuiltinPhraseShapes()
    ensures forall i :: 0 <= i < |BridgeDict| ==> 8 <= |BridgeDict[i].0| && IsLowerChar(BridgeDict[i].0[0])
  {
  }

  /** The phrases of the first four entries of the built-in table are bracket-free; the lemmas after it cover the rest, a few entries at a time. */
  lemma BuiltinPhrasesBracketless0()
    ensures forall i :: 0 <= i < 4 ==> Bracketless(BridgeDict[i].0)
  {
  }

  lemma BuiltinPhrasesBracketless1()
    ensures forall i :: 4 <= i < 8 ==> Bracketless(BridgeDict[i].0)
  {
  }

  lemma BuiltinPhrasesBracketless2()
    ensures forall i :: 8 <= i < 12 ==> Bracketless(BridgeDict[i].0)
  {
  }

  lemma BuiltinPhrasesBracketless3()
    ensures forall i :: 12 <= i < 14 ==> Bracketless(BridgeDict[i].0)
  {
  }

  lemma BuiltinPhrasesBracketless4()
    ensures forall i :: 14 <= i < 16 ==> Bracketless(BridgeDict[i].0)
  {
  }

  lemma BuiltinPhrasesBracketless5()
    ensures forall i :: 16 <= i < 20 ==> Bracketless(BridgeDict[i].0)
  {
  }

  lemma BuiltinPhrasesBracketless6()
    ensures forall i :: 20 <= i < 24 ==> Bracketless(BridgeDict[i].0)
  {
  }

  lemma BuiltinPhrasesBracketless7()
    ensures forall i :: 24 <= i < 28 ==> Bracketless(BridgeDict[i].0)
  {
  }

  lemma BuiltinPhrasesBracketless8()
    ensures forall i :: 28 <= i < 32 ==> Bracketless(BridgeDict[i].0)
  {
  }

  lemma BuiltinPhrases()
    ensures forall i :: 0 <= i < |BridgeDict| ==> 8 <= |BridgeDict[i].0| && IsLowerChar(BridgeDict[i].0[0]) && Bracketless(BridgeDict[i].0)
  {
    BuiltinPhraseShapes();
    BuiltinPhrasesBracketless0();
    BuiltinPhrasesBracketless1();
    BuiltinPhrasesBracketless2();
    BuiltinPhrasesBracketless3();
    BuiltinPhrasesBracketless4();
    BuiltinPhrasesBracketless5();
    BuiltinPhrasesBracketless6();
    BuiltinPhrasesBracketless7();
    BuiltinPhrasesBracketless8();
  }

  /** The built-in table is safe, so the round trip holds for the built-in bridge. */
  lemma BuiltinSafe()
    ensures SafeTable(BridgeDict)
  {
    BridgeSymbolsDistinct();
    BuiltinSymbols();
    BuiltinPhrases();
    forall e | e in BridgeDict ensures |e.0| >= 8 && |e.1| <= 5 && |e.0| > 0 && IsLowerChar(e.0[0]) && Bracketless(e.0) && IsSymbol(e.1) {
      var i :| 0 <= i < |BridgeDict| && BridgeDict[i] == e;
    }
  }

  /**
   * A bridge whose loaded table is safe gives back every lower-case text
   * without `[` that it compressed, whatever it has learned since.
   */
  lemma BridgeRoundTrip(b: Bridge, text: string)
    requires b.Valid() && SafeTable(b.loaded) && IsLowerCase(text) && NoOpen(text)
    ensures DecompressText(b.decompressions, CompressResult(b.sortedCompressions, text).0) == text
  {
    RoundTrip(b.loaded, text);
  }

  // ---------------------------------------------------------------------
  // What `str.replace` without word boundaries does to two inputs.
  // ---------------------------------------------------------------------

  /** "database" is replaced inside "databases": the passes know no word boundaries. */
  lemma DatabasesAbbreviated()
    ensures ("database", "[DB]") in BridgeDict
    ensures Apply("databases", Literal("database", "[DB]")) == "[DB]s"
  {
    assert BridgeDict[18] == ("database", "[DB]");
  }

  /** Title case is none of the three spellings `compress` tries, so "In Order To" is left alone. */
  lemma TitleCaseUntouched()
    ensures ("in order to", "[1]") in BridgeDict
    ensures ApplyAll("In Order To", PatternRules(("in order to", "[1]"))) == "In Order To"
  {
    assert BridgeDict[0] == ("in order to", "[1]");
    TitleNotLower();
    TitleNotCapitalized();
    TitleNotUpper();
    PatternAbsent("In Order To", "in order to", "[1]");
  }

  /** "In Order To" is not "in order to": they differ in the first letter. */
  lemma TitleNotLower()
    ensures forall j: nat :: j < |"In Order To"| ==> !OccursAt("In Order To", "in order to", j)
  {
    Differs("In Order To", "in order to", 0);
  }

  /** "In Order To" is not "In order to": they differ in the fourth letter. */
  lemma TitleNotCapitalized()
    ensures forall j: nat :: j < |"In Order To"| ==> !OccursAt("In Order To", Capitalize("in order to"), j)
  {
    CapitalizedDiffers("In Order To", "in order to", 3);
  }

  /** A text that differs, past its first character, from the lower-cased phrase of its own length is not the capitalised phrase. */
  lemma CapitalizedDiffers(s: string, p: string, k: nat)
    requires |p| == |s| && 0 < k < |s| && s[k] != LowerChar(p[k])
    ensures forall j: nat :: j < |s| ==> !OccursAt(s, Capitalize(p), j)
  {
    Differs(s, Capitalize(p), k);
  }

  /** "In Order To" is not "IN ORDER TO": they differ in the second letter. */
  lemma TitleNotUpper()
    ensures forall j: nat :: j < |"In Order To"| ==> !OccursAt("In Order To", Upper("in order to"), j)
  {
    var u := Upper("in order to");
    assert u[1] == UpperChar('n');
    Differs("In Order To", u, 1);
  }

  /** When none of the three spellings of a pattern occurs, its passes change nothing. */
  lemma PatternAbsent(s: string, p: string, t: string)
    requires |p| > 0 && Unspelt(s, p)
    ensures ApplyAll(s, PatternRules((p, t))) == s
  {
    ApplyAllThree(s, PatternRules((p, t)));
    ApplyAbsent(s, p, t);
    ApplyAbsent(s, Capitalize(p), t);
    ApplyAbsent(s, Upper(p), t);
  }

  /** A pattern as long as the text that differs from it somewhere occurs nowhere in it. */
  lemma Differs(s: string, q: string, k: nat)
    requires |q| == |s| && k < |s| && s[k] != q[k]
    ensures forall j: nat :: j < |s| ==> !OccursAt(s, q, j)
  {
    assert s[0..|q|] == s;
  }
  // ---------------------------------------------------------------------
  // `compress` with the whole built-in table, in any pass order.
  // ---------------------------------------------------------------------

  /** None of the three spellings that `compress` tries for the phrase `p` occurs in `s`. */
  predicate Unspelt(s: string, p: string) {
    forall j: nat :: j < |s| ==> !OccursAt(s, p, j) && !OccursAt(s, Capitalize(p), j) && !OccursAt(s, Upper(p), j)
  }

  /**
   * When the three passes of `e` turn `s` into `t` and leave `t` alone, and
   * no other phrase of the table is spelt in `s` or in `t`, the passes of
   * the first `k` entries give `t` once `e` is among them and `s` before.
   */
  lemma {:induction false} CompressOnly(sorted: Dict<string>, e: (string, string), s: string, t: string, k: nat)
    requires NonEmptyEntries(sorted) && k <= |sorted| && |e.0| > 0
    requires ApplyAll(s, PatternRules(e)) == t && ApplyAll(t, PatternRules(e)) == t
    requires forall f :: f in sorted && f != e ==> Unspelt(s, f.0) && Unspelt(t, f.0)
    ensures NonEmptyEntries(sorted[..k])
    ensures ApplyAll(s, CompressRules(sorted[..k])) == if e in sorted[..k] then t else s
  {
    if k == 0 {
      assert sorted[..0] == [];
    } else {
      CompressOnly(sorted, e, s, t, k - 1);
      var before, f := ApplyAll(s, CompressRules(sorted[..k - 1])), sorted[k - 1];
      assert f in sorted;
      assert forall x :: x in sorted[..k] ==> x in sorted;
      assert sorted[..k][..k - 1] == sorted[..k - 1];
      ApplyAllConcat(s, CompressRules(sorted[..k - 1]), PatternRules(f));
      PrefixMembers(sorted, e, k);
      if f != e {
        assert Unspelt(before, f.0);
        PatternAbsent(before, f.0, f.1);
      }
    }
  }

  /** An entry is among the first `k` exactly when it is among the first `k - 1` or is the `k`-th. */
  lemma PrefixMembers<X>(xs: seq<X>, x: X, k: nat)
    requires 0 < k <= |xs|
    ensures x in xs[..k] <==> x in xs[..k - 1] || x == xs[k - 1]
  {
    assert xs[..k] == xs[..k - 1] + [xs[k - 1]];
  }

  /** Lower-casing forgets an earlier upper- or lower-casing. */
  lemma LowerForgets(c: char)
    ensures LowerChar(UpperChar(c)) == LowerChar(c) && LowerChar(LowerChar(c)) == LowerChar(c)
  {
  }

  /** A text shorter than a phrase holds none of its spellings. */
  lemma ShortUnspelt(s: string, p: string)
    requires |s| < |p|
    ensures Unspelt(s, p)
  {
  }

  /**
   * A text that, wherever `p` could start, differs from the character `a`
   * places on in `p` ignoring case holds none of the spellings of `p`.
   */
  lemma CaselessUnspelt(s: string, p: string, a: nat)
    requires a < |p|
    requires forall j: nat :: j + |p| <= |s| ==> DiffersAt(s, j, p, a, a)
    ensures Unspelt(s, p)
  {
    LowerForgets(p[a]);
    forall j: nat | j < |s|
      ensures !OccursAt(s, p, j) && !OccursAt(s, Capitalize(p), j) && !OccursAt(s, Upper(p), j)
    {
      if j + |p| <= |s| {
        assert DiffersAt(s, j, p, a, a);
        assert s[j..j + |p|][a] == s[j + a];
      }
    }
  }

  /** The lengths of the phrases of the built-in table: only five are shorter than twelve characters. */
  lemma ShortPhrases()
    ensures BridgeDict[0] == ("in order to", "[1]") && BridgeDict[1].0 == "be able to"
    ensures BridgeDict[18] == ("database", "[DB]") && BridgeDict[19].0 == "javascript" && BridgeDict[20].0 == "is going to"
    ensures forall i :: 0 <= i < |BridgeDict| && i != 0 && i != 1 && i != 18 && i != 19 && i != 20 ==> |BridgeDict[i].0| >= 12
  {
  }

  /**
   * `e` is the one entry of the table `d` that `compress` uses on `s`: its
   * three passes turn `s` into `t` and leave `t` alone, and no other phrase
   * of `d` is spelt in `s` or in `t`.
   */
  predicate OnlyEntry(d: Dict<string>, e: (string, string), s: string, t: string) {
    NonEmptyEntries(d) && e in d && |e.0| > 0
    && ApplyAll(s, PatternRules(e)) == t && ApplyAll(t, PatternRules(e)) == t
    && forall i :: 0 <= i < |d| && d[i] != e ==> Unspelt(s, d[i].0) && Unspelt(t, d[i].0)
  }

  /**
   * The same for a whole table `sorted` holding the entries of `d` in any
   * order: `compress` turns `s` into `t` when `e` is the one entry of `d`
   * that applies.
   */
  lemma PermutedCompressOnly(sorted: Dict<string>, d: Dict<string>, e: (string, string), s: string, t: string)
    requires multiset(sorted) == multiset(d) && OnlyEntry(d, e, s, t)
    ensures NonEmptyEntries(sorted)
    ensures CompressText(sorted, s) == t
  {
    forall f | f in sorted ensures f in d {
      assert f in multiset(sorted);
    }
    forall f | f in sorted && f != e ensures Unspelt(s, f.0) && Unspelt(t, f.0) {
      var i :| 0 <= i < |d| && d[i] == f;
    }
    assert e in multiset(d);
    CompressOnly(sorted, e, s, t, |sorted|);
    assert sorted[..|sorted|] == sorted;
  }

  /**
   * `compress("databases")` with the whole built-in table, whichever order
   * its passes run in (the constructor's longest-first order among them),
   * is "[DB]s": every other phrase is longer than both texts.
   */
  lemma DatabasesCompressed(sorted: Dict<string>)
    requires multiset(sorted) == multiset(BridgeDict)
    ensures NonEmptyEntries(sorted)
    ensures CompressText(sorted, "databases") == "[DB]s"
  {
    DatabaseOnlyEntry();
    PermutedCompressOnly(sorted, BridgeDict, ("database", "[DB]"), "databases", "[DB]s");
  }

  /** "database" is the one entry of the built-in table that applies to "databases". */
  lemma DatabaseOnlyEntry()
    ensures OnlyEntry(BridgeDict, ("database", "[DB]"), "databases", "[DB]s")
  {
    var s, t, e := "databases", "[DB]s", ("database", "[DB]");
    DatabasesAbbreviated();
    ShortUnspelt(t, e.0);
    ApplyAllThree(s, PatternRules(e));
    ApplyAbsent(t, Capitalize(e.0), e.1);
    ApplyAbsent(t, Upper(e.0), e.1);
    PatternAbsent(t, e.0, e.1);
    OthersLongerThanDatabases();
    BridgeDictValid();
  }

  /** No phrase of the built-in table but "database" is spelt in "databases" or in "[DB]s", both shorter than it. */
  lemma OthersLongerThanDatabases()
    ensures forall i :: 0 <= i < |BridgeDict| && BridgeDict[i] != ("database", "[DB]") ==>
      Unspelt("databases", BridgeDict[i].0) && Unspelt("[DB]s", BridgeDict[i].0)
  {
    ShortPhrases();
    forall i | 0 <= i < |BridgeDict| && BridgeDict[i] != ("database", "[DB]")
      ensures Unspelt("databases", BridgeDict[i].0) && Unspelt("[DB]s", BridgeDict[i].0)
    {
      ShortUnspelt("databases", BridgeDict[i].0);
      ShortUnspelt("[DB]s", BridgeDict[i].0);
    }
  }

  /** The phrases of the built-in table shorter than twelve characters, other than "in order to", are not spelt in "In Order To". */
  lemma TitleMissesShortPhrases()
    ensures Unspelt("In Order To", "be able to") && Unspelt("In Order To", "database")
    ensures Unspelt("In Order To", "javascript") && Unspelt("In Order To", "is going to")
  {
    var s := "In Order To";
    assert forall j: nat :: j + 10 <= |s| ==> DiffersAt(s, j, "be able to", 0, 0);
    CaselessUnspelt(s, "be able to", 0);
    assert forall j: nat :: j + 8 <= |s| ==> DiffersAt(s, j, "database", 0, 0);
    CaselessUnspelt(s, "database", 0);
    assert forall j: nat :: j + 10 <= |s| ==> DiffersAt(s, j, "javascript", 0, 0);
    CaselessUnspelt(s, "javascript", 0);
    assert forall j: nat :: j + 11 <= |s| ==> DiffersAt(s, j, "is going to", 1, 1);
    CaselessUnspelt(s, "is going to", 1);
  }

  /** No phrase of the built-in table but "in order to" is spelt in "In Order To". */
  lemma OthersMissTitle()
    ensures forall i :: 0 <= i < |BridgeDict| && BridgeDict[i] != ("in order to", "[1]") ==> Unspelt("In Order To", BridgeDict[i].0)
  {
    ShortPhrases();
    TitleMissesShortPhrases();
    forall i | 0 <= i < |BridgeDict| && BridgeDict[i] != ("in order to", "[1]")
      ensures Unspelt("In Order To", BridgeDict[i].0)
    {
      if i != 1 && i != 18 && i != 19 && i != 20 {
        ShortUnspelt("In Order To", BridgeDict[i].0);
      }
    }
  }

  /**
   * `compress("In Order To")` with the whole built-in table, in any pass
   * order, is "In Order To": title case is none of the three spellings
   * tried, and no other phrase is spelt in the text.
   */
  lemma TitleCaseCompressed(sorted: Dict<string>)
    requires multiset(sorted) == multiset(BridgeDict)
    ensures NonEmptyEntries(sorted)
    ensures CompressText(sorted, "In Order To") == "In Order To"
  {
    TitleOnlyEntry();
    PermutedCompressOnly(sorted, BridgeDict, ("in order to", "[1]"), "In Order To", "In Order To");
  }

  /** "in order to" is the one entry of the built-in table whose phrase could apply to "In Order To", and it does not. */
  lemma TitleOnlyEntry()
    ensures OnlyEntry(BridgeDict, ("in order to", "[1]"), "In Order To", "In Order To")
  {
    TitleCaseUntouched();
    OthersMissTitle();
    BridgeDictValid();
  }
}
