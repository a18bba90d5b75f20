/**
 * `ChemHandler` (js/libs/chem-handler.js): the formula recogniser
 * `isChemFormula`, the two subscript renderers `formatFormula` (a replace) and
 * `renderFormula` (a character-scanning loop), and `processBlocks`, which
 * turns `[CHEM]...[/CHEM]` blocks into markers and bare `[formula]` text into
 * inline spans.
 *
 * Lines 9, 14 and 39 of the source double their backslashes. At line 9 each
 * doubled `\\` matches a literal backslash and the `[` after it opens a
 * character class; at line 39 `\\d+` matches a backslash followed by `d`s.
 * At line 14 the `[` after `\\` opens the class `[([A-Za-z0-9()]`, which
 * swallows the opening parenthesis, so the `)` after `+` closes no group and
 * the literal is a syntax error: the file does not load, and `ChemHandler` is
 * never defined. The rules modelled here are the single-escaped patterns that
 * the comments at lines 8, 13 and 38 describe.
 * Line 10 calls `this.escapeAttr`, which `ChemHandler` does not define; the
 * model uses `MathHandler.escapeAttr` (js/libs/math-handler.js:54-56) there.
 */
module Chem {
  import opened Strings
  import opened Scanner
  import MathBlocks

  // ---------------------------------------------------------- isChemFormula

  /** The end of the element symbol starting at index i: an uppercase letter
      and at most one lowercase letter after it. */
  function SymEnd(s: string, i: nat): (e: nat)
    requires i < |s|
    ensures i + 1 <= e <= i + 2 && e <= |s|
  {
    if i + 1 < |s| && IsLower(s[i + 1]) then i + 2 else i + 1
  }

  /** `([0-9]+[A-Z][a-z]?)*[0-9]*$` from index i: either only digits remain, or
      a non-empty digit run is followed by another element symbol. Each choice
      of the pattern is forced (a shorter digit run or a skipped lowercase
      letter could not be followed by what the pattern needs next). */
  predicate Tail(s: string, i: nat)
    requires 0 < i <= |s|
    decreases |s| - i
  {
    var d := SpanEnd(s, i, IsDigit);
    d == |s| || (d > i && IsUpper(s[d]) && Tail(s, SymEnd(s, d)))
  }

  /** js/libs/chem-handler.js:32-35: `^[A-Z][a-z]?([0-9]+[A-Z][a-z]?)*[0-9]*$`. */
  predicate IsChemFormula(s: string)
  {
    |s| > 0 && IsUpper(s[0]) && Tail(s, SymEnd(s, 0))
  }

  /** The characterisation by positions: a digit anywhere, an uppercase letter
      at the start or right after a digit, a lowercase letter right after an
      uppercase one. */
  predicate Valid(s: string, k: nat)
    requires k < |s|
  {
    IsDigit(s[k]) || (IsUpper(s[k]) && (k == 0 || IsDigit(s[k - 1]))) ||
    (IsLower(s[k]) && k > 0 && IsUpper(s[k - 1]))
  }

  lemma {:induction false} TailIff(s: string, i: nat)
    requires 0 < i <= |s| && (IsUpper(s[i - 1]) || IsLower(s[i - 1]))
    requires IsUpper(s[i - 1]) ==> i == |s| || !IsLower(s[i])
    ensures Tail(s, i) <==> forall k :: i <= k < |s| ==> Valid(s, k)
    decreases |s| - i
  {
    var d := SpanEnd(s, i, IsDigit);
    assert forall k :: i <= k < d ==> Valid(s, k);
    if d == |s| {
    } else if d > i && IsUpper(s[d]) {
      var j := SymEnd(s, d);
      assert Valid(s, d);
      if j == d + 2 { assert Valid(s, d + 1); }
      TailIff(s, j);
    } else {
      assert !Valid(s, d);
    }
  }

  /** `isChemFormula` holds exactly for the texts described by Valid that start
      with an uppercase letter. */
  lemma ChemIff(s: string)
    ensures IsChemFormula(s) <==> |s| > 0 && IsUpper(s[0]) && forall k :: 0 <= k < |s| ==> Valid(s, k)
  {
    if |s| > 0 && IsUpper(s[0]) {
      var e := SymEnd(s, 0);
      assert Valid(s, 0);
      if e == 2 { assert Valid(s, 1); }
      TailIff(s, e);
    }
  }

  /** The first example of js/libs/chem-handler.js:81 is accepted. */
  lemma WaterIsFormula()
    ensures IsChemFormula("H2O")
  {
    var s := "H2O";
    assert SymEnd(s, 0) == 1;
    SpanEndAt(s, 1, 2, IsDigit);
    assert SymEnd(s, 2) == 3;
    SpanEndAt(s, 3, 3, IsDigit);
  }

  /** A word is not a formula: the `m` of `Home` follows a lowercase letter. */
  lemma HomeIsNotFormula()
    ensures !IsChemFormula("Home")
  {
    assert !Valid("Home", 2);
    ChemIff("Home");
  }

  /** Every symbol after the first needs digits before it, so two of the
      source's own examples (js/libs/chem-handler.js:82-83) are rejected. */
  lemma ExamplesRejected()
    ensures !IsChemFormula("CO2") && !IsChemFormula("NaCl")
  {
    assert !Valid("CO2", 1);
    ChemIff("CO2");
    assert !Valid("NaCl", 2);
    ChemIff("NaCl");
  }

  // ---------------------------------------------------------- renderFormula

  /** The subscript for a digit run, nothing for an empty one. */
  function Sub(num: string): string
  {
    if num == [] then [] else "<sub>" + num + "</sub>"
  }

  /** One round of `renderFormula` at index i: what it appends and where it
      goes on. An element symbol is copied and the digit run right after it
      wrapped in one `<sub>`; any other character is copied. */
  function PieceEnd(f: string, i: nat): (j: nat)
    requires i < |f|
    ensures i < j <= |f|
  {
    if IsUpper(f[i]) then SpanEnd(f, SymEnd(f, i), IsDigit) else i + 1
  }

  function PieceText(f: string, i: nat): string
    requires i < |f|
  {
    if IsUpper(f[i]) then
      var e := SymEnd(f, i);
      f[i..e] + Sub(f[e..PieceEnd(f, i)])
    else [f[i]]
  }

  /** What `renderFormula` produces from index i on. */
  function RenderFrom(f: string, i: nat): string
    decreases |f| - i
  {
    if i >= |f| then [] else PieceText(f, i) + RenderFrom(f, PieceEnd(f, i))
  }

  /** js/libs/chem-handler.js:42-77. The outer loop ends because i grows on
      every round; `num` collects the digit run after a symbol. */
  method RenderFormula(formula: string) returns (result: string)
    ensures result == RenderFrom(formula, 0)
  {
    result := "";
    var i: nat := 0;
    while i < |formula|
      invariant i <= |formula|
      invariant result + RenderFrom(formula, i) == RenderFrom(formula, 0)
      decreases |formula| - i
    {
      var c := formula[i];
      ghost var i0, r0 := i, result;
      if IsUpper(c) {
        result := result + [c];
        i := i + 1;
        if i < |formula| && IsLower(formula[i]) {
          result := result + [formula[i]];
          i := i + 1;
        }
        ghost var e := i;
        var num;
        num, i := DigitRun(formula, i);
        ghost var r1 := result;
        if num != "" {
          result := result + "<sub>" + num + "</sub>";
        }
        SymbolPiece(formula, i0, e, i, r0, r1, num, result);
      } else {
        result := result + [c];
        i := i + 1;
      }
      RenderStep(formula, i0, r0, result, i);
    }
  }

  /** The inner loop of js/libs/chem-handler.js:61-64: the digits from e on,
      collected one at a time, and the index after the last one. */
  method DigitRun(formula: string, e: nat) returns (num: string, i: nat)
    requires e <= |formula|
    ensures e <= i <= |formula| && num == formula[e..i]
    ensures forall k :: e <= k < i ==> IsDigit(formula[k])
    ensures i == |formula| || !IsDigit(formula[i])
  {
    num := "";
    i := e;
    while i < |formula| && IsDigit(formula[i])
      invariant e <= i <= |formula|
      invariant num == formula[e..i]
      invariant forall k :: e <= k < i ==> IsDigit(formula[k])
      decreases |formula| - i
    {
      DigitsGrow(formula, e, i, num);
      num := num + [formula[i]];
      i := i + 1;
    }
  }

  /** The digit run grows by the digit at i. */
  lemma DigitsGrow(f: string, e: nat, i: nat, num: string)
    requires e <= i < |f| && IsDigit(f[i]) && num == f[e..i]
    requires forall k :: e <= k < i ==> IsDigit(f[k])
    ensures forall k :: e <= k < i + 1 ==> IsDigit(f[k])
    ensures num + [f[i]] == f[e..i + 1]
  {
    SliceSnoc(f, e, i);
  }

  /** The outer loop's invariant survives a round that appends the piece. */
  lemma RenderStep(f: string, i0: nat, r0: string, r1: string, i1: nat)
    requires i0 < |f| && r1 == r0 + PieceText(f, i0) && i1 == PieceEnd(f, i0)
    requires r0 + RenderFrom(f, i0) == RenderFrom(f, 0)
    ensures r1 + RenderFrom(f, i1) == RenderFrom(f, 0)
  {
    var rest := RenderFrom(f, i1);
    assert RenderFrom(f, i0) == PieceText(f, i0) + rest;
    SeqAssoc(r0, PieceText(f, i0), rest);
  }

  /** The symbol branch of the loop appends the piece at i0. */
  lemma SymbolPiece(f: string, i0: nat, e: nat, d: nat, r0: string, r1: string, num: string, r2: string)
    requires i0 < |f| && IsUpper(f[i0]) && e == SymEnd(f, i0) && e <= d <= |f|
    requires r1 == r0 + [f[i0]] + (if e == i0 + 2 then [f[i0 + 1]] else [])
    requires num == f[e..d]
    requires forall k :: e <= k < d ==> IsDigit(f[k])
    requires d == |f| || !IsDigit(f[d])
    requires r2 == (if num != "" then r1 + "<sub>" + num + "</sub>" else r1)
    ensures r2 == r0 + PieceText(f, i0) && d == PieceEnd(f, i0)
  {
    PieceSymbol(f, i0, e, d);
    var sym := f[i0..e];
    var tail := if e == i0 + 2 then [f[i0 + 1]] else [];
    assert sym == [f[i0]] + tail;
    SeqAssoc(r0, [f[i0]], tail);
    if num != "" {
      Cat4(r1, "<sub>", num, "</sub>");
      assert Sub(num) == "<sub>" + num + "</sub>";
    } else {
      assert r1 + Sub(num) == r1;
    }
    SeqAssoc(r0, sym, Sub(num));
  }

  /** The piece at an index that is not an uppercase letter. */
  lemma PieceOther(f: string, i: nat)
    requires i < |f| && !IsUpper(f[i])
    ensures PieceText(f, i) == [f[i]] && PieceEnd(f, i) == i + 1
  {
  }

  /** The piece at an uppercase letter whose symbol ends at e and whose digit
      run ends at d. */
  lemma PieceSymbol(f: string, i: nat, e: nat, d: nat)
    requires i < |f| && IsUpper(f[i]) && e == SymEnd(f, i) && e <= d <= |f|
    requires forall k :: e <= k < d ==> IsDigit(f[k])
    requires d == |f| || !IsDigit(f[d])
    ensures PieceText(f, i) == f[i..e] + Sub(f[e..d]) && PieceEnd(f, i) == d
  {
    SpanEndAt(f, e, d, IsDigit);
  }

  /** The `<sub>` and `</sub>` tags removed. */
  function Strip(s: string): string
    decreases |s|
  {
    if s == [] then []
    else if StartsWith(s, "<sub>") then Strip(s[5..])
    else if StartsWith(s, "</sub>") then Strip(s[6..])
    else [s[0]] + Strip(s[1..])
  }

  lemma {:induction false} StripFront(x: string, y: string)
    requires '<' !in x
    ensures Strip(x + y) == x + Strip(y)
    decreases |x|
  {
    if x != [] {
      var s := x + y;
      assert s[0] == x[0] && s[1..] == x[1..] + y;
      assert !StartsWith(s, "<sub>") && !StartsWith(s, "</sub>");
      StripFront(x[1..], y);
    } else {
      assert x + y == y;
    }
  }

  lemma StripSub(num: string, y: string)
    requires '<' !in num
    ensures Strip(Sub(num) + y) == num + Strip(y)
  {
    if num != [] {
      var o, c := "<sub>", "</sub>";
      var t := c + y;
      Cat4([], o, num, c);
      SeqAssoc(o + num, c, y);
      SeqAssoc(o, num, t);
      assert Sub(num) + y == o + (num + t);
      PrefixDrop(o, num + t);
      StripFront(num, t);
      PrefixDrop(c, y);
      assert t[1] == '/';
      assert !StartsWith(t, o);
      assert Strip(t) == Strip(y);
    } else {
      assert Sub(num) + y == y;
    }
  }

  /** Taking the tags out of one piece gives back what it consumed. */
  lemma StripPiece(f: string, i: nat, y: string)
    requires '<' !in f && i < |f|
    ensures Strip(PieceText(f, i) + y) == f[i..PieceEnd(f, i)] + Strip(y)
  {
    if IsUpper(f[i]) {
      var e := SymEnd(f, i);
      var d := SpanEnd(f, e, IsDigit);
      PieceSymbol(f, i, e, d);
      var sym, num := f[i..e], f[e..d];
      assert '<' !in sym && '<' !in num;
      StripSub(num, y);
      StripFront(sym, Sub(num) + y);
      SeqAssoc(sym, Sub(num), y);
      SliceSplit(f, i, e, d);
      SeqAssoc(sym, num, Strip(y));
    } else {
      PieceOther(f, i);
      StripFront([f[i]], y);
      assert f[i..i + 1] == [f[i]];
    }
  }

  /** Taking the tags out of the rendering gives back the formula. */
  lemma {:induction false} StripRender(f: string, i: nat)
    requires '<' !in f && i <= |f|
    ensures Strip(RenderFrom(f, i)) == f[i..]
    decreases |f| - i
  {
    if i < |f| {
      var j := PieceEnd(f, i);
      StripRender(f, j);
      StripPiece(f, i, RenderFrom(f, j));
      DropSplit(f, i, j);
    }
  }

  /** The round trip of the rendering, for a formula without `<`. */
  lemma RenderRoundTrip(f: string)
    requires '<' !in f
    ensures Strip(RenderFrom(f, 0)) == f
  {
    StripRender(f, 0);
  }

  /** A formula without digits is rendered as it is. */
  lemma {:induction false} RenderNoDigits(f: string, i: nat)
    requires i <= |f| && forall k :: 0 <= k < |f| ==> !IsDigit(f[k])
    ensures RenderFrom(f, i) == f[i..]
    decreases |f| - i
  {
    if i < |f| {
      var j := PieceEnd(f, i);
      if IsUpper(f[i]) {
        PieceSymbol(f, i, SymEnd(f, i), SymEnd(f, i));
        assert PieceText(f, i) == f[i..j];
      } else {
        PieceOther(f, i);
        assert PieceText(f, i) == f[i..j];
      }
      RenderNoDigits(f, j);
      DropSplit(f, i, j);
    }
  }

  /** Without uppercase letters nothing is a symbol, so digits too are copied. */
  lemma {:induction false} RenderNoSymbols(f: string, i: nat)
    requires i <= |f| && forall k :: 0 <= k < |f| ==> !IsUpper(f[k])
    ensures RenderFrom(f, i) == f[i..]
    decreases |f| - i
  {
    if i < |f| {
      PieceOther(f, i);
      RenderNoSymbols(f, i + 1);
      DropSplit(f, i, i + 1);
      assert f[i..i + 1] == [f[i]];
    }
  }

  /** Two texts that agree from a and from i on have the same piece there. */
  lemma PieceTransfer(f: string, g: string, a: nat, i: nat)
    requires a < |f| && i < |g| && f[a..] == g[i..]
    ensures PieceText(f, a) == PieceText(g, i) && PieceEnd(f, a) - a == PieceEnd(g, i) - i
  {
    assert f[a] == f[a..][0] == g[i];
    if IsUpper(g[i]) {
      assert a + 1 < |f| ==> f[a + 1] == f[a..][1] == g[i + 1];
      var e, e' := SymEnd(f, a), SymEnd(g, i);
      assert e - a == e' - i;
      SpanTransfer(f, g, e, e', IsDigit);
      var d, d' := PieceEnd(f, a), PieceEnd(g, i);
      var sym, num := f[a..e], f[e..d];
      SliceTransfer(f, g, a, i, a, e, i, e');
      SliceTransfer(f, g, a, i, e, d, e', d');
      SymText(f, a, e, d);
      SymText(g, i, e', d');
      assert PieceText(g, i) == sym + Sub(num);
    } else {
      assert PieceText(f, a) == [g[i]];
    }
  }

  lemma SymText(f: string, i: nat, e: nat, d: nat)
    requires i < |f| && IsUpper(f[i]) && e == SymEnd(f, i) && d == PieceEnd(f, i)
    ensures PieceText(f, i) == f[i..e] + Sub(f[e..d])
  {
  }

  lemma SliceOfDrop(f: string, a: nat, j: nat, k: nat)
    requires a <= j <= k <= |f|
    ensures f[j..k] == f[a..][j - a..k - a]
  {
  }

  lemma SliceTransfer(f: string, g: string, a: nat, i: nat, j: nat, k: nat, j': nat, k': nat)
    requires a <= |f| && i <= |g| && f[a..] == g[i..] && a <= j <= k <= |f|
    requires j' == i + (j - a) && k' == i + (k - a)
    ensures k' <= |g| && f[j..k] == g[j'..k']
  {
    SliceOfDrop(f, a, j, k);
    assert |f[a..]| == |g[i..]|;
    SliceOfDrop(g, i, j', k');
  }

  /** The rendering from an index only looks at the text from there on. */
  lemma {:induction false} RenderTransfer(f: string, g: string, a: nat, i: nat)
    requires a <= |f| && i <= |g| && f[a..] == g[i..]
    ensures RenderFrom(f, a) == RenderFrom(g, i)
    decreases |f| - a
  {
    if a < |f| {
      assert i < |g| by { assert |f[a..]| == |g[i..]|; }
      PieceTransfer(f, g, a, i);
      var d, d' := PieceEnd(f, a), PieceEnd(g, i);
      assert f[d..] == f[a..][d - a..] == g[i..][d' - i..] == g[d'..];
      RenderTransfer(f, g, d, d');
    }
  }

  /** An element symbol with the maximal digit run after it: the symbol is
      copied and the run wrapped in one `<sub>`. */
  lemma RenderSymbol(sym: string, num: string, z: string)
    requires (|sym| == 1 || (|sym| == 2 && IsLower(sym[1]))) && IsUpper(sym[0])
    requires |sym| == 1 && num == [] ==> z == [] || !IsLower(z[0])
    requires forall k :: 0 <= k < |num| ==> IsDigit(num[k])
    requires z == [] || !IsDigit(z[0])
    ensures RenderFrom(sym + num + z, 0) == sym + Sub(num) + RenderFrom(z, 0)
  {
    var f := sym + num + z;
    assert forall k :: 0 <= k < |sym| ==> f[k] == sym[k];
    assert forall k :: 0 <= k < |num| ==> f[|sym| + k] == num[k];
    assert |sym| == 1 ==> |f| == 1 || !IsLower(f[1]);
    assert SymEnd(f, 0) == |sym|;
    PieceSymbol(f, 0, |sym|, |sym| + |num|);
    assert f[0..|sym|] == sym && f[|sym|..|sym| + |num|] == num;
    DropCat(sym + num, z, |sym| + |num|);
    RenderTransfer(f, z, |sym| + |num|, 0);
  }

  // ---------------------------------------------------------- formatFormula

  function DigitsMatch(t: string): Step
  {
    if t != [] && IsDigit(t[0]) then
      var n := SpanEnd(t, 0, IsDigit);
      Match(n, "<sub>" + t[..n] + "</sub>")
    else Miss
  }

  function DigitsM(): Matcher
  {
    (t: string, bol: bool) => DigitsMatch(t)
  }

  /** js/libs/chem-handler.js:37-40: every maximal digit run in `<sub>`. */
  function FormatFormula(formula: string): string
  {
    Apply(formula, DigitsM(), true)
  }

  lemma DigitsHitAt(t: string, b: bool)
    ensures Hits(t, DigitsM(), b) ==> IsDigit(t[0])
  {
  }

  /** Without digits the replace changes nothing. */
  lemma FormatNoDigits(f: string, b: bool)
    requires forall k :: 0 <= k < |f| ==> !IsDigit(f[k])
    ensures Apply(f, DigitsM(), b) == f
  {
    forall k | 0 <= k < |f| ensures !Hits(f[k..], DigitsM(), BolAt(f, k, b)) {
      DigitsHitAt(f[k..], BolAt(f, k, b));
    }
    ApplyNoMatch(f, DigitsM(), b);
  }

  /** After a stretch without digits, a maximal digit run is wrapped whole. */
  lemma FormatRun(a: string, num: string, z: string, b: bool)
    requires forall k :: 0 <= k < |a| ==> !IsDigit(a[k])
    requires num != [] && forall k :: 0 <= k < |num| ==> IsDigit(num[k])
    requires z == [] || !IsDigit(z[0])
    ensures Apply(a + (num + z), DigitsM(), b) == a + ("<sub>" + num + "</sub>") + Apply(z, DigitsM(), After(num[|num| - 1]))
  {
    var t := num + z;
    assert forall k :: 0 <= k < |num| ==> t[k] == num[k];
    SpanEndAt(t, 0, |num|, IsDigit);
    assert t[..|num|] == num;
    MatchOf(DigitsM()(t, BolAt(a, |a|, b)), |num|, "<sub>" + num + "</sub>");
    forall k | 0 <= k < |a| ensures !Hits((a + t)[k..], DigitsM(), BolAt(a, k, b)) {
      DigitsHitAt((a + t)[k..], BolAt(a, k, b));
      assert (a + t)[k..][0] == a[k];
    }
    ApplyHitAfter(a, num, z, DigitsM(), b, "<sub>" + num + "</sub>");
  }

  /** The replace also wraps digits that follow no element symbol, which
      `renderFormula` copies as they are. */
  lemma FormatAndRenderDiffer()
    ensures FormatFormula("2") == "<sub>2</sub>" && RenderFrom("2", 0) == "2"
  {
    FormatRun([], "2", [], true);
    assert [] + ("2" + []) == "2";
    RenderNoSymbols("2", 0);
  }

  // ---------------------------------------------------------- processBlocks

  /** The case-insensitive test of the `i` flag for an ASCII pattern p given in
      lower case. */
  predicate HasAtCI(t: string, k: nat, p: string)
  {
    k + |p| <= |t| && ToLower(t[k..k + |p|]) == p
  }

  /** The lazy `(.*?)` followed by `[/CHEM]`: the first closing tag from k on,
      provided no line terminator comes before it. */
  function CloseChem(t: string, k: nat): (r: Option<nat>)
    requires k <= |t|
    ensures r.Some? ==> k <= r.value && HasAtCI(t, r.value, "[/chem]")
    ensures r.Some? ==> forall j :: k <= j < r.value ==> !IsLineTerminator(t[j]) && !HasAtCI(t, j, "[/chem]")
    decreases |t| - k
  {
    if HasAtCI(t, k, "[/chem]") then Some(k)
    else if k < |t| && !IsLineTerminator(t[k]) then CloseChem(t, k + 1)
    else None
  }

  /** The marker of js/libs/chem-handler.js:10, with a leading space. */
  function BlockHtml(c: string): string
  {
    " <div class=\"chem-formula\" data-formula=\"" + MathBlocks.EscapeAttr(c) + "\"></div>"
  }

  /** js/libs/chem-handler.js:9: `\[CHEM\](.*?)\[\/CHEM\]` with flags `gi`. */
  function BlockMatch(t: string): Step
  {
    if HasAtCI(t, 0, "[chem]") then
      match CloseChem(t, 6)
      case Some(k) => Match(k + 7, BlockHtml(t[6..k]))
      case None => Miss
    else Miss
  }

  function BlockM(): Matcher
  {
    (t: string, bol: bool) => BlockMatch(t)
  }

  predicate ChemClass(c: char) { IsUpper(c) || IsLower(c) || IsDigit(c) || c == '(' || c == ')' }

  /** The marker of js/libs/chem-handler.js:16. */
  function ChemSpan(c: string): string
  {
    "<span class=\"chem-inline\" data-formula=\"" + c + "\">" + FormatFormula(c) + "</span>"
  }

  /** js/libs/chem-handler.js:14-19: `\[([A-Za-z0-9()]+)\]`; the callback gives
      the span for a formula and the match itself otherwise. */
  function BracketMatch(t: string): Step
  {
    if t != [] && t[0] == '[' then
      var j := SpanEnd(t, 1, ChemClass);
      if j > 1 && j < |t| && t[j] == ']' then
        Match(j + 1, if IsChemFormula(t[1..j]) then ChemSpan(t[1..j]) else t[..j + 1])
      else Miss
    else Miss
  }

  function BracketM(): Matcher
  {
    (t: string, bol: bool) => BracketMatch(t)
  }

  /** js/libs/chem-handler.js:7-22: blocks, then bare brackets. */
  function ProcessBlocks(html: string): string
  {
    Apply(Apply(html, BlockM(), true), BracketM(), true)
  }

  /** The block group holds no line terminator and no closing tag. */
  lemma BlockShape(t: string)
    requires HasAtCI(t, 0, "[chem]") && CloseChem(t, 6).Some?
    ensures var k := CloseChem(t, 6).value;
      forall j :: 6 <= j < k ==> !IsLineTerminator(t[j]) && !HasAtCI(t, j, "[/chem]")
  {
  }

  /** A `[CHEM]` with no closing tag on its line is left alone. */
  lemma {:induction false} CloseChemNone(t: string, k: nat)
    requires k <= |t|
    requires forall j :: k <= j < |t| ==> t[j] != '['
    ensures CloseChem(t, k).None?
    decreases |t| - k
  {
    if k < |t| && !IsLineTerminator(t[k]) { CloseChemNone(t, k + 1); }
  }

  /** ToLower on a slice is ToLower of the slice's characters. */
  lemma HasAtCIOf(t: string, k: nat, o: string)
    requires k + |o| <= |t| && t[k..k + |o|] == o
    ensures HasAtCI(t, k, ToLower(o))
  {
  }

  /** The group runs to the closing tag when it holds no `[` and no line
      terminator. */
  lemma {:induction false} CloseChemAt(t: string, k: nat, m: nat)
    requires k <= m <= |t| && HasAtCI(t, m, "[/chem]")
    requires forall j :: k <= j < m ==> t[j] != '[' && !IsLineTerminator(t[j])
    ensures CloseChem(t, k) == Some(m)
    decreases m - k
  {
    if k < m {
      assert ToLower(t[k..k + 7])[0] == ToLowerChar(t[k]) != '[';
      CloseChemAt(t, k + 1, m);
    }
  }

  /** `[CHEM]c[/CHEM]`, in any letter case, becomes the block marker of c. */
  lemma BlockAt(o: string, c: string, q: string, z: string)
    requires |o| == 6 && ToLower(o) == "[chem]" && |q| == 7 && ToLower(q) == "[/chem]"
    requires forall j :: 0 <= j < |c| ==> c[j] != '[' && !IsLineTerminator(c[j])
    ensures BlockMatch(o + c + q + z) == Match(|c| + 13, BlockHtml(c))
  {
    var t := o + c + q + z;
    assert t[0..6] == o;
    HasAtCIOf(t, 0, o);
    assert t[6 + |c|..6 + |c| + 7] == q;
    HasAtCIOf(t, 6 + |c|, q);
    assert forall j :: 6 <= j < 6 + |c| ==> t[j] == c[j - 6];
    CloseChemAt(t, 6, 6 + |c|);
    assert t[6..6 + |c|] == c;
  }

  lemma BracketHitAt(t: string, b: bool)
    ensures Hits(t, BracketM(), b) ==> t[0] == '['
  {
  }

  lemma BracketOnlyAtOpen()
    ensures forall t: string, b: bool :: Hits(t, BracketM(), b) ==> t[0] == '['
  {
    forall t: string, b: bool | Hits(t, BracketM(), b) ensures t[0] == '[' { BracketHitAt(t, b); }
  }

  /** `[c]` at the start of a text, for a non-empty c of the class, is a match
      whose replacement is the span when c is a formula and `[c]` otherwise. */
  lemma BracketAt(c: string, z: string)
    requires c != [] && forall j :: 0 <= j < |c| ==> ChemClass(c[j])
    ensures BracketMatch("[" + c + "]" + z) ==
      Match(|c| + 2, if IsChemFormula(c) then ChemSpan(c) else "[" + c + "]")
  {
    var t := "[" + c + "]" + z;
    assert forall j :: 1 <= j < 1 + |c| ==> t[j] == c[j - 1];
    assert t[1 + |c|] == ']' && !ChemClass(']');
    SpanEndAt(t, 1, 1 + |c|, ChemClass);
    assert t[1..1 + |c|] == c && t[..|c| + 2] == "[" + c + "]";
  }

  /** In a text, bare `[c]` after a stretch without `[` is replaced only when
      c is a formula; otherwise the matched text is put back as it was. */
  lemma BracketInText(a: string, c: string, z: string, b: bool)
    requires '[' !in a && c != [] && forall j :: 0 <= j < |c| ==> ChemClass(c[j])
    ensures Apply(a + ("[" + c + "]") + z, BracketM(), b) ==
      a + (if IsChemFormula(c) then ChemSpan(c) else "[" + c + "]") + Apply(z, BracketM(), false)
  {
    var w := "[" + c + "]";
    var h := if IsChemFormula(c) then ChemSpan(c) else "[" + c + "]";
    assert w + z == "[" + c + "]" + z;
    BracketAt(c, z);
    MatchOf(BracketM()(w + z, BolAt(a, |a|, b)), |w|, h);
    BracketOnlyAtOpen();
    ApplyHitAfterWithout(a, w, z, BracketM(), b, '[', h);
  }

  /** The block rule matches only where `[` starts: `[chem]` in any case. */
  lemma BlockOnlyAtOpen()
    ensures forall t: string, b: bool :: Hits(t, BlockM(), b) ==> t[0] == '['
  {
    forall t: string, b: bool | Hits(t, BlockM(), b) ensures t[0] == '[' {
      assert ToLower(t[0..6])[0] == '[';
      assert ToLowerChar(t[0]) == '[';
    }
  }

  /** A text without `[` passes both rules unchanged. */
  lemma NoBracketUnchanged(html: string)
    requires '[' !in html
    ensures ProcessBlocks(html) == html
  {
    BlockOnlyAtOpen();
    ApplyWithout(html, BlockM(), true, '[');
    BracketOnlyAtOpen();
    ApplyWithout(html, BracketM(), true, '[');
  }
}
