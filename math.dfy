/**
 * `MathHandler.processBlocks` and `escapeAttr` (js/libs/math-handler.js): a
 * display rule for `$$...$$` and then an inline rule for `$...$`, each a global
 * replace whose callback builds a KaTeX marker element holding the formula in
 * a `data-math` attribute and, as its body, the formula in its delimiters.
 *
 * Lines 10 and 15 of the source put a backslash in front of each template
 * literal, outside any literal, which is a syntax error: the file does not load
 * and `MathHandler` is never defined. The patterns of lines 9 and 14 are
 * correct. The markers modelled here are the templates lines 10 and 15 spell
 * once the stray backslashes are dropped, as the comments at lines 8 and 13 say.
 */
module MathBlocks {
  import opened Strings
  import opened Scanner

  // ------------------------------------------------------------- escapeAttr

  /** `s.replace(/c/g, rep)` for a single character c and a replacement without `$`. */
  function ReplaceAll(s: string, c: char, rep: string): (r: string)
    decreases |s|
  {
    if s == [] then [] else (if s[0] == c then rep else [s[0]]) + ReplaceAll(s[1..], c, rep)
  }

  /** js/libs/math-handler.js:54-56: `"` then `'`, each replaced everywhere. */
  function EscapeAttr(s: string): string
  {
    ReplaceAll(ReplaceAll(s, '"', "&quot;"), '\'', "&#39;")
  }

  /** What one character becomes. */
  function AttrChar(c: char): (r: string)
  {
    if c == '"' then "&quot;" else if c == '\'' then "&#39;" else [c]
  }

  /** The reference definition: each character escaped on its own. */
  function AttrOf(s: string): string
    decreases |s|
  {
    if s == [] then [] else AttrChar(s[0]) + AttrOf(s[1..])
  }

  lemma {:induction false} ReplaceAllAppend(a: string, b: string, c: char, rep: string)
    ensures ReplaceAll(a + b, c, rep) == ReplaceAll(a, c, rep) + ReplaceAll(b, c, rep)
    decreases |a|
  {
    if a == [] {
      assert a + b == b;
    } else {
      assert (a + b)[1..] == a[1..] + b;
      ReplaceAllAppend(a[1..], b, c, rep);
    }
  }

  /** A replacement only puts rep where c was and keeps every other character. */
  lemma ReplaceAllAbsent(s: string, c: char, rep: string)
    requires c !in s
    ensures ReplaceAll(s, c, rep) == s
  {
    if s != [] { ReplaceAllAbsent(s[1..], c, rep); }
  }

  lemma {:induction false} ReplaceAllKeeps(s: string, c: char, rep: string, d: char)
    requires d !in s && d !in rep
    ensures d !in ReplaceAll(s, c, rep)
    decreases |s|
  {
    if s != [] { ReplaceAllKeeps(s[1..], c, rep, d); }
  }

  lemma AttrCharOf(c: char)
    ensures EscapeAttr([c]) == AttrChar(c)
  {
    var r1 := ReplaceAll([c], '"', "&quot;");
    assert ReplaceAll([c][1..], '"', "&quot;") == [];
    if c == '"' {
      assert r1 == "&quot;";
      ReplaceAllAbsent("&quot;", '\'', "&#39;");
    } else {
      assert r1 == [c];
      assert ReplaceAll([c][1..], '\'', "&#39;") == [];
    }
  }

  lemma EscapeAttrAppend(a: string, b: string)
    ensures EscapeAttr(a + b) == EscapeAttr(a) + EscapeAttr(b)
  {
    ReplaceAllAppend(a, b, '"', "&quot;");
    ReplaceAllAppend(ReplaceAll(a, '"', "&quot;"), ReplaceAll(b, '"', "&quot;"), '\'', "&#39;");
  }

  /** `escapeAttr` replaces every `"` by `&quot;` and every `'` by `&#39;` and
      leaves every other character as it is. */
  lemma {:induction false} EscapeAttrIsMap(s: string)
    ensures EscapeAttr(s) == AttrOf(s)
    decreases |s|
  {
    if s == [] {
    } else {
      assert s == [s[0]] + s[1..];
      EscapeAttrAppend([s[0]], s[1..]);
      AttrCharOf(s[0]);
      EscapeAttrIsMap(s[1..]);
    }
  }

  /** No quote of either kind survives. */
  lemma EscapeAttrNoQuotes(s: string)
    ensures '"' !in EscapeAttr(s) && '\'' !in EscapeAttr(s)
  {
    var r1 := ReplaceAll(s, '"', "&quot;");
    ReplaceAllNoTarget(s, '"', "&quot;");
    ReplaceAllKeeps(r1, '\'', "&#39;", '"');
    ReplaceAllNoTarget(r1, '\'', "&#39;");
  }

  lemma {:induction false} ReplaceAllNoTarget(s: string, c: char, rep: string)
    requires c !in rep
    ensures c !in ReplaceAll(s, c, rep)
    decreases |s|
  {
    if s != [] { ReplaceAllNoTarget(s[1..], c, rep); }
  }

  /** A text without quotes is its own escape, */
  lemma EscapeAttrPlain(s: string)
    requires '"' !in s && '\'' !in s
    ensures EscapeAttr(s) == s
  {
    ReplaceAllAbsent(s, '"', "&quot;");
    ReplaceAllAbsent(s, '\'', "&#39;");
  }

  /** so escaping twice is escaping once. */
  lemma EscapeAttrIdempotent(s: string)
    ensures EscapeAttr(EscapeAttr(s)) == EscapeAttr(s)
  {
    EscapeAttrNoQuotes(s);
    EscapeAttrPlain(EscapeAttr(s));
  }

  /** Escaping adds no `$`. */
  lemma EscapeAttrNoDollar(s: string)
    requires '$' !in s
    ensures '$' !in EscapeAttr(s)
  {
    ReplaceAllKeeps(s, '"', "&quot;", '$');
    ReplaceAllKeeps(ReplaceAll(s, '"', "&quot;"), '\'', "&#39;", '$');
  }

  // ---------------------------------------------------------- display rule

  predicate NotDollar(c: char) { c != '$' }

  /** `\$\$([^$]+)\$\$` at the start of t: the length of the group. `[^$]+` is
      followed by `$`, so only its longest run can be the group. */
  function DisplayAt(t: string): (r: Option<nat>)
    ensures r.Some? ==> 0 < r.value && r.value + 4 <= |t|
  {
    if 2 <= |t| && t[0] == '$' && t[1] == '$' then
      var j := SpanEnd(t, 2, NotDollar);
      if j > 2 && j + 1 < |t| && t[j + 1] == '$' then Some(j - 2) else None
    else None
  }

  /** The marker of js/libs/math-handler.js:10. */
  function DisplayHtml(c: string): string
  {
    "<div class=\"math-display\" data-math=\"" + EscapeAttr(c) + "\">" + "$$" + c + "$$" + "</div>"
  }

  function DisplayMatch(t: string): Step
  {
    match DisplayAt(t)
    case Some(n) => Match(n + 4, DisplayHtml(t[2..2 + n]))
    case None => Miss
  }

  function DisplayM(): Matcher
  {
    (t: string, bol: bool) => DisplayMatch(t)
  }

  /** js/libs/math-handler.js:9-11. */
  function DisplayPass(s: string): string
  {
    Apply(s, DisplayM(), true)
  }

  /** A display match spans `$$`, a non-empty group without `$`, and `$$`. */
  lemma DisplayShape(t: string)
    requires DisplayAt(t).Some?
    ensures var n := DisplayAt(t).value;
      t[..n + 4] == "$$" + t[2..2 + n] + "$$" && '$' !in t[2..2 + n]
  {
    var n := DisplayAt(t).value;
    var c := t[2..2 + n];
    assert forall k :: 0 <= k < |c| ==> c[k] == t[2 + k];
    assert t[..n + 4] == "$$" + c + "$$";
  }

  /** `$$c$$` at the start of a text is a display match with group c. */
  lemma DisplayAtOf(c: string, z: string)
    requires c != [] && '$' !in c
    ensures DisplayMatch("$$" + c + "$$" + z) == Match(|c| + 4, DisplayHtml(c))
  {
    var t := "$$" + c + "$$" + z;
    assert forall k :: 2 <= k < 2 + |c| ==> t[k] == c[k - 2];
    assert t[2 + |c|] == '$' && t[3 + |c|] == '$';
    SpanEndAt(t, 2, 2 + |c|, NotDollar);
    assert t[2..2 + |c|] == c;
  }

  lemma DisplayHitsAt(t: string, b: bool)
    requires Hits(t, DisplayM(), b)
    ensures t[0] == '$'
  {
  }

  lemma DisplayOnlyAtDollar()
    ensures forall t: string, b: bool :: Hits(t, DisplayM(), b) ==> t[0] == '$'
  {
    forall t: string, b: bool | Hits(t, DisplayM(), b) ensures t[0] == '$' { DisplayHitsAt(t, b); }
  }

  /** In a text, `$$c$$` after a stretch without `$` becomes the display marker
      of c, whose attribute is the escaped c and whose body is `$$c$$` again. */
  lemma DisplayInText(a: string, c: string, z: string)
    requires '$' !in a && c != [] && '$' !in c
    ensures DisplayPass(a + ("$$" + c + "$$") + z) == a + DisplayHtml(c) + Apply(z, DisplayM(), false)
  {
    var w := "$$" + c + "$$";
    assert w + z == "$$" + c + "$$" + z;
    DisplayAtOf(c, z);
    MatchOf(DisplayM()(w + z, BolAt(a, |a|, true)), |w|, DisplayHtml(c));
    DisplayOnlyAtDollar();
    ApplyHitAfterWithout(a, w, z, DisplayM(), true, '$', DisplayHtml(c));
  }

  /** A text without `$` passes the display rule unchanged. */
  lemma DisplayNoDollar(s: string, b: bool)
    requires '$' !in s
    ensures Apply(s, DisplayM(), b) == s
  {
    DisplayOnlyAtDollar();
    ApplyWithout(s, DisplayM(), b, '$');
  }

  // ----------------------------------------------------------- inline rule

  predicate InlineChar(c: char) { c != '$' && c != '\n' }

  /** `\$([^$\n]+)\$([^$]|$)` at index k of t: the length of the group and of
      the character taken after the closing `$` (none at the end of the input,
      where the final `$` of the pattern holds). */
  function InlineFrom(t: string, k: nat): (r: Option<(nat, nat)>)
    requires k <= |t|
    ensures r.Some? ==> 0 < r.value.0 && r.value.1 <= 1 && k + r.value.0 + 2 + r.value.1 <= |t|
  {
    if k < |t| && t[k] == '$' then
      var j := SpanEnd(t, k + 1, InlineChar);
      if j > k + 1 && j < |t| && t[j] == '$' then
        if j + 1 == |t| then Some((j - k - 1, 0))
        else if t[j + 1] != '$' then Some((j - k - 1, 1))
        else None
      else None
    else None
  }

  /** The marker of js/libs/math-handler.js:15. */
  function InlineHtml(c: string): string
  {
    "<span class=\"math-inline\" data-math=\"" + EscapeAttr(c) + "\">" + "$" + c + "$" + "</span>"
  }

  /** The first alternative, `([^$])`, at the start of t: the character before
      the formula and the one after it are kept around the marker. */
  function InlineMatch(t: string): Step
  {
    if 1 <= |t| && t[0] != '$' then
      match InlineFrom(t, 1)
      case Some((n, a)) => Match(3 + n + a, [t[0]] + InlineHtml(t[2..2 + n]) + t[3 + n..3 + n + a])
      case None => Miss
    else Miss
  }

  function InlineM(): Matcher
  {
    (t: string, bol: bool) => InlineMatch(t)
  }

  /** The second alternative, `^`, holds only at index 0 of the input, where the
      first fails exactly when the input starts with `$`. */
  function StartMatch(s: string): Step
  {
    match InlineFrom(s, 0)
    case Some((n, a)) => Match(2 + n + a, InlineHtml(s[1..1 + n]) + s[2 + n..2 + n + a])
    case None => Miss
  }

  /** js/libs/math-handler.js:14-16. */
  function InlinePass(s: string): string
  {
    var st := StartMatch(s);
    if st.Match? && 0 < st.len <= |s| then st.rep + Apply(s[st.len..], InlineM(), After(s[st.len - 1]))
    else Apply(s, InlineM(), true)
  }

  /** js/libs/math-handler.js:7-19: the display rule, then the inline rule. */
  function ProcessBlocks(html: string): string
  {
    InlinePass(DisplayPass(html))
  }

  /** An inline group is not empty and holds neither `$` nor a newline; it sits
      between two `$`, and what follows is the end of the input or not `$`. */
  lemma InlineShape(t: string, k: nat)
    requires k <= |t| && InlineFrom(t, k).Some?
    ensures var (n, a) := InlineFrom(t, k).value;
      t[k] == '$' && t[k + 1 + n] == '$' &&
      (forall i :: k + 1 <= i < k + 1 + n ==> InlineChar(t[i])) &&
      (a == 0 ==> k + 2 + n == |t|) && (a == 1 ==> t[k + 2 + n] != '$')
  {
  }

  /** Where the first alternative matches, t starts with a character other than
      `$`, then `$` and a character of the group. */
  lemma InlineHitShape(t: string, b: bool)
    ensures Hits(t, InlineM(), b) ==> 3 <= |t| && t[0] != '$' && t[1] == '$' && InlineChar(t[2])
  {
    if Hits(t, InlineM(), b) { InlineShape(t, 1); }
  }

  /** `x$c$y` at the start of a text, with x and y other than `$`, is a match
      of the first alternative that keeps x and y around the marker of c. */
  lemma InlineAtOf(x: char, c: string, y: char, z: string)
    requires x != '$' && y != '$' && c != [] && forall i :: 0 <= i < |c| ==> InlineChar(c[i])
    ensures InlineMatch([x] + ("$" + c + "$") + [y] + z) == Match(|c| + 4, [x] + InlineHtml(c) + [y])
  {
    var t := [x] + ("$" + c + "$") + [y] + z;
    assert forall i :: 2 <= i < 2 + |c| ==> t[i] == c[i - 2];
    assert t[1] == '$' && t[2 + |c|] == '$' && t[3 + |c|] == y;
    SpanEndAt(t, 2, 2 + |c|, InlineChar);
    var one: nat := 1;
    assert InlineFrom(t, 1) == Some((|c|, one));
    assert t[2..2 + |c|] == c && t[3 + |c|..4 + |c|] == [y];
  }

  /** In a text, `x$c$y` after a stretch without `$` becomes x, the marker of c
      and y; the scan resumes after y. */
  lemma InlineInText(a: string, x: char, c: string, y: char, z: string, b: bool)
    requires '$' !in a && x != '$' && y != '$' && c != [] && forall i :: 0 <= i < |c| ==> InlineChar(c[i])
    ensures Apply(a + ([x] + ("$" + c + "$") + [y]) + z, InlineM(), b) ==
      a + ([x] + InlineHtml(c) + [y]) + Apply(z, InlineM(), After(y))
  {
    var w := [x] + ("$" + c + "$") + [y];
    var s := a + (w + z);
    assert w + z == [x] + ("$" + c + "$") + [y] + z;
    InlineAtOf(x, c, y, z);
    MatchOf(InlineM()(w + z, BolAt(a, |a|, b)), |w|, [x] + InlineHtml(c) + [y]);
    forall k | 0 <= k < |a| ensures !Hits(s[k..], InlineM(), BolAt(a, k, b)) {
      InlineHitShape(s[k..], BolAt(a, k, b));
      assert s[k + 1] == if k + 1 < |a| then a[k + 1] else x;
    }
    ApplyHitAfter(a, w, z, InlineM(), b, [x] + InlineHtml(c) + [y]);
    assert a + w + z == s;
  }

  /** A text in which no `$` follows a character other than `$` and is followed
      by a group character is left alone by the first alternative. */
  predicate NoInlineOpen(s: string)
  {
    forall k :: 0 <= k && k + 2 < |s| ==> !(s[k] != '$' && s[k + 1] == '$' && InlineChar(s[k + 2]))
  }

  lemma InlineNoOpen(s: string, b: bool)
    requires NoInlineOpen(s)
    ensures Apply(s, InlineM(), b) == s
  {
    forall k | 0 <= k < |s| ensures !Hits(s[k..], InlineM(), BolAt(s, k, b)) {
      InlineHitShape(s[k..], BolAt(s, k, b));
    }
    ApplyNoMatch(s, InlineM(), b);
  }

  /** `$c$` closing an input holds no opening for the first alternative. */
  lemma LastFormulaOpenFree(c: string)
    requires '$' !in c
    ensures NoInlineOpen("$" + c + "$")
  {
    var s := "$" + c + "$";
    forall k | 0 <= k && k + 2 < |s| ensures !(s[k] != '$' && s[k + 1] == '$' && InlineChar(s[k + 2])) {
      if k + 1 < |s| - 1 { assert s[k + 1] == c[k]; }
    }
  }

  /** js/libs/math-handler.js:14: the character after a formula is consumed, so
      in `$a$ $b$` only the first formula is marked: the scan resumes at the
      second `$`, which no character other than `$` precedes any more. */
  lemma SecondNotMarked(c1: string, sp: char, c2: string)
    requires c1 != [] && forall i :: 0 <= i < |c1| ==> InlineChar(c1[i])
    requires sp != '$' && '$' !in c2
    ensures InlinePass("$" + c1 + "$" + [sp] + ("$" + c2 + "$")) == InlineHtml(c1) + [sp] + ("$" + c2 + "$")
  {
    var w := "$" + c1 + "$" + [sp];
    var z := "$" + c2 + "$";
    var s := w + z;
    assert forall i :: 1 <= i < 1 + |c1| ==> s[i] == c1[i - 1];
    assert s[1 + |c1|] == '$' && s[2 + |c1|] == sp;
    SpanEndAt(s, 1, 1 + |c1|, InlineChar);
    var one: nat := 1;
    assert InlineFrom(s, 0) == Some((|c1|, one));
    assert s[1..1 + |c1|] == c1 && s[2 + |c1|..3 + |c1|] == [sp];
    assert s[|w|..] == z && s[|w| - 1] == sp;
    LastFormulaOpenFree(c2);
    InlineNoOpen(z, After(sp));
  }

  /** Every `$` of s is preceded by `$` or followed by `$`: the shape of the
      text around a display formula. */
  lemma PairedOpenFree(x: string, y: string, v: string)
    requires '$' !in x && '$' !in y && '$' !in v
    ensures NoInlineOpen(x + "$$" + y + "$$" + v)
  {
    var s := x + "$$" + y + "$$" + v;
    var p, q := |x|, |x| + 2 + |y|;
    assert forall i :: 0 <= i < |x| ==> s[i] == x[i];
    assert forall i :: 0 <= i < |y| ==> s[p + 2 + i] == y[i];
    assert forall i :: 0 <= i < |v| ==> s[q + 2 + i] == v[i];
    assert s[p] == '$' && s[p + 1] == '$' && s[q] == '$' && s[q + 1] == '$';
    forall k | 0 <= k && k + 2 < |s| ensures !(s[k] != '$' && s[k + 1] == '$' && InlineChar(s[k + 2])) {
      if s[k] != '$' && s[k + 1] == '$' {
        assert k + 1 == p || k + 1 == q;
      }
    }
  }

  /** The display marker survives the inline rule: the rule that runs second
      finds no formula inside the output of the rule that runs first. */
  lemma DisplaySurvivesInline(c: string)
    requires '$' !in c
    ensures NoInlineOpen(DisplayHtml(c))
    ensures Apply(DisplayHtml(c), InlineM(), false) == DisplayHtml(c)
  {
    var head := "<div class=\"math-display\" data-math=\"" + EscapeAttr(c) + "\">";
    EscapeAttrNoDollar(c);
    assert '$' !in head;
    assert DisplayHtml(c) == head + "$$" + c + "$$" + "</div>";
    PairedOpenFree(head, c, "</div>");
    InlineNoOpen(DisplayHtml(c), false);
  }

  /** A text without two `$` in a row passes the display rule unchanged. */
  lemma DisplayNoPair(s: string, b: bool)
    requires forall k :: 0 <= k < |s| - 1 ==> !(s[k] == '$' && s[k + 1] == '$')
    ensures Apply(s, DisplayM(), b) == s
  {
    forall k | 0 <= k < |s| ensures !Hits(s[k..], DisplayM(), BolAt(s, k, b)) {
      if k + 1 < |s| { assert s[k..][1] == s[k + 1]; }
    }
    ApplyNoMatch(s, DisplayM(), b);
  }

  /** A text without `$` passes both rules unchanged. */
  lemma NoDollarUnchanged(s: string)
    requires '$' !in s
    ensures ProcessBlocks(s) == s
  {
    DisplayNoDollar(s, true);
    assert InlineFrom(s, 0).None?;
    InlineNoOpen(s, true);
  }
}
