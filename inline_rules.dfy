/**
 * The single-regex passes of `Renderer.convertMarkdown` (js/renderer.js:43-75),
 * each a matcher for the global scan of module Scanner:
 *  - line rules `^### (.*?)$`, `^## (.*?)$`, `^# (.*?)$`, `^---$`, `^> (.*?)$`
 *    (multiline) and the unanchored task rules `- \[ \] (.*?)$`, `- \[x\] (.*?)$`;
 *  - delimiter rules `\*\*\*(.*?)\*\*\*`, `\*\*(.*?)\*\*`, `__(.*?)__`,
 *    `\*(.*?)\*`, `_(.*?)_`: the lazy group stops at the first closing
 *    delimiter and, since `.` excludes line terminators, never crosses a line;
 *  - the code span `` `([^`]+)` ``, which may cross lines but not be empty;
 *  - links `\[([^\]]+)\]\(([^)]+)\)` and images `!\[([^\]]*)\]\(([^)]+)\)`.
 */
module InlineRules {
  import opened Strings
  import opened Scanner

  /** The extent of `.*` from the start of s: up to the first line terminator. */
  function LineEnd(s: string): (k: nat)
    ensures k <= |s|
    ensures forall i :: 0 <= i < k ==> !IsLineTerminator(s[i])
    ensures k < |s| ==> IsLineTerminator(s[k])
  {
    if s == [] || IsLineTerminator(s[0]) then 0 else 1 + LineEnd(s[1..])
  }

  predicate NoBreak(s: string) { forall i :: 0 <= i < |s| ==> !IsLineTerminator(s[i]) }

  /** A text ends here: nothing follows, or a line terminator does. */
  predicate LineBoundary(y: string) { y == [] || IsLineTerminator(y[0]) }

  // ---------------------------------------------------------------- line rules

  /** `prefix(.*?)$` with the `gm` flags, replaced by open + group + close. An
      anchored rule starts with `^`; a bare one (`^---$`) has no group and must
      be followed by the end of the line. */
  datatype LineRule = LineRule(prefix: string, open: string, close: string, anchored: bool, bare: bool)

  const H3 := LineRule("### ", "<h3>", "</h3>", true, false)
  const H2 := LineRule("## ", "<h2>", "</h2>", true, false)
  const H1 := LineRule("# ", "<h1>", "</h1>", true, false)
  const Rule := LineRule("---", "<hr>", "", true, true)
  const Quote := LineRule("> ", "<blockquote>", "</blockquote>", true, false)
  const TaskOpen := LineRule("- [ ] ", "<input type=\"checkbox\"> <label>", "</label>", false, false)
  const TaskDone := LineRule("- [x] ", "<input type=\"checkbox\" checked> <label>", "</label>", false, false)

  function LineMatch(t: string, bol: bool, r: LineRule): Step
  {
    if (r.anchored ==> bol) && StartsWith(t, r.prefix) then
      var k := LineEnd(t[|r.prefix|..]);
      if r.bare then (if k == 0 then Match(|r.prefix|, r.open) else Miss)
      else Match(|r.prefix| + k, r.open + t[|r.prefix|..|r.prefix| + k] + r.close)
    else Miss
  }

  function LineM(r: LineRule): Matcher { (t: string, b: bool) => LineMatch(t, b, r) }

  function LinePass(s: string, r: LineRule): string { Apply(s, LineM(r), true) }

  /** What an anchored rule makes of one whole line. */
  function OnLine(line: string, r: LineRule): string
  {
    if StartsWith(line, r.prefix) && (r.bare ==> |line| == |r.prefix|) then
      (if r.bare then r.open else r.open + line[|r.prefix|..] + r.close)
    else line
  }

  /** What an unanchored rule makes of one whole line: its first occurrence of the
      prefix starts the match, which runs to the end of the line. */
  function FirstOnLine(line: string, r: LineRule): string
  {
    match IndexOf(line, r.prefix)
    case None => line
    case Some(i) => line[..i] + r.open + line[i + |r.prefix|..] + r.close
  }

  lemma {:induction false} LineEndAppend(x: string, y: string)
    requires NoBreak(x) && LineBoundary(y)
    ensures LineEnd(x + y) == |x|
    decreases |x|
  {
    if x == [] {
      assert x + y == y;
    } else {
      assert (x + y)[0] == x[0] && (x + y)[1..] == x[1..] + y;
      LineEndAppend(x[1..], y);
    }
  }

  /** Within a line, an occurrence of a one-line pattern is an occurrence in the line. */
  lemma HasAtLine(line: string, y: string, p: string, k: nat)
    requires NoBreak(p) && LineBoundary(y) && k <= |line|
    ensures HasAt(line + y, k, p) == HasAt(line, k, p)
  {
    var s := line + y;
    HasAtChar(s, k, p, |line|);
    if HasAt(line, k, p) { assert s[k..k + |p|] == line[k..k + |p|]; }
    if HasAt(s, k, p) && k + |p| <= |line| { assert s[k..k + |p|] == line[k..k + |p|]; }
  }

  /** An anchored rule rewrites the line in front of a line boundary as OnLine says. */
  lemma AnchoredLine(line: string, y: string, r: LineRule)
    requires r.anchored && |r.prefix| > 0 && NoBreak(r.prefix) && NoBreak(line) && LineBoundary(y)
    ensures Apply(line + y, LineM(r), true) == OnLine(line, r) + Apply(y, LineM(r), line == [])
  {
    var s := line + y;
    var m := LineM(r);
    var p := r.prefix;
    HasAtLine(line, y, p, 0);
    if StartsWith(line, p) {
      assert s[|p|..] == line[|p|..] + y;
      LineEndAppend(line[|p|..], y);
    }
    if StartsWith(line, p) && (r.bare ==> |line| == |p|) {
      assert Hits(s, m, true);
      assert s[|line|..] == y && s[|line| - 1] == line[|line| - 1];
      if !r.bare { assert s[|p|..|line|] == line[|p|..]; }
    } else {
      forall k | 0 <= k < |line| ensures !Hits(s[k..], m, BolAt(line, k, true)) {
        if k == 0 { assert s[0..] == s; }
      }
      ApplyMisses(line, y, m, true);
    }
  }

  /** A line rule never matches at a line terminator. */
  lemma BreakStep(t: char, rest: string, r: LineRule, b: bool)
    requires |r.prefix| > 0 && NoBreak(r.prefix) && IsLineTerminator(t)
    ensures Apply([t] + rest, LineM(r), b) == [t] + Apply(rest, LineM(r), true)
  {
    var y := [t] + rest;
    HasAtLine([], y, r.prefix, 0);
    assert [] + y == y;
    assert y[1..] == rest;
  }

  /** Anchored rules work line by line: a line, its terminator and the rest. */
  lemma AnchoredLines(line: string, t: char, rest: string, r: LineRule)
    requires r.anchored && |r.prefix| > 0 && NoBreak(r.prefix) && NoBreak(line) && IsLineTerminator(t)
    ensures Apply(line + [t] + rest, LineM(r), true) == OnLine(line, r) + [t] + Apply(rest, LineM(r), true)
    ensures Apply(line, LineM(r), true) == OnLine(line, r)
  {
    assert Apply(line + [t] + rest, LineM(r), true) == OnLine(line, r) + [t] + Apply(rest, LineM(r), true) by {
      SeqAssoc(line, [t], rest);
      AnchoredLine(line, [t] + rest, r);
      BreakStep(t, rest, r, line == []);
      SeqAssoc(OnLine(line, r), [t], Apply(rest, LineM(r), true));
    }
    assert Apply(line, LineM(r), true) == OnLine(line, r) by {
      CatEmpty(line);
      AnchoredLine(line, [], r);
      CatEmpty(OnLine(line, r));
    }
  }

  /** Whether the scan of an unanchored rule starts at a line start does not matter. */
  lemma {:induction false} UnanchoredFlag(s: string, r: LineRule, b1: bool, b2: bool)
    requires !r.anchored
    ensures Apply(s, LineM(r), b1) == Apply(s, LineM(r), b2)
    decreases |s|
  {
    if s != [] {
      assert LineMatch(s, b1, r) == LineMatch(s, b2, r);
      var n := if Hits(s, LineM(r), b1) then LineM(r)(s, b1).len else 1;
      UnanchoredFlag(s[n..], r, After(s[n - 1]), After(s[n - 1]));
    }
  }

  /** A line rule matching at the start of a line takes the whole line. */
  lemma LineHit(w: string, y: string, r: LineRule, b: bool)
    requires (r.anchored ==> b) && !r.bare && StartsWith(w, r.prefix) && |r.prefix| > 0 && NoBreak(w) && LineBoundary(y)
    ensures Apply(w + y, LineM(r), b) == r.open + w[|r.prefix|..] + r.close + Apply(y, LineM(r), false)
  {
    var s := w + y;
    var p := r.prefix;
    assert s[..|p|] == w[..|p|];
    assert s[|p|..] == w[|p|..] + y;
    assert NoBreak(w[|p|..]) by {
      forall i | 0 <= i < |w[|p|..]| ensures !IsLineTerminator(w[|p|..][i]) { assert w[|p|..][i] == w[|p| + i]; }
    }
    LineEndAppend(w[|p|..], y);
    assert Hits(s, LineM(r), b);
    assert s[|w|..] == y && s[|w| - 1] == w[|w| - 1];
    assert s[|p|..|w|] == w[|p|..];
  }

  /** An unanchored rule rewrites a line from its first occurrence of the prefix. */
  lemma UnanchoredLine(line: string, y: string, r: LineRule, bol: bool)
    requires !r.anchored && !r.bare && |r.prefix| > 0 && NoBreak(r.prefix) && NoBreak(line) && LineBoundary(y)
    ensures Apply(line + y, LineM(r), bol) == FirstOnLine(line, r) + Apply(y, LineM(r), true)
  {
    var p := r.prefix;
    match IndexOf(line, p)
    case None => UnanchoredMiss(line, y, r, bol);
    case Some(i) => UnanchoredHit(line, y, r, bol, i);
  }

  lemma UnanchoredMiss(line: string, y: string, r: LineRule, bol: bool)
    requires !r.anchored && !r.bare && |r.prefix| > 0 && NoBreak(r.prefix) && NoBreak(line) && LineBoundary(y)
    requires IndexOf(line, r.prefix).None?
    ensures Apply(line + y, LineM(r), bol) == line + Apply(y, LineM(r), true)
  {
    var s := line + y;
    var m := LineM(r);
    forall k | 0 <= k < |line| ensures !Hits(s[k..], m, BolAt(line, k, bol)) {
      HasAtLine(line, y, r.prefix, k);
      HasAtSuffix(s, k, r.prefix);
    }
    ApplyMisses(line, y, m, bol);
    UnanchoredFlag(y, r, BolAt(line, |line|, bol), true);
  }

  lemma UnanchoredHit(line: string, y: string, r: LineRule, bol: bool, i: nat)
    requires !r.anchored && !r.bare && |r.prefix| > 0 && NoBreak(r.prefix) && NoBreak(line) && LineBoundary(y)
    requires IndexOf(line, r.prefix) == Some(i)
    ensures Apply(line + y, LineM(r), bol) == line[..i] + r.open + line[i + |r.prefix|..] + r.close + Apply(y, LineM(r), true)
  {
    var s := line + y;
    var n := |line| - i;
    UnanchoredMissesBefore(line, y, r, bol, i);
    UnanchoredStepAt(line, y, r, BolAt(s, i, bol), i);
    ApplyHitAt(s, i, n, LineM(r), bol, r.open + line[i + |r.prefix|..] + r.close);
    assert s[..i] == line[..i] && s[i + n..] == y;
    UnanchoredFlag(y, r, After(s[i + n - 1]), true);
    Assoc3(line[..i], r.open, line[i + |r.prefix|..], r.close, Apply(y, LineM(r), true));
  }

  lemma UnanchoredMissesBefore(line: string, y: string, r: LineRule, bol: bool, i: nat)
    requires !r.anchored && NoBreak(r.prefix) && LineBoundary(y)
    requires IndexOf(line, r.prefix) == Some(i)
    ensures forall k :: 0 <= k < i ==> !Hits((line + y)[k..], LineM(r), BolAt(line + y, k, bol))
  {
    forall k | 0 <= k < i ensures !Hits((line + y)[k..], LineM(r), BolAt(line + y, k, bol)) {
      HasAtLine(line, y, r.prefix, k);
      HasAtSuffix(line + y, k, r.prefix);
    }
  }

  lemma UnanchoredStepAt(line: string, y: string, r: LineRule, b: bool, i: nat)
    requires !r.anchored && !r.bare && NoBreak(line) && LineBoundary(y)
    requires IndexOf(line, r.prefix) == Some(i)
    ensures LineM(r)((line + y)[i..], b) == Match(|line| - i, r.open + line[i + |r.prefix|..] + r.close)
  {
    var p := r.prefix;
    var w := line[i..];
    assert (line + y)[i..] == w + y;
    assert StartsWith(w, p) by { assert w[..|p|] == line[i..i + |p|]; }
    assert NoBreak(w) by {
      forall j | 0 <= j < |w| ensures !IsLineTerminator(w[j]) { assert w[j] == line[i + j]; }
    }
    LineStep(w, y, r, b);
    assert w[|p|..] == line[i + |p|..];
  }

  /** A line rule that matches at the start of w takes all of w when a line
      boundary follows. */
  lemma LineStep(w: string, y: string, r: LineRule, b: bool)
    requires (r.anchored ==> b) && !r.bare && StartsWith(w, r.prefix) && NoBreak(w) && LineBoundary(y)
    ensures LineM(r)(w + y, b) == Match(|w|, r.open + w[|r.prefix|..] + r.close)
  {
    var s := w + y;
    var p := r.prefix;
    assert s[..|p|] == w[..|p|];
    assert s[|p|..] == w[|p|..] + y;
    assert NoBreak(w[|p|..]) by {
      forall i | 0 <= i < |w[|p|..]| ensures !IsLineTerminator(w[|p|..][i]) { assert w[|p|..][i] == w[|p| + i]; }
    }
    LineEndAppend(w[|p|..], y);
    assert s[|p|..|w|] == w[|p|..];
  }

  lemma Assoc3(a: string, b: string, c: string, d: string, e: string)
    ensures a + (b + c + d) + e == a + b + c + d + e
  {
  }

  lemma HasAtSuffix(s: string, k: nat, p: string)
    requires k <= |s|
    ensures StartsWith(s[k..], p) == HasAt(s, k, p)
  {
    if k + |p| <= |s| { assert s[k..][..|p|] == s[k..k + |p|]; }
  }

  /** An unanchored rule on a line, its terminator and the rest. */
  lemma UnanchoredLines(line: string, t: char, rest: string, r: LineRule)
    requires !r.anchored && !r.bare && |r.prefix| > 0 && NoBreak(r.prefix) && NoBreak(line) && IsLineTerminator(t)
    ensures Apply(line + [t] + rest, LineM(r), true) == FirstOnLine(line, r) + [t] + Apply(rest, LineM(r), true)
    ensures Apply(line, LineM(r), true) == FirstOnLine(line, r)
  {
    assert Apply(line + [t] + rest, LineM(r), true) == FirstOnLine(line, r) + [t] + Apply(rest, LineM(r), true) by {
      SeqAssoc(line, [t], rest);
      UnanchoredLine(line, [t] + rest, r, true);
      BreakStep(t, rest, r, true);
      SeqAssoc(FirstOnLine(line, r), [t], Apply(rest, LineM(r), true));
    }
    assert Apply(line, LineM(r), true) == FirstOnLine(line, r) by {
      CatEmpty(line);
      UnanchoredLine(line, [], r, true);
      CatEmpty(FirstOnLine(line, r));
    }
  }

  /** An anchored rule applied to a text of one line. */
  lemma PassLine(line: string, r: LineRule)
    requires r.anchored && |r.prefix| > 0 && NoBreak(r.prefix) && NoBreak(line)
    ensures LinePass(line, r) == OnLine(line, r)
  {
    AnchoredLines(line, '\n', [], r);
  }

  /** A line that differs from the prefix at index k is not rewritten. */
  lemma OnLineMiss(line: string, r: LineRule, k: nat)
    requires k < |r.prefix| && k < |line| && line[k] != r.prefix[k]
    ensures OnLine(line, r) == line
  {
    HasAtChar(line, 0, r.prefix, k);
  }

  lemma HeadingNoBreak(h: string, x: string)
    requires NoBreak(h) && NoBreak(x)
    ensures NoBreak(h + x)
  {
    forall i | 0 <= i < |h + x| ensures !IsLineTerminator((h + x)[i]) {
      if i < |h| { assert (h + x)[i] == h[i]; } else { assert (h + x)[i] == x[i - |h|]; }
    }
  }

  /** "# x" is a first-level heading: the `###` and `##` rules pass it by. */
  lemma HeadingOne(x: string)
    requires NoBreak(x)
    ensures LinePass(LinePass(LinePass("# " + x, H3), H2), H1) == "<h1>" + x + "</h1>"
  {
    var one := "# " + x;
    HeadingNoBreak("# ", x);
    assert one[1] == ' ' && one[..2] == "# " && one[2..] == x;
    PassLine(one, H3);
    OnLineMiss(one, H3, 1);
    PassLine(one, H2);
    OnLineMiss(one, H2, 1);
    PassLine(one, H1);
  }

  /** "### x" is a third-level heading, which the later rules leave alone. */
  lemma HeadingThree(x: string)
    requires NoBreak(x)
    ensures LinePass(LinePass(LinePass("### " + x, H3), H2), H1) == "<h3>" + x + "</h3>"
  {
    var three := "### " + x;
    HeadingNoBreak("### ", x);
    assert three[..4] == "### " && three[4..] == x;
    PassLine(three, H3);
    H3Line(x);
    TagKeptByHeadings("<h3>" + x + "</h3>");
  }

  lemma H3Line(x: string)
    requires NoBreak(x)
    ensures NoBreak("<h3>" + x + "</h3>") && ("<h3>" + x + "</h3>")[0] == '<'
  {
    HeadingNoBreak("<h3>", x);
    HeadingNoBreak("<h3>" + x, "</h3>");
  }

  /** A line that starts with `<` passes the `##` and `#` rules unchanged. */
  lemma TagKeptByHeadings(h: string)
    requires h != [] && h[0] == '<' && NoBreak(h)
    ensures LinePass(LinePass(h, H2), H1) == h
  {
    PassLine(h, H2);
    OnLineMiss(h, H2, 0);
    PassLine(h, H1);
    OnLineMiss(h, H1, 0);
  }

  /** Headings need one to three `#` and a space: "#### x" is not a heading. */
  lemma HeadingFour(x: string)
    requires NoBreak(x)
    ensures LinePass(LinePass(LinePass("#### " + x, H3), H2), H1) == "#### " + x
  {
    var four := "#### " + x;
    HeadingNoBreak("#### ", x);
    assert four[3] == '#' && four[2] == '#' && four[1] == '#';
    PassLine(four, H3);
    OnLineMiss(four, H3, 3);
    PassLine(four, H2);
    OnLineMiss(four, H2, 2);
    PassLine(four, H1);
    OnLineMiss(four, H1, 1);
  }

  // ----------------------------------------------------------- delimiter rules

  /** `d(.*?)d`, replaced by open + group + close. */
  datatype DelimRule = DelimRule(d: string, open: string, close: string)

  const BoldItalic := DelimRule("***", "<strong><em>", "</em></strong>")
  const Bold := DelimRule("**", "<strong>", "</strong>")
  const BoldUnderscore := DelimRule("__", "<strong>", "</strong>")
  const Italic := DelimRule("*", "<em>", "</em>")
  const ItalicUnderscore := DelimRule("_", "<em>", "</em>")

  function DelimMatch(t: string, r: DelimRule): Step
  {
    if |r.d| > 0 && StartsWith(t, r.d) then
      var u := t[|r.d|..];
      match IndexOf(u[..LineEnd(u)], r.d)
      case Some(j) => Match(2 * |r.d| + j, r.open + u[..j] + r.close)
      case None => Miss
    else Miss
  }

  function DelimM(r: DelimRule): Matcher { (t: string, b: bool) => DelimMatch(t, r) }

  function DelimPass(s: string, r: DelimRule): string { Apply(s, DelimM(r), true) }

  lemma IndexOfChar(x: string, c: char, z: string)
    requires c !in x
    ensures IndexOf(x + [c] + z, [c]) == Some(|x|)
  {
    var s := x + [c] + z;
    HasAtSingle(s, |x|, c);
    forall k | 0 <= k < |x| ensures !HasAt(s, k, [c]) {
      HasAtSingle(s, k, c);
      assert s[k] == x[k];
    }
  }

  /** The first occurrence of d after a text without d's first character is
      right after that text. */
  lemma IndexOfAfter(x: string, d: string, z: string)
    requires d != [] && d[0] !in x
    ensures IndexOf(x + d + z, d) == Some(|x|)
  {
    var s := x + d + z;
    assert s[|x|..|x| + |d|] == d;
    assert HasAt(s, |x|, d);
    forall k | 0 <= k < |x| ensures !HasAt(s, k, d) {
      HasAtChar(s, k, d, k);
      assert s[k] == x[k];
    }
  }

  /** A delimiter pair on one line, with no delimiter character before it or
      inside it, becomes one element; the group is the text between them. */
  lemma DelimSpan(a: string, x: string, b: string, r: DelimRule, bol: bool)
    requires |r.d| > 0 && NoBreak(r.d)
    requires r.d[0] !in a && r.d[0] !in x && NoBreak(x)
    ensures Apply(a + r.d + x + r.d + b, DelimM(r), bol) == a + r.open + x + r.close + Apply(b, DelimM(r), false)
  {
    DelimHit(a, x, b, r, bol);
    Assoc3(a, r.d, x, r.d, b);
    Assoc3(a, r.open, x, r.close, Apply(b, DelimM(r), false));
  }

  /** DelimSpan with the pair and the element grouped. */
  lemma DelimHit(a: string, x: string, b: string, r: DelimRule, bol: bool)
    requires |r.d| > 0 && NoBreak(r.d)
    requires r.d[0] !in a && r.d[0] !in x && NoBreak(x)
    ensures Apply(a + (r.d + x + r.d) + b, DelimM(r), bol) == a + (r.open + x + r.close) + Apply(b, DelimM(r), false)
  {
    var w := r.d + x + r.d;
    DelimHitsAt(r);
    assert w + b == r.d + x + r.d + b;
    DelimStepAt(x, b, r);
    ApplyHitAfterWithout(a, w, b, DelimM(r), bol, r.d[0], r.open + x + r.close);
    assert w[|w| - 1] == r.d[|r.d| - 1];
  }

  /** A text that is one delimited span becomes the element. */
  lemma DelimWhole(x: string, r: DelimRule)
    requires |r.d| > 0 && NoBreak(r.d)
    requires r.d[0] !in x && NoBreak(x)
    ensures DelimPass(r.d + x + r.d, r) == r.open + x + r.close
  {
    var w, h := r.d + x + r.d, r.open + x + r.close;
    DelimHit([], x, [], r, true);
    assert [] + w + [] == w && [] + h + [] == h;
  }

  /** The delimiter rule on a pair with a one-line group between. */
  lemma DelimStepAt(x: string, z: string, r: DelimRule)
    requires |r.d| > 0 && NoBreak(r.d)
    requires r.d[0] !in x && NoBreak(x)
    ensures DelimMatch(r.d + x + r.d + z, r) == Match(|x| + 2 * |r.d|, r.open + x + r.close)
  {
    var d := r.d;
    var t := d + x + d + z;
    assert StartsWith(t, d) by { assert t[..|d|] == d; }
    assert t[|d|..] == x + d + z;
    DelimGroup(x, d, z);
  }

  /** After the opening delimiter: the first closing one on the line ends the group. */
  lemma DelimGroup(x: string, d: string, z: string)
    requires |d| > 0 && NoBreak(d) && d[0] !in x && NoBreak(x)
    ensures var u := x + d + z;
      IndexOf(u[..LineEnd(u)], d) == Some(|x|) && u[..|x|] == x
  {
    var u := x + d + z;
    assert forall j :: 0 <= j < |x| + |d| ==> !IsLineTerminator(u[j]) by {
      forall j | 0 <= j < |x| + |d| ensures !IsLineTerminator(u[j]) {
        if j < |x| { assert u[j] == x[j]; } else { assert u[j] == d[j - |x|]; }
      }
    }
    var e := LineEnd(u);
    assert e >= |x| + |d|;
    assert u[..e] == x + d + u[|x| + |d|..e];
    IndexOfAfter(x, d, u[|x| + |d|..e]);
  }

  /** A delimiter made of one repeated character, as all five are. */
  predicate Repeated(d: string) { d != [] && forall i :: 0 <= i < |d| ==> d[i] == d[0] }

  /** A delimiter with no partner after it is left alone. */
  lemma DelimUnclosed(a: string, b: string, r: DelimRule, bol: bool)
    requires Repeated(r.d) && r.d[0] !in a && r.d[0] !in b
    ensures Apply(a + r.d + b, DelimM(r), bol) == a + r.d + b
  {
    var c := r.d[0];
    var s := a + r.d + b;
    var i := |a|;
    assert forall k :: 0 <= k < i ==> s[k] != c by {
      forall k | 0 <= k < i ensures s[k] != c { assert s[k] == a[k]; }
    }
    DelimHitsAt(r);
    MissesWithout(s, i, DelimM(r), bol, c);
    ApplyMissesAt(s, i, DelimM(r), bol);
    SeqAssoc(a, r.d, b);
    CatParts(a, r.d + b);
    assert s[i..] == r.d[0..] + b;
    DelimRunKept(r, 0, b, BolAt(s, i, bol));
    assert r.d[0..] == r.d;
  }

  /** From any point inside the delimiter, the rest of it and the text after
      are kept. */
  lemma {:induction false} DelimRunKept(r: DelimRule, k: nat, b: string, bol: bool)
    requires Repeated(r.d) && k <= |r.d| && r.d[0] !in b
    ensures Apply(r.d[k..] + b, DelimM(r), bol) == r.d[k..] + b
    decreases |r.d| - k
  {
    if k == |r.d| {
      assert r.d[k..] + b == b;
      DelimHitsAt(r);
      ApplyWithout(b, DelimM(r), bol, r.d[0]);
    } else {
      var q := r.d[k..] + b;
      DelimRunMiss(r, k, b, bol);
      ApplyMissHead(q, DelimM(r), bol);
      assert q[1..] == r.d[k + 1..] + b;
      DelimRunKept(r, k + 1, b, After(q[0]));
      assert q == [q[0]] + q[1..];
    }
  }

  /** Inside the delimiter no match starts: the delimiter would need the next
      character of b, and at its start b would need a partner. */
  lemma DelimRunMiss(r: DelimRule, k: nat, b: string, bol: bool)
    requires Repeated(r.d) && k < |r.d| && r.d[0] !in b
    ensures !Hits(r.d[k..] + b, DelimM(r), bol)
  {
    var d := r.d;
    var q := d[k..] + b;
    if k == 0 {
      assert d[k..] == d;
      DelimMissAt(b, r, bol);
    } else {
      var p := |d| - k;
      if StartsWith(q, d) {
        HasAtChar(q, 0, d, p);
        assert false;
      }
    }
  }

  /** An opening delimiter with no partner after it fails. */
  lemma DelimMissAt(b: string, r: DelimRule, bol: bool)
    requires |r.d| > 0 && r.d[0] !in b
    ensures !Hits(r.d + b, DelimM(r), bol)
  {
    var t := r.d + b;
    assert t[|r.d|..] == b;
    var e := LineEnd(b);
    forall k | 0 <= k <= e ensures !HasAt(b[..e], k, r.d) {
      HasAtChar(b[..e], k, r.d, k);
      if k < e { assert b[..e][k] == b[k]; }
    }
  }

  /** A pass over text without the delimiter's character changes nothing. */
  lemma DelimKeeps(s: string, r: DelimRule)
    requires r.d != [] && r.d[0] !in s
    ensures DelimPass(s, r) == s
  {
    DelimHitsAt(r);
    ApplyWithout(s, DelimM(r), true, r.d[0]);
  }

  /** A pass over text in which the delimiter does not occur changes nothing. */
  lemma DelimAbsent(s: string, r: DelimRule)
    requires !Contains(s, r.d)
    ensures DelimPass(s, r) == s
  {
    DelimHitsPrefix(r);
    forall k | 0 <= k < |s| ensures !Hits(s[k..], DelimM(r), BolAt(s, k, true)) {
      if Hits(s[k..], DelimM(r), BolAt(s, k, true)) {
        assert s[k..][..|r.d|] == s[k..k + |r.d|];
        assert HasAt(s, k, r.d);
      }
    }
    ApplyNoMatch(s, DelimM(r), true);
  }

  /** A pattern on delimiter d matches only where d[0] is. */
  lemma DelimHitsAt(r: DelimRule)
    ensures forall t: string, b: bool :: Hits(t, DelimM(r), b) ==> t[0] == r.d[0]
  {
  }

  // ----------------------------------------------------------------- code span

  function CodeMatch(t: string): Step
  {
    if t != [] && t[0] == '`' then
      match IndexOf(t[1..], "`")
      case Some(j) => if j > 0 then Match(j + 2, "<code>" + t[1..j + 1] + "</code>") else Miss
      case None => Miss
    else Miss
  }

  const CodeM: Matcher := (t: string, b: bool) => CodeMatch(t)

  function CodePass(s: string): string { Apply(s, CodeM, true) }

  /** `` `x` `` with x non-empty and free of backticks is wrapped in `<code>`, even
      across lines. */
  lemma CodeSpan(a: string, x: string, b: string, bol: bool)
    requires '`' !in a && '`' !in x && x != []
    ensures Apply(a + "`" + x + "`" + b, CodeM, bol) == a + "<code>" + x + "</code>" + Apply(b, CodeM, false)
  {
    var s := a + "`" + x + "`" + b;
    var i, n := |a|, |x| + 2;
    assert forall k :: 0 <= k < i ==> s[k] != '`' by {
      forall k | 0 <= k < i ensures s[k] != '`' { assert s[k] == a[k]; }
    }
    CodeHitsAt();
    MissesWithout(s, i, CodeM, bol, '`');
    assert s[i..] == "`" + x + "`" + b;
    CodeStepAt(x, b);
    ApplyHitAt(s, i, n, CodeM, bol, "<code>" + x + "</code>");
    assert s[..i] == a && s[i + n..] == b && s[i + n - 1] == '`';
    Assoc3(a, "<code>", x, "</code>", Apply(b, CodeM, false));
  }

  lemma CodeHitsAt()
    ensures forall t: string, b: bool :: Hits(t, CodeM, b) ==> t[0] == '`'
  {
  }

  lemma CodeStepAt(x: string, z: string)
    requires '`' !in x && x != []
    ensures CodeMatch("`" + x + "`" + z) == Match(|x| + 2, "<code>" + x + "</code>")
  {
    var t := "`" + x + "`" + z;
    assert t[1..] == x + ['`'] + z;
    IndexOfChar(x, '`', z);
    assert t[1..|x| + 1] == x;
  }

  /** An empty span ``` `` ``` is not code: both backticks stay. */
  lemma CodeEmpty(bol: bool)
    ensures Apply("``", CodeM, bol) == "``"
  {
    var e := "``";
    assert e[1..] == "`";
    IndexOfChar([], '`', []);
    assert !Hits(e, CodeM, bol);
    ApplyMissHead(e, CodeM, bol);
    CodeHitsAt();
    ApplyWithout([], CodeM, After('`'), '`');
    assert IndexOf([], "`") == None;
    assert !Hits(e[1..], CodeM, false) by { assert e[1..][1..] == []; }
    ApplyMissHead(e[1..], CodeM, false);
    assert e[1..][1..] == [];
  }

  // ------------------------------------------------------------ links, images

  /** The markup of js/renderer.js:62. */
  function Anchor(href: string, text: string): string
  {
    "<a href=\"" + href + "\">" + text + "</a>"
  }

  /** The markup of js/renderer.js:65. */
  function Img(src: string, alt: string): string
  {
    "<img src=\"" + src + "\" alt=\"" + alt + "\">"
  }

  function LinkMatch(t: string): Step
  {
    if t != [] && t[0] == '[' then
      match IndexOf(t[1..], "]")
      case Some(a) =>
        if a > 0 && a + 2 < |t| && t[a + 2] == '(' then
          match IndexOf(t[a + 3..], ")")
          case Some(b) =>
            if b > 0 then Match(a + b + 4, Anchor(t[a + 3..a + 3 + b], t[1..a + 1])) else Miss
          case None => Miss
        else Miss
      case None => Miss
    else Miss
  }

  function ImageMatch(t: string): Step
  {
    if StartsWith(t, "![") then
      match IndexOf(t[2..], "]")
      case Some(a) =>
        if a + 3 < |t| && t[a + 3] == '(' then
          match IndexOf(t[a + 4..], ")")
          case Some(b) =>
            if b > 0 then Match(a + b + 5, Img(t[a + 4..a + 4 + b], t[2..a + 2])) else Miss
          case None => Miss
        else Miss
      case None => Miss
    else Miss
  }

  const LinkM: Matcher := (t: string, b: bool) => LinkMatch(t)
  const ImageM: Matcher := (t: string, b: bool) => ImageMatch(t)

  function LinkPass(s: string): string { Apply(s, LinkM, true) }
  function ImagePass(s: string): string { Apply(s, ImageM, true) }

  /** `[x](u)` with non-empty x and u becomes an anchor. */
  lemma LinkSpan(a: string, x: string, u: string, b: string, bol: bool)
    requires '[' !in a && ']' !in x && ')' !in u && x != [] && u != []
    ensures Apply(a + "[" + x + "](" + u + ")" + b, LinkM, bol) == a + Anchor(u, x) + Apply(b, LinkM, false)
  {
    var s := a + "[" + x + "](" + u + ")" + b;
    var i, n := |a|, |x| + |u| + 4;
    assert forall k :: 0 <= k < i ==> s[k] != '[' by {
      forall k | 0 <= k < i ensures s[k] != '[' { assert s[k] == a[k]; }
    }
    LinkHitsAt();
    MissesWithout(s, i, LinkM, bol, '[');
    assert s[i..] == "[" + x + "](" + u + ")" + b;
    LinkStepAt(x, u, b);
    ApplyHitAt(s, i, n, LinkM, bol, Anchor(u, x));
    assert s[..i] == a && s[i + n..] == b && s[i + n - 1] == ')';
  }

  lemma LinkHitsAt()
    ensures forall t: string, b: bool :: Hits(t, LinkM, b) ==> t[0] == '['
  {
  }

  lemma LinkStepAt(x: string, u: string, z: string)
    requires ']' !in x && ')' !in u && x != [] && u != []
    ensures LinkMatch("[" + x + "](" + u + ")" + z) == Match(|x| + |u| + 4, Anchor(u, x))
  {
    var t := "[" + x + "](" + u + ")" + z;
    LinkLayout(t, x, u, z);
    LinkMatchOf(t, |x|, |u|);
    assert Anchor(t[|x| + 3..|x| + 3 + |u|], t[1..|x| + 1]) == Anchor(u, x);
  }

  /** Where the brackets and parentheses of `[x](u)` sit. */
  lemma LinkLayout(t: string, x: string, u: string, z: string)
    requires t == "[" + x + "](" + u + ")" + z && ']' !in x && ')' !in u
    ensures var n := |x|;
      t != [] && t[0] == '[' && IndexOf(t[1..], "]") == Some(n) && n + 2 < |t| && t[n + 2] == '(' &&
      IndexOf(t[n + 3..], ")") == Some(|u|) && t[n + 3..n + 3 + |u|] == u && t[1..n + 1] == x
  {
    var n := |x|;
    var w := u + (")" + z);
    var v := x + ("](" + w);
    Nest6("[", x, "](", u, ")", z);
    CatParts("[", v);
    CharFirstAt(x, ']', "](" + w);
    assert t[n + 2] == v[n + 1] == '(';
    DropCat("[", v, n + 3);
    DropCat(x, "](" + w, n + 2);
    CatParts("](", w);
    CharFirstAt(u, ')', ")" + z);
    SliceDrop(t, n + 3, n + 3 + |u|);
    CatParts(u, ")" + z);
    SliceDrop(t, 1, n + 1);
    CatParts(x, "](" + w);
  }

  /** The link rule's outcome once both searches are known. */
  lemma LinkMatchOf(t: string, a: nat, b: nat)
    requires t != [] && t[0] == '[' && IndexOf(t[1..], "]") == Some(a)
    requires 0 < a && a + 2 < |t| && t[a + 2] == '(' && IndexOf(t[a + 3..], ")") == Some(b) && b > 0
    ensures LinkMatch(t) == Match(a + b + 4, Anchor(t[a + 3..a + 3 + b], t[1..a + 1]))
  {
  }

  /** `![x](u)` with u non-empty becomes an image; x may be empty. */
  lemma ImageSpan(a: string, x: string, u: string, b: string, bol: bool)
    requires '!' !in a && ']' !in x && ')' !in u && u != []
    ensures Apply(a + "![" + x + "](" + u + ")" + b, ImageM, bol) == a + Img(u, x) + Apply(b, ImageM, false)
  {
    var s := a + "![" + x + "](" + u + ")" + b;
    var i, n := |a|, |x| + |u| + 5;
    assert forall k :: 0 <= k < i ==> s[k] != '!' by {
      forall k | 0 <= k < i ensures s[k] != '!' { assert s[k] == a[k]; }
    }
    ImageHitsAt();
    MissesWithout(s, i, ImageM, bol, '!');
    assert s[i..] == "![" + x + "](" + u + ")" + b;
    ImageStepAt(x, u, b);
    ApplyHitAt(s, i, n, ImageM, bol, Img(u, x));
    assert s[..i] == a && s[i + n..] == b && s[i + n - 1] == ')';
  }

  lemma ImageHitsAt()
    ensures forall t: string, b: bool :: Hits(t, ImageM, b) ==> t[0] == '!'
  {
  }

  lemma ImageStepAt(x: string, u: string, z: string)
    requires ']' !in x && ')' !in u && u != []
    ensures ImageMatch("![" + x + "](" + u + ")" + z) == Match(|x| + |u| + 5, Img(u, x))
  {
    var t := "![" + x + "](" + u + ")" + z;
    ImageLayout(t, x, u, z);
    ImageMatchOf(t, |x|, |u|);
    assert Img(t[|x| + 4..|x| + 4 + |u|], t[2..|x| + 2]) == Img(u, x);
  }

  /** Where the brackets and parentheses of `![x](u)` sit. */
  lemma ImageLayout(t: string, x: string, u: string, z: string)
    requires t == "![" + x + "](" + u + ")" + z && ']' !in x && ')' !in u
    ensures var n := |x|;
      StartsWith(t, "![") && IndexOf(t[2..], "]") == Some(n) && n + 3 < |t| && t[n + 3] == '(' &&
      IndexOf(t[n + 4..], ")") == Some(|u|) && t[n + 4..n + 4 + |u|] == u && t[2..n + 2] == x
  {
    var n := |x|;
    var w := u + (")" + z);
    var v := x + ("](" + w);
    Nest6("![", x, "](", u, ")", z);
    CatParts("![", v);
    CharFirstAt(x, ']', "](" + w);
    assert t[n + 3] == v[n + 1] == '(';
    DropCat("![", v, n + 4);
    DropCat(x, "](" + w, n + 2);
    CatParts("](", w);
    CharFirstAt(u, ')', ")" + z);
    SliceDrop(t, n + 4, n + 4 + |u|);
    CatParts(u, ")" + z);
    SliceDrop(t, 2, n + 2);
    CatParts(x, "](" + w);
  }

  /** The image rule's outcome once both searches are known. */
  lemma ImageMatchOf(t: string, a: nat, b: nat)
    requires StartsWith(t, "![") && IndexOf(t[2..], "]") == Some(a)
    requires a + 3 < |t| && t[a + 3] == '(' && IndexOf(t[a + 4..], ")") == Some(b) && b > 0
    ensures ImageMatch(t) == Match(a + b + 5, Img(t[a + 4..a + 4 + b], t[2..a + 2]))
  {
  }

  /** An image with alt text is read by the link pass first, which leaves its `!`
      in front of an anchor for the image pass to ignore. */
  lemma ImageAfterLink(x: string, u: string)
    requires ']' !in x && ')' !in u && x != [] && u != [] && '!' !in x && '!' !in u
    ensures ImagePass(LinkPass("![" + x + "](" + u + ")")) == "!" + Anchor(u, x)
  {
    var t := Anchor(u, x);
    assert LinkPass("![" + x + "](" + u + ")") == "!" + t by {
      LinkSpan("!", x, u, [], true);
      assert "!" + "[" + x + "](" + u + ")" + [] == "![" + x + "](" + u + ")";
    }
    AnchorSkipped(t);
  }

  /** An anchor after a `!` is not an image. */
  lemma AnchorSkipped(t: string)
    requires StartsWith(t, "<") && '!' !in t
    ensures ImagePass("!" + t) == "!" + t
  {
    var e := "!" + t;
    assert e[1..] == t && e[0] == '!';
    assert !Hits(e, ImageM, true) by {
      HasAtChar(t, 0, "<", 0);
      assert e[1] == '<';
    }
    ApplyMissHead(e, ImageM, true);
    ImageHitsAt();
    ApplyWithout(t, ImageM, After('!'), '!');
  }

  /** Only an image with empty alt text survives the link pass as an `<img>`. */
  lemma EmptyAltImage(u: string)
    requires ')' !in u && u != [] && '[' !in u
    ensures ImagePass(LinkPass("![](" + u + ")")) == Img(u, [])
  {
    var e := "![](" + u + ")";
    EmptyLinkText(e);
    ImageSpan([], [], u, [], true);
    assert [] + "![" + [] + "](" + u + ")" + [] == e;
  }

  /** `[]` has no link text, so `![](u)` passes the link rule unchanged. */
  lemma EmptyLinkText(e: string)
    requires |e| >= 3 && e[0] == '!' && e[1] == '[' && e[2] == ']' && '[' !in e[2..]
    ensures LinkPass(e) == e
  {
    assert !Hits(e, LinkM, true);
    ApplyMissHead(e, LinkM, true);
    var f := e[1..];
    assert f[1..] == e[2..] && f[0] == '[';
    assert !Hits(f, LinkM, After('!')) by {
      HasAtSingle(f[1..], 0, ']');
    }
    ApplyMissHead(f, LinkM, After('!'));
    LinkHitsAt();
    ApplyWithout(e[2..], LinkM, After('['), '[');
    assert [e[0]] + ([f[0]] + e[2..]) == e;
  }

  // ---------------------------------------------------- `>` at a line start

  lemma NoBreakCat(a: string, x: string, e: string)
    requires NoBreak(a) && NoBreak(x) && NoBreak(e)
    ensures NoBreak(a + x + e)
  {
    var w := a + x + e;
    forall i | 0 <= i < |w| ensures !IsLineTerminator(w[i]) {
      if i < |a| { assert w[i] == a[i]; }
      else if i < |a| + |x| { assert w[i] == x[i - |a|]; }
      else { assert w[i] == e[i - |a| - |x|]; }
    }
  }

  /** A text that keeps c off its line starts and ends inside a line, then a
      stretch read after it, then one line not starting with c. */
  lemma LeadsThree(a: string, x: string, e: string, c: char, b: bool)
    requires a != [] && NeverLeads(a, c, b) && !IsLineTerminator(a[|a| - 1])
    requires NeverLeads(x, c, false)
    requires e != [] && e[0] != c && NoBreak(e)
    ensures NeverLeads(a + x + e, c, b) && !IsLineTerminator((a + x + e)[|a + x + e| - 1])
  {
    assert BolAt(a, |a|, b) == false;
    NeverLeadsAppend(a, x, c, b);
    NeverLeadsLine(e, c, BolAt(a + x, |a + x|, b));
    NeverLeadsAppend(a + x, e, c, b);
    assert (a + x + e)[|a + x + e| - 1] == e[|e| - 1];
  }

  /** A line rule whose tags are one line and whose opening tag does not start
      with c keeps c off the line starts. */
  lemma LineKeepsLeads(r: LineRule, c: char)
    requires r.open != [] && r.open[0] != c && NoBreak(r.open) && NoBreak(r.close)
    ensures KeepsLeads(LineM(r), c)
  {
    forall t: string, b: bool | Hits(t, LineM(r), b) && NeverLeads(t, c, b)
      ensures LineM(r)(t, b).rep != [] && !IsLineTerminator(LineM(r)(t, b).rep[|LineM(r)(t, b).rep| - 1])
      ensures NeverLeads(LineM(r)(t, b).rep, c, b)
    {
      var p := |r.prefix|;
      var k := LineEnd(t[p..]);
      var x := t[p..p + k];
      forall i | 0 <= i < |x| ensures !IsLineTerminator(x[i]) { assert x[i] == t[p..][i]; }
      var h := LineMatch(t, b, r).rep;
      NoBreakCat(r.open, x, r.close);
      assert h == r.open || h == r.open + x + r.close;
      NeverLeadsLine(h, c, b);
    }
  }

  /** The same for a delimiter rule: its group never crosses a line. */
  lemma DelimKeepsLeads(r: DelimRule, c: char)
    requires r.open != [] && r.open[0] != c && NoBreak(r.open) && NoBreak(r.close)
    ensures KeepsLeads(DelimM(r), c)
  {
    forall t: string, b: bool | Hits(t, DelimM(r), b) && NeverLeads(t, c, b)
      ensures DelimM(r)(t, b).rep != [] && !IsLineTerminator(DelimM(r)(t, b).rep[|DelimM(r)(t, b).rep| - 1])
      ensures NeverLeads(DelimM(r)(t, b).rep, c, b)
    {
      var u := t[|r.d|..];
      var e := LineEnd(u);
      var j := IndexOf(u[..e], r.d).value;
      var x := u[..j];
      forall i | 0 <= i < |x| ensures !IsLineTerminator(x[i]) { assert x[i] == u[i]; }
      NoBreakCat(r.open, x, r.close);
      NeverLeadsLine(r.open + x + r.close, c, b);
    }
  }

  /** A code span keeps c off the line starts when no tag starts with c: the
      copied text is read as it was. */
  lemma CodeKeepsLeads(c: char)
    requires c != '<'
    ensures KeepsLeads(CodeM, c)
  {
    forall t: string, b: bool | Hits(t, CodeM, b) && NeverLeads(t, c, b)
      ensures CodeM(t, b).rep != [] && !IsLineTerminator(CodeM(t, b).rep[|CodeM(t, b).rep| - 1])
      ensures NeverLeads(CodeM(t, b).rep, c, b)
    {
      var j := IndexOf(t[1..], "`").value;
      NeverLeadsSlice(t, c, b, 1, j + 1);
      NeverLeadsLine("<code>", c, b);
      LeadsThree("<code>", t[1..j + 1], "</code>", c, b);
    }
  }

  /** The fixed parts of anchors and images are one line each. */
  lemma TagsOneLine()
    ensures NoBreak("<a href=\"") && NoBreak("\">") && NoBreak("</a>")
    ensures NoBreak("<img src=\"") && NoBreak("\" alt=\"")
  {
    var alt := "\" alt=\"";
    forall i | 0 <= i < |alt| ensures !IsLineTerminator(alt[i]) {
      assert alt[i] in {'"', ' ', 'a', 'l', 't', '='};
    }
  }

  /** An anchor keeps c off its line starts when its parts, read inside a
      line, do. */
  lemma AnchorLeads(href: string, text: string, c: char, b: bool)
    requires c != '<' && c != '"' && NeverLeads(href, c, false) && NeverLeads(text, c, false)
    ensures NeverLeads(Anchor(href, text), c, b) && !IsLineTerminator(Anchor(href, text)[|Anchor(href, text)| - 1])
  {
    TagsOneLine();
    NeverLeadsLine("<a href=\"", c, b);
    LeadsThree("<a href=\"", href, "\">", c, b);
    LeadsThree("<a href=\"" + href + "\">", text, "</a>", c, b);
  }

  /** The same for an image element. */
  lemma ImgLeads(src: string, alt: string, c: char, b: bool)
    requires c != '<' && c != '"' && NeverLeads(src, c, false) && NeverLeads(alt, c, false)
    ensures NeverLeads(Img(src, alt), c, b) && !IsLineTerminator(Img(src, alt)[|Img(src, alt)| - 1])
  {
    TagsOneLine();
    NeverLeadsLine("<img src=\"", c, b);
    LeadsThree("<img src=\"", src, "\" alt=\"", c, b);
    LeadsThree("<img src=\"" + src + "\" alt=\"", alt, "\">", c, b);
  }

  /** The same for links: text and address are read after `[` and `(`. */
  lemma LinkKeepsLeads(c: char)
    requires c != '<' && c != '"'
    ensures KeepsLeads(LinkM, c)
  {
    forall t: string, b: bool | Hits(t, LinkM, b) && NeverLeads(t, c, b)
      ensures LinkM(t, b).rep != [] && !IsLineTerminator(LinkM(t, b).rep[|LinkM(t, b).rep| - 1])
      ensures NeverLeads(LinkM(t, b).rep, c, b)
    {
      var a := IndexOf(t[1..], "]").value;
      var q := IndexOf(t[a + 3..], ")").value;
      LinkMatchOf(t, a, q);
      NeverLeadsSlice(t, c, b, 1, a + 1);
      NeverLeadsSlice(t, c, b, a + 3, a + 3 + q);
      AnchorLeads(t[a + 3..a + 3 + q], t[1..a + 1], c, b);
    }
  }

  /** The same for images: alternative text and source are read after `[` and `(`. */
  lemma ImageKeepsLeads(c: char)
    requires c != '<' && c != '"'
    ensures KeepsLeads(ImageM, c)
  {
    forall t: string, b: bool | Hits(t, ImageM, b) && NeverLeads(t, c, b)
      ensures ImageM(t, b).rep != [] && !IsLineTerminator(ImageM(t, b).rep[|ImageM(t, b).rep| - 1])
      ensures NeverLeads(ImageM(t, b).rep, c, b)
    {
      var a := IndexOf(t[2..], "]").value;
      var q := IndexOf(t[a + 4..], ")").value;
      ImageMatchOf(t, a, q);
      assert t[1] == '[' by { assert t[..2] == "!["; }
      NeverLeadsSlice(t, c, b, 2, a + 2);
      NeverLeadsSlice(t, c, b, a + 4, a + 4 + q);
      ImgLeads(t[a + 4..a + 4 + q], t[2..a + 2], c, b);
    }
  }

  /** The blockquote rule needs a `>` at the start of a line: on a text without
      one it changes nothing. */
  lemma {:induction false} QuoteNeedsGt(s: string, bol: bool)
    requires NeverLeads(s, '>', bol)
    ensures Apply(s, LineM(Quote), bol) == s
    decreases |s|
  {
    if s != [] {
      assert !Hits(s, LineM(Quote), bol) by {
        assert StartsWith(s, "> ") ==> s[0] == '>' by {
          if StartsWith(s, "> ") { assert s[..2][0] == s[0]; }
        }
      }
      QuoteNeedsGt(s[1..], After(s[0]));
    }
  }

  /** A line rule matches only where its prefix starts. */
  lemma LineHitsPrefix(r: LineRule)
    ensures forall t: string, b: bool :: Hits(t, LineM(r), b) ==> StartsWith(t, r.prefix)
  {
  }

  /** A delimiter rule matches only where its delimiter starts. */
  lemma DelimHitsPrefix(r: DelimRule)
    ensures forall t: string, b: bool :: Hits(t, DelimM(r), b) ==> StartsWith(t, r.d)
  {
  }

  /** The image rule matches only where `![` starts. */
  lemma ImageHitsPrefix()
    ensures forall t: string, b: bool :: Hits(t, ImageM, b) ==> StartsWith(t, "![")
  {
  }
}
