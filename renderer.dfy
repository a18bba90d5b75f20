/**
 * `Renderer.convertMarkdown` and `Renderer.render` (js/renderer.js:7-98): the
 * passes in their order, the paragraph pass, and what that order does to
 * fenced blocks and to code spans that hold math.
 *
 * The passes of `convertMarkdown` run on the escaped text: code blocks are
 * swapped for `<!--CODE_BLOCK_i-->` tokens, then come the line and inline
 * rules, `convertLists`, the task rules, `convertTables`, the paragraphs, and
 * at last the tokens are replaced by the blocks' markup. `render` puts the wiki
 * pass before and the four handlers after, and wraps the result in a `<div>`.
 */
module Renderer {
  import opened Strings
  import opened Scanner
  import opened Escaping
  import opened CodeBlocks
  import opened InlineRules
  import Lists
  import Tables
  import Wiki
  import Mermaid
  import MathBlocks
  import Chem
  import Svg

  // ---------------------------------------------------------------- paragraphs

  /** Every `\n` as `<br>`, character by character. */
  function Breaks(s: string): (r: string)
    ensures '\n' !in s ==> r == s
    ensures '\n' !in r
    decreases |s|
  {
    if s == [] then [] else (if s[0] == '\n' then "<br>" else [s[0]]) + Breaks(s[1..])
  }

  lemma {:induction false} BreaksAppend(a: string, b: string)
    ensures Breaks(a + b) == Breaks(a) + Breaks(b)
    decreases |a|
  {
    if a == [] {
      assert a + b == b;
    } else {
      assert (a + b)[0] == a[0] && (a + b)[1..] == a[1..] + b;
      BreaksAppend(a[1..], b);
      SeqAssoc(if a[0] == '\n' then "<br>" else [a[0]], Breaks(a[1..]), Breaks(b));
    }
  }

  /** `split('\n').join('<br>')` turns every newline into `<br>` and keeps
      every other character. */
  lemma {:induction false} BreaksJoin(s: string)
    ensures Join(Split(s, "\n"), "<br>") == Breaks(s)
    decreases |s|
  {
    match IndexOf(s, "\n")
    case None =>
      forall k | 0 <= k < |s| ensures s[k] != '\n' { HasAtSingle(s, k, '\n'); }
    case Some(i) =>
      var head, rest := s[..i], s[i + 1..];
      forall k | 0 <= k < i ensures head[k] != '\n' { HasAtSingle(s, k, '\n'); }
      assert '\n' !in head;
      BreaksJoin(rest);
      JoinCons(head, Split(rest, "\n"), "<br>");
      AroundMatch(s, i, "\n");
      BreaksAppend(head + "\n", rest);
      BreaksAppend(head, "\n");
      assert Breaks("\n") == "<br>" by { assert "\n"[1..] == []; }
  }

  /** The callback of js/renderer.js:81-86 for one chunk. */
  function Paragraph(para: string): string
  {
    if StartsWith(para, "<") then para else "<p>" + Join(Split(para, "\n"), "<br>") + "</p>"
  }

  /** A chunk that starts with `<` is kept; any other, the empty one included,
      becomes a `<p>` whose lines are separated by `<br>` and that holds no
      newline. */
  lemma ParagraphOf(para: string)
    ensures StartsWith(para, "<") ==> Paragraph(para) == para
    ensures !StartsWith(para, "<") ==> Paragraph(para) == "<p>" + Breaks(para) + "</p>"
    ensures !StartsWith(para, "<") ==> '\n' !in Paragraph(para)
  {
    BreaksJoin(para);
  }

  function Paras(chunks: seq<string>): (r: seq<string>)
    ensures |r| == |chunks|
  {
    seq(|chunks|, i requires 0 <= i < |chunks| => Paragraph(chunks[i]))
  }

  /** js/renderer.js:81-86: split on blank lines, wrap, join with one newline. */
  function Paragraphs(text: string): string
  {
    Join(Paras(Split(text, "\n\n")), "\n")
  }

  /** A text without a blank line is one chunk. */
  lemma ParagraphsSingle(text: string)
    requires !Contains(text, "\n\n")
    ensures Paragraphs(text) == Paragraph(text)
  {
    assert Paras([text]) == [Paragraph(text)];
  }

  /** The first blank line of a + "\n\n" + b is the one after a. */
  lemma FirstBlank(a: string, b: string)
    requires !Contains(a, "\n\n") && (a == [] || a[|a| - 1] != '\n')
    ensures IndexOf(a + "\n\n" + b, "\n\n") == Some(|a|)
  {
    var s := a + "\n\n" + b;
    assert s[|a|..|a| + 2] == "\n\n";
    assert HasAt(s, |a|, "\n\n");
    forall k | 0 <= k < |a| ensures !HasAt(s, k, "\n\n") {
      if k + 2 <= |a| {
        assert s[k..k + 2] == a[k..k + 2];
        assert !HasAt(a, k, "\n\n");
      } else {
        assert s[k] == a[|a| - 1];
      }
    }
  }

  /** The first blank line ends the first chunk; two newlines become one. */
  lemma ParagraphsCons(a: string, b: string)
    requires !Contains(a, "\n\n") && (a == [] || a[|a| - 1] != '\n')
    ensures Paragraphs(a + "\n\n" + b) == Paragraph(a) + "\n" + Paragraphs(b)
  {
    var s := a + "\n\n" + b;
    FirstBlank(a, b);
    assert s[..|a|] == a && s[|a| + 2..] == b;
    var rest := Split(b, "\n\n");
    assert Split(s, "\n\n") == [s[..|a|]] + Split(s[|a| + 2..], "\n\n");
    ParasCons(a, rest);
    JoinCons(Paragraph(a), Paras(rest), "\n");
  }

  lemma ParasCons(c: string, rest: seq<string>)
    ensures Paras([c] + rest) == [Paragraph(c)] + Paras(rest)
  {
    var l, r := Paras([c] + rest), [Paragraph(c)] + Paras(rest);
    forall i | 0 <= i < |l| ensures l[i] == r[i] {
      if i > 0 { assert ([c] + rest)[i] == rest[i - 1]; }
    }
  }

  // ----------------------------------------------------------- convertMarkdown

  function Headings(t: string): string { LinePass(LinePass(LinePass(t, H3), H2), H1) }

  function Emphasis(t: string): string
  {
    DelimPass(DelimPass(DelimPass(DelimPass(DelimPass(t, BoldItalic), Bold), BoldUnderscore), Italic), ItalicUnderscore)
  }

  function Spans(t: string): string { ImagePass(LinkPass(CodePass(t))) }

  function Tasks(t: string): string { LinePass(LinePass(t, TaskOpen), TaskDone) }

  /** The emphasis elements hold markup characters only. */
  lemma EmphasisTagsPlain(c: char)
    requires !MarkupChar(c)
    ensures c !in "<strong><em>" && c !in "</em></strong>" && c !in "<strong>" && c !in "</strong>"
  {
    assert forall k :: 0 <= k < |"<strong><em>"| ==> MarkupChar("<strong><em>"[k]);
    assert forall k :: 0 <= k < |"</em></strong>"| ==> MarkupChar("</em></strong>"[k]);
  }

  /** `**x**` holds no `***` when x is a non-empty text without `*`. */
  lemma NoTripleStar(x: string)
    requires x != [] && '*' !in x
    ensures !Contains("**" + x + "**", "***")
  {
    var s := "**" + x + "**";
    forall k | 0 <= k <= |s| ensures !HasAt(s, k, "***") {
      if k + 3 <= |s| {
        var j := if k < 2 then 2 else k;
        HasAtChar(s, k, "***", j);
        assert s[j] == x[j - 2];
      }
    }
  }

  /** `***x***` becomes `<strong><em>x</em></strong>` in the first emphasis
      pass, and the other four passes find no delimiter in it. */
  lemma EmphasisBoldItalic(x: string)
    requires '*' !in x && '_' !in x && NoBreak(x)
    ensures Emphasis("***" + x + "***") == "<strong><em>" + x + "</em></strong>"
  {
    var o := "<strong><em>" + x + "</em></strong>";
    DelimWhole(x, BoldItalic);
    EmphasisTagsPlain('*');
    EmphasisTagsPlain('_');
    DelimKeeps(o, Bold);
    DelimKeeps(o, BoldUnderscore);
    DelimKeeps(o, Italic);
    DelimKeeps(o, ItalicUnderscore);
  }

  /** `**x**` is no `***` span, becomes `<strong>x</strong>` in the second
      pass and is left alone by the rest. */
  lemma EmphasisBold(x: string)
    requires x != [] && '*' !in x && '_' !in x && NoBreak(x)
    ensures Emphasis("**" + x + "**") == "<strong>" + x + "</strong>"
  {
    var s := "**" + x + "**";
    var o := "<strong>" + x + "</strong>";
    NoTripleStar(x);
    DelimAbsent(s, BoldItalic);
    DelimWhole(x, Bold);
    EmphasisTagsPlain('*');
    EmphasisTagsPlain('_');
    DelimKeeps(o, BoldUnderscore);
    DelimKeeps(o, Italic);
    DelimKeeps(o, ItalicUnderscore);
  }

  /** `__x__` passes the two star passes, becomes `<strong>x</strong>` in the
      third and is left alone by the two italic passes. */
  lemma EmphasisBoldUnderscore(x: string)
    requires '*' !in x && '_' !in x && NoBreak(x)
    ensures Emphasis("__" + x + "__") == "<strong>" + x + "</strong>"
  {
    var s := "__" + x + "__";
    var o := "<strong>" + x + "</strong>";
    assert '*' !in s;
    DelimKeeps(s, BoldItalic);
    DelimKeeps(s, Bold);
    DelimWhole(x, BoldUnderscore);
    EmphasisTagsPlain('*');
    EmphasisTagsPlain('_');
    DelimKeeps(o, Italic);
    DelimKeeps(o, ItalicUnderscore);
  }

  /** js/renderer.js:43-86, the passes between extraction and restoration. */
  function Passes(t: string): string
  {
    Paragraphs(Tables.ConvertTables(Tasks(Lists.ListsOf(LinePass(Spans(Emphasis(LinePass(Headings(t), Rule))), Quote)))))
  }

  /** Every entry of `codeBlocks` starts with a fence. */
  lemma BlocksFenced(s: string)
    ensures forall i :: 0 <= i < |ExtractCodeBlocks(s).1| ==> StartsWith(ExtractCodeBlocks(s).1[i], Fence)
  {
    var bs := ExtractCodeBlocks(s).1;
    forall i | 0 <= i < |bs| ensures StartsWith(bs[i], Fence) {
      var x := Inners(Fenced(s, Fence))[i];
      CatParts(Fence, x + Fence);
      SeqAssoc(Fence, x, Fence);
    }
  }

  /** What `convertMarkdown` returns for markdown. */
  function MarkdownOf(markdown: string): string
  {
    var e := ExtractCodeBlocks(EscapeHtml(markdown));
    BlocksFenced(EscapeHtml(markdown));
    RestoreUpTo(Passes(e.0), e.1, |e.1|)
  }

  /** js/renderer.js:32-99, pass by pass. */
  method ConvertMarkdown(markdown: string) returns (text: string)
    ensures text == MarkdownOf(markdown)
  {
    text := EscapeHtml(markdown);
    var extracted := ExtractCodeBlocks(text);
    BlocksFenced(text);
    var codeBlocks := extracted.1;
    text := extracted.0;
    text := LinePass(text, H3);
    text := LinePass(text, H2);
    text := LinePass(text, H1);
    text := LinePass(text, Rule);
    text := DelimPass(text, BoldItalic);
    text := DelimPass(text, Bold);
    text := DelimPass(text, BoldUnderscore);
    text := DelimPass(text, Italic);
    text := DelimPass(text, ItalicUnderscore);
    text := CodePass(text);
    text := LinkPass(text);
    text := ImagePass(text);
    text := LinePass(text, Quote);
    text := Lists.ConvertLists(text);
    text := LinePass(text, TaskOpen);
    text := LinePass(text, TaskDone);
    text := Tables.ConvertTables(text);
    text := Paragraphs(text);
    text := RestoreCodeBlocks(text, codeBlocks);
  }

  // ------------------------------------------------------- the blockquote rule

  /** Extraction puts tokens, which start with `<` and are one line, where the
      blocks were: a text without `>` gets none at a line start. */
  lemma {:induction false} LayoutKeepsGt(ps: seq<Piece>, n: nat, bol: bool)
    requires '>' !in Unparse(ps, Fence)
    ensures NeverLeads(Layout(ps, [], n), '>', bol)
    decreases |ps|
  {
    if ps != [] {
      var rest := Unparse(ps[1..], Fence);
      assert forall d :: d in rest ==> d in PieceText(ps[0], Fence) + rest;
      match ps[0]
      case Char(c) =>
        assert c in PieceText(ps[0], Fence) + rest;
        LayoutKeepsGt(ps[1..], n, After(c));
        var l := Layout(ps[1..], [], n);
        assert ([c] + l)[1..] == l;
      case Block(x) =>
        TokenChars(n);
        NeverLeadsLine(Token(n), '>', bol);
        LayoutKeepsGt(ps[1..], n + 1, false);
        NeverLeadsAppend(Token(n), Layout(ps[1..], [], n + 1), '>', bol);
    }
  }

  lemma ExtractKeepsGt(s: string)
    requires '>' !in s
    ensures NeverLeads(ExtractCodeBlocks(s).0, '>', true)
  {
    LayoutKeepsGt(Fenced(s, Fence), 0, true);
  }

  lemma LineTagsLines()
    ensures NoBreak("<h1>") && NoBreak("<h2>") && NoBreak("<h3>") && NoBreak("<hr>")
    ensures NoBreak("</h1>") && NoBreak("</h2>") && NoBreak("</h3>") && NoBreak("")
  {
  }

  lemma EmphasisTagsLines()
    ensures NoBreak("<strong><em>") && NoBreak("</em></strong>")
    ensures NoBreak("<strong>") && NoBreak("</strong>") && NoBreak("<em>") && NoBreak("</em>")
  {
    forall c | IsLineTerminator(c) ensures c !in "<strong><em>" && c !in "</em></strong>" {
      EmphasisTagsPlain(c);
    }
  }

  /** The heading and rule tags are one line and start with `<`. */
  lemma LineRulesKeepGt()
    ensures KeepsLeads(LineM(H3), '>') && KeepsLeads(LineM(H2), '>')
    ensures KeepsLeads(LineM(H1), '>') && KeepsLeads(LineM(Rule), '>')
  {
    LineTagsLines();
    LineKeepsLeads(H3, '>');
    LineKeepsLeads(H2, '>');
    LineKeepsLeads(H1, '>');
    LineKeepsLeads(Rule, '>');
  }

  /** So are the emphasis tags. */
  lemma DelimRulesKeepGt()
    ensures KeepsLeads(DelimM(BoldItalic), '>') && KeepsLeads(DelimM(Bold), '>')
    ensures KeepsLeads(DelimM(BoldUnderscore), '>')
    ensures KeepsLeads(DelimM(Italic), '>') && KeepsLeads(DelimM(ItalicUnderscore), '>')
  {
    EmphasisTagsLines();
    DelimKeepsLeads(BoldItalic, '>');
    DelimKeepsLeads(Bold, '>');
    DelimKeepsLeads(BoldUnderscore, '>');
    DelimKeepsLeads(Italic, '>');
    DelimKeepsLeads(ItalicUnderscore, '>');
  }

  /** The heading and rule passes keep `>` off the line starts. */
  lemma LinesKeepGt(t: string)
    requires NeverLeads(t, '>', true)
    ensures NeverLeads(LinePass(Headings(t), Rule), '>', true)
  {
    LineRulesKeepGt();
    ApplyNeverLeads(t, LineM(H3), '>', true);
    ApplyNeverLeads(LinePass(t, H3), LineM(H2), '>', true);
    ApplyNeverLeads(LinePass(LinePass(t, H3), H2), LineM(H1), '>', true);
    ApplyNeverLeads(Headings(t), LineM(Rule), '>', true);
  }

  /** The five emphasis passes keep `>` off the line starts. */
  lemma EmphasisKeepsGt(t: string)
    requires NeverLeads(t, '>', true)
    ensures NeverLeads(Emphasis(t), '>', true)
  {
    DelimRulesKeepGt();
    var t1 := DelimPass(t, BoldItalic);
    var t2 := DelimPass(t1, Bold);
    var t3 := DelimPass(t2, BoldUnderscore);
    var t4 := DelimPass(t3, Italic);
    ApplyNeverLeads(t, DelimM(BoldItalic), '>', true);
    ApplyNeverLeads(t1, DelimM(Bold), '>', true);
    ApplyNeverLeads(t2, DelimM(BoldUnderscore), '>', true);
    ApplyNeverLeads(t3, DelimM(Italic), '>', true);
    ApplyNeverLeads(t4, DelimM(ItalicUnderscore), '>', true);
  }

  /** The code span, link and image passes keep `>` off the line starts. */
  lemma SpansKeepGt(t: string)
    requires NeverLeads(t, '>', true)
    ensures NeverLeads(Spans(t), '>', true)
  {
    CodeKeepsLeads('>');
    LinkKeepsLeads('>');
    ImageKeepsLeads('>');
    ApplyNeverLeads(t, CodeM, '>', true);
    ApplyNeverLeads(CodePass(t), LinkM, '>', true);
    ApplyNeverLeads(LinkPass(CodePass(t)), ImageM, '>', true);
  }

  /** js/renderer.js:34-68: whatever the markdown, the text that reaches the
      blockquote rule has no `>` at a line start (escaping removed every `>`,
      and each later tag puts its `>` inside a line), so the rule changes
      nothing. */
  lemma QuoteDead(markdown: string)
    ensures var u := Spans(Emphasis(LinePass(Headings(ExtractCodeBlocks(EscapeHtml(markdown)).0), Rule)));
      LinePass(u, Quote) == u
  {
    var t := ExtractCodeBlocks(EscapeHtml(markdown)).0;
    ExtractKeepsGt(EscapeHtml(markdown));
    LinesKeepGt(t);
    EmphasisKeepsGt(LinePass(Headings(t), Rule));
    SpansKeepGt(Emphasis(LinePass(Headings(t), Rule)));
    QuoteNeedsGt(Spans(Emphasis(LinePass(Headings(t), Rule))), true);
  }

  // ------------------------------------------------- the fate of a code block

  /** Token i after the `_(.*?)_` rule of js/renderer.js:56. */
  function Mangled(i: nat): string
  {
    "<!--CODE<em>BLOCK</em>" + NatToString(i) + "-->"
  }

  /** A line without line terminators, by its characters. */
  lemma NoBreakWithout(s: string)
    requires '\n' !in s && '\r' !in s && '\U{2028}' !in s && '\U{2029}' !in s
    ensures NoBreak(s)
  {
  }

  /** A character that the text lacks and the pattern has rules out an occurrence. */
  lemma LacksChar(s: string, p: string, c: char)
    requires c in p && c !in s
    ensures !Contains(s, p)
  {
    var k :| 0 <= k < |p| && p[k] == c;
    forall i | 0 <= i <= |s| ensures !HasAt(s, i, p) {
      HasAtChar(s, i, p, i + k);
    }
  }

  /** The number and the closing `-->` of a token hold no other character. */
  lemma TailPlain(i: nat, c: char)
    requires !IsDigit(c) && c != '-' && c != '>'
    ensures c !in NatToString(i) + "-->"
  {
    var n := NatToString(i);
    var tail := n + "-->";
    forall k | 0 <= k < |tail| ensures tail[k] != c {
      if k < |n| { assert tail[k] == n[k]; } else { assert tail[k] == "-->"[k - |n|]; }
    }
  }

  lemma TokenParts(i: nat)
    ensures Token(i) == "<!--CODE" + "_" + "BLOCK" + "_" + (NatToString(i) + "-->")
    ensures Mangled(i) == "<!--CODE" + "<em>" + "BLOCK" + "</em>" + (NatToString(i) + "-->")
  {
    var n := NatToString(i);
    assert "<!--CODE_BLOCK_" == "<!--CODE" + "_" + "BLOCK" + "_";
    assert "<!--CODE<em>BLOCK</em>" == "<!--CODE" + "<em>" + "BLOCK" + "</em>";
    SeqAssoc("<!--CODE_BLOCK_", n, "-->");
    SeqAssoc("<!--CODE<em>BLOCK</em>", n, "-->");
  }

  /** The italic rule copies the number and `-->` of a token. */
  lemma TailCopied(i: nat, b: string)
    ensures Apply(NatToString(i) + "-->" + b, DelimM(ItalicUnderscore), false) ==
      NatToString(i) + "-->" + Apply(b, DelimM(ItalicUnderscore), false)
  {
    var m := DelimM(ItalicUnderscore);
    var tail := NatToString(i) + "-->";
    var s := tail + b;
    TailPlain(i, '_');
    forall k | 0 <= k < |tail| ensures s[k] != '_' { assert s[k] == tail[k]; }
    DelimHitsAt(ItalicUnderscore);
    MissesWithout(s, |tail|, m, false, '_');
    ApplyMissesAt(s, |tail|, m, false);
    CatParts(tail, b);
    assert s[|tail| - 1] == '>';
  }

  /** The italic rule finds the two underscores of every token and rewrites
      them, so the token is gone before restoration looks for it. */
  lemma TokenMangled(i: nat, b: string, bol: bool)
    ensures Apply(Token(i) + b, DelimM(ItalicUnderscore), bol) ==
      Mangled(i) + Apply(b, DelimM(ItalicUnderscore), false)
  {
    var m := DelimM(ItalicUnderscore);
    var p, x, tail := "<!--CODE", "BLOCK", NatToString(i) + "-->";
    TokenParts(i);
    SeqAssoc(p + "_" + x + "_", tail, b);
    NoBreakWithout(x);
    DelimSpan(p, x, tail + b, ItalicUnderscore, bol);
    TailCopied(i, b);
    SeqAssoc(p + "<em>" + x + "</em>", tail, Apply(b, m, false));
  }

  /** The letters and punctuation of a token's fixed text. */
  predicate MarkupChar(c: char)
  {
    IsUpper(c) || IsLower(c) || c == '<' || c == '!' || c == '-' || c == '/' || c == '>'
  }

  lemma TokenHeadChars()
    ensures forall k :: 0 <= k < |"<!--CODE_BLOCK_"| ==> MarkupChar("<!--CODE_BLOCK_"[k]) || "<!--CODE_BLOCK_"[k] == '_'
  {
  }

  lemma MangledHeadChars()
    ensures forall k :: 0 <= k < |"<!--CODE<em>BLOCK</em>"| ==> MarkupChar("<!--CODE<em>BLOCK</em>"[k])
  {
  }

  /** A character that is none of the token's is not in it. */
  lemma TokenLacks(i: nat, c: char)
    requires !MarkupChar(c) && !IsDigit(c) && c != '_'
    ensures c !in Token(i)
  {
    TokenHeadChars();
    TailPlain(i, c);
    SeqAssoc("<!--CODE_BLOCK_", NatToString(i), "-->");
  }

  lemma MangledLacks(i: nat, c: char)
    requires !MarkupChar(c) && !IsDigit(c)
    ensures c !in Mangled(i)
  {
    MangledHeadChars();
    TailPlain(i, c);
    SeqAssoc("<!--CODE<em>BLOCK</em>", NatToString(i), "-->");
  }

  /** A token holds no `__`: its two underscores are apart. */
  lemma TokenNoDouble(i: nat)
    ensures !Contains(Token(i), "__")
  {
    var t, p, x, tail := Token(i), "<!--CODE", "BLOCK", NatToString(i) + "-->";
    TokenParts(i);
    assert t[..8] == p && t[9..14] == x && t[15..] == tail;
    forall k | 0 <= k <= |t| ensures !HasAt(t, k, "__") {
      HasAtChar(t, k, "__", k);
      HasAtChar(t, k, "__", k + 1);
      if k + 2 <= |t| {
        if k < 8 { assert t[k] == p[k]; }
        else if k == 8 { assert t[k + 1] == x[0]; }
        else if k < 14 { assert t[k] == x[k - 9]; }
        else if k == 14 { assert t[k + 1] == tail[0]; }
        else { assert t[k] == tail[k - 15]; }
      }
    }
  }

  /** A token starts with `<`, is one line, and holds neither `*` nor `__`. */
  lemma TokenChars(i: nat)
    ensures Token(i) != [] && Token(i)[0] == '<' && NoBreak(Token(i))
    ensures '*' !in Token(i) && !Contains(Token(i), "__")
  {
    TokenLacks(i, '*');
    TokenLacks(i, '\n');
    TokenLacks(i, '\r');
    TokenLacks(i, '\U{2028}');
    TokenLacks(i, '\U{2029}');
    NoBreakWithout(Token(i));
    TokenNoDouble(i);
  }

  /** A mangled token starts with `<` and is one line. */
  lemma MangledLine(i: nat)
    ensures Mangled(i) != [] && Mangled(i)[0] == '<' && NoBreak(Mangled(i)) && '\n' !in Mangled(i)
  {
    MangledLacks(i, '\n');
    MangledLacks(i, '\r');
    MangledLacks(i, '\U{2028}');
    MangledLacks(i, '\U{2029}');
    NoBreakWithout(Mangled(i));
  }

  /** A mangled token starts with `<`, is one line, and holds no backtick, `[`,
      `|`, underscore or `$`. */
  lemma MangledChars(i: nat)
    ensures Mangled(i) != [] && Mangled(i)[0] == '<' && NoBreak(Mangled(i))
    ensures '\n' !in Mangled(i) && '`' !in Mangled(i) && '[' !in Mangled(i) && '|' !in Mangled(i) && '_' !in Mangled(i)
    ensures '$' !in Mangled(i)
  {
    MangledLine(i);
    MangledLacks(i, '`');
    MangledLacks(i, '[');
    MangledLacks(i, '|');
    MangledLacks(i, '_');
    MangledLacks(i, '$');
  }

  /** The heading and rule passes keep a line that starts with `<`. */
  lemma LineRulesKeep(t: string)
    requires t != [] && t[0] == '<' && NoBreak(t)
    ensures LinePass(Headings(t), Rule) == t
  {
    PassLine(t, H3);
    OnLineMiss(t, H3, 0);
    PassLine(t, H2);
    OnLineMiss(t, H2, 0);
    PassLine(t, H1);
    OnLineMiss(t, H1, 0);
    PassLine(t, Rule);
    OnLineMiss(t, Rule, 0);
  }

  /** The passes before the `_` rule keep a text without `*` and `__`. */
  lemma BoldKeep(t: string)
    requires '*' !in t && !Contains(t, "__")
    ensures DelimPass(DelimPass(DelimPass(DelimPass(t, BoldItalic), Bold), BoldUnderscore), Italic) == t
  {
    DelimHitsAt(BoldItalic);
    ApplyWithout(t, DelimM(BoldItalic), true, '*');
    DelimHitsAt(Bold);
    ApplyWithout(t, DelimM(Bold), true, '*');
    DelimHitsPrefix(BoldUnderscore);
    ApplyWithoutPrefix(t, DelimM(BoldUnderscore), true, "__");
    DelimHitsAt(Italic);
    ApplyWithout(t, DelimM(Italic), true, '*');
  }

  /** The span and quote passes keep a line that starts with `<` and holds no
      backtick and no `[`. */
  lemma SpansKeep(t: string)
    requires t != [] && t[0] == '<' && NoBreak(t) && '`' !in t && '[' !in t
    ensures LinePass(Spans(t), Quote) == t
  {
    CodeHitsAt();
    ApplyWithout(t, CodeM, true, '`');
    LinkHitsAt();
    ApplyWithout(t, LinkM, true, '[');
    ImageHitsPrefix();
    LacksChar(t, "![", '[');
    ApplyWithoutPrefix(t, ImageM, true, "![");
    PassLine(t, Quote);
    OnLineMiss(t, Quote, 0);
  }

  /** The list, task, table and paragraph passes keep such a line too. */
  lemma BlockPassesKeep(t: string)
    requires t != [] && t[0] == '<' && '\n' !in t && '[' !in t && '|' !in t
    ensures Paragraphs(Tables.ConvertTables(Tasks(Lists.ListsOf(t)))) == t
  {
    SplitNone(t, '\n');
    Lists.ClassifyPlainHead(t);
    Lists.NoListsUnchanged(t);
    LineHitsPrefix(TaskOpen);
    LacksChar(t, TaskOpen.prefix, '[');
    ApplyWithoutPrefix(t, LineM(TaskOpen), true, TaskOpen.prefix);
    LineHitsPrefix(TaskDone);
    LacksChar(t, TaskDone.prefix, '[');
    ApplyWithoutPrefix(t, LineM(TaskDone), true, TaskDone.prefix);
    Tables.NoPipeNoTable(t);
    LacksChar(t, "\n\n", '\n');
    ParagraphsSingle(t);
  }

  /** Between extraction and restoration, a token alone becomes the mangled token. */
  lemma TokenThroughPasses(i: nat)
    ensures Passes(Token(i)) == Mangled(i)
  {
    var t, u := Token(i), Mangled(i);
    TokenChars(i);
    LineRulesKeep(t);
    BoldKeep(t);
    TokenMangled(i, [], true);
    assert t + [] == t && u + [] == u;
    MangledChars(i);
    SpansKeep(u);
    BlockPassesKeep(u);
  }

  /** Escaping goes through the fences of a block. */
  lemma EscapeFenced(x: string)
    requires '`' !in x
    ensures EscapeHtml(Fence + x + Fence) == Fence + EscapeHtml(x) + Fence && '`' !in EscapeHtml(x)
  {
    assert EscapeHtml(Fence) == Fence by {
      forall i | 0 <= i < |Fence| ensures !Special(Fence[i]) { }
    }
    EscapeAppend(Fence + x, Fence);
    EscapeAppend(Fence, x);
    EscapeWithout(x, '`');
  }

  /** One fenced block is extracted as token 0. */
  lemma ExtractOne(y: string)
    requires '`' !in y
    ensures ExtractCodeBlocks(Fence + y + Fence).0 == Token(0)
    ensures |ExtractCodeBlocks(Fence + y + Fence).1| == 1
  {
    var s := Fence + y + Fence;
    assert s == Fence + y + Fence + [];
    NoBacktickClosed(y);
    FencedOpen(s, Fence, y, []);
    var ps := Fenced(s, Fence);
    assert ps == [Block(y)];
    assert Layout(ps, [], 0) == Token(0) + Layout([], [], 1);
    assert Token(0) + [] == Token(0);
    assert ps[1..] == [];
    assert BlockCount(ps) == 1;
  }

  /** A text that is one fenced block: whatever the block holds, the output is
      the mangled token, so the block is never restored (js/renderer.js:56, 95). */
  lemma FenceNotRestored(x: string)
    requires '`' !in x
    ensures MarkdownOf(Fence + x + Fence) == Mangled(0)
  {
    var s := Fence + EscapeHtml(x) + Fence;
    EscapeFenced(x);
    ExtractOne(EscapeHtml(x));
    var e := ExtractCodeBlocks(s);
    TokenThroughPasses(0);
    BlocksFenced(s);
    TokenParts(0);
    assert '_' in Token(0);
    MangledChars(0);
    LacksChar(Mangled(0), Token(0), '_');
    assert RestoreUpTo(Mangled(0), e.1, 1) == ReplaceFirst(Mangled(0), Token(0), CodeHtml(e.1[0]));
  }

  // -------------------------------------------------------------------- render

  const Wrapper: string := "<div class=\"markdown-content\">"

  /** What `render` returns; `rand` stands for the draws of `Math.random`. */
  function RenderOf(markdown: string, rand: nat -> string): string
  {
    var html := MarkdownOf(Wiki.ProcessWikiLinks(markdown));
    Wrapper + Svg.ProcessBlocks(Chem.ProcessBlocks(MathBlocks.ProcessBlocks(Mermaid.ProcessBlocks(html, rand)))) + "</div>"
  }

  /** js/renderer.js:7-30, stage by stage. */
  method Render(markdown: string, rand: nat -> string) returns (html: string)
    ensures html == RenderOf(markdown, rand)
  {
    html := Wiki.ProcessWikiLinks(markdown);
    html := ConvertMarkdown(html);
    html := Mermaid.ProcessBlocks(html, rand);
    html := MathBlocks.ProcessBlocks(html);
    html := Chem.ProcessBlocks(html);
    html := Svg.ProcessBlocks(html);
    html := Wrapper + html + "</div>";
  }

  /** The wiki pass changes nothing, so the text reaches `convertMarkdown` as written. */
  lemma RenderIsMarkdown(markdown: string, rand: nat -> string)
    ensures RenderOf(markdown, rand) ==
      Wrapper + Svg.ProcessBlocks(Chem.ProcessBlocks(MathBlocks.ProcessBlocks(Mermaid.ProcessBlocks(MarkdownOf(markdown), rand)))) + "</div>"
  {
    Wiki.ProcessWikiLinksIdentity(markdown);
  }

  /** Text without a backtick, `$` or `[` passes the four handlers unchanged. */
  lemma HandlersKeep(u: string, rand: nat -> string)
    requires '`' !in u && '$' !in u && '[' !in u
    ensures Svg.ProcessBlocks(Chem.ProcessBlocks(MathBlocks.ProcessBlocks(Mermaid.ProcessBlocks(u, rand)))) == u
  {
    LacksChar(u, Mermaid.Open, '`');
    Mermaid.NoDiagram(u, rand);
    MathBlocks.NoDollarUnchanged(u);
    Chem.NoBracketUnchanged(u);
    LacksChar(u, Svg.Open, '`');
    Svg.NoSvgBlock(u);
  }

  /** A "```mermaid" diagram never reaches the diagram handler: the code-block
      pass has taken it, and what is left of its token passes the four handlers
      unchanged. */
  lemma MermaidNeverRendered(x: string, rand: nat -> string)
    requires '`' !in x
    ensures RenderOf(Mermaid.Open + x + Fence, rand) == Wrapper + Mangled(0) + "</div>"
  {
    var y := "mermaid\n" + x;
    assert Mermaid.Open == Fence + "mermaid\n";
    SeqAssoc(Fence, "mermaid\n", x);
    assert '`' !in y;
    RenderIsMarkdown(Mermaid.Open + x + Fence, rand);
    FenceNotRestored(y);
    MangledChars(0);
    HandlersKeep(Mangled(0), rand);
  }

  lemma Regroup<T>(p: seq<T>, q: seq<T>, w: seq<T>, r: seq<T>, z: seq<T>)
    ensures (p + q) + w + (r + z) == p + (q + w + r) + z
  {
  }

  /** `<code>` and `</code>` around w, cut after `<code` and before `/code>`. */
  lemma CodeTags(w: string)
    ensures "<code>" + w + "</code>" == "<code" + (['>'] + w + ['<']) + "/code>"
  {
    assert "<code>" == "<code" + ['>'];
    assert "</code>" == ['<'] + "/code>";
    Regroup("<code", ['>'], w, ['<'], "/code>");
  }

  /** The inline-code rule on one backticked span. */
  lemma CodeOfSpan(w: string)
    requires w != [] && '`' !in w
    ensures CodePass("`" + w + "`") == "<code>" + w + "</code>"
  {
    CodeSpan([], w, [], true);
    assert [] + "`" + w + "`" + [] == "`" + w + "`";
    assert [] + "<code>" + w + "</code>" + [] == "<code>" + w + "</code>";
  }

  /** `<code>$c$</code>` holds no `$$`. */
  lemma NoDoubleDollar(c: string)
    requires c != [] && forall i :: 0 <= i < |c| ==> MathBlocks.InlineChar(c[i])
    ensures var s := "<code>" + ("$" + c + "$") + "</code>";
      forall k :: 0 <= k < |s| - 1 ==> !(s[k] == '$' && s[k + 1] == '$')
  {
    var w := "$" + c + "$";
    var s := "<code>" + w + "</code>";
    forall k | 0 <= k < |s| - 1 ensures !(s[k] == '$' && s[k + 1] == '$') {
      if k < 6 { } else if k < 6 + |w| - 1 {
        assert s[k + 1] == w[k + 1 - 6];
        if k > 6 { assert s[k] == c[k - 7]; }
        else { assert s[k + 1] == c[0]; }
      }
    }
  }

  /** The inline rule on a `<code>` element that holds `$c$`. */
  lemma InlineOnCode(c: string)
    requires c != [] && forall i :: 0 <= i < |c| ==> MathBlocks.InlineChar(c[i])
    ensures MathBlocks.InlinePass("<code>" + ("$" + c + "$") + "</code>") == "<code>" + MathBlocks.InlineHtml(c) + "</code>"
  {
    var w := "$" + c + "$";
    var s := "<code>" + w + "</code>";
    var a, z := "<code", "/code>";
    CodeTags(w);
    MathBlocks.InlineInText(a, '>', c, '<', z, true);
    assert MathBlocks.NoInlineOpen(z);
    MathBlocks.InlineNoOpen(z, false);
    CodeTags(MathBlocks.InlineHtml(c));
    assert MathBlocks.StartMatch(s) == Miss;
  }

  /** The math handler on a `<code>` element that holds `$c$`. */
  lemma MathOnCode(c: string)
    requires c != [] && forall i :: 0 <= i < |c| ==> MathBlocks.InlineChar(c[i])
    ensures MathBlocks.ProcessBlocks("<code>" + ("$" + c + "$") + "</code>") == "<code>" + MathBlocks.InlineHtml(c) + "</code>"
  {
    NoDoubleDollar(c);
    MathBlocks.DisplayNoPair("<code>" + ("$" + c + "$") + "</code>", true);
    InlineOnCode(c);
  }

  /** Math inside inline code is still typeset: the math handler runs on the
      `<code>` element that `convertMarkdown` made (js/renderer.js:20, 59). */
  lemma MathInsideCode(c: string)
    requires c != [] && '`' !in c && forall i :: 0 <= i < |c| ==> MathBlocks.InlineChar(c[i])
    ensures MathBlocks.ProcessBlocks(CodePass("`" + ("$" + c + "$") + "`")) == "<code>" + MathBlocks.InlineHtml(c) + "</code>"
  {
    assert '`' !in "$" + c + "$";
    CodeOfSpan("$" + c + "$");
    MathOnCode(c);
  }
}
