/**
 * Fenced blocks. `Fenced` is the lazy, global scan of a fence regular
 * expression: at each position it tries the opener, and on success takes
 * everything up to the FIRST following "```"; with no closing fence the
 * position is plain text and the scan moves one character on. It serves the
 * extraction in `Renderer.convertMarkdown` (js/renderer.js:38, opener "```")
 * and the mermaid and svg handlers (openers "```mermaid\n" and "```svg\n").
 *
 * Extraction replaces the i-th block by the token `<!--CODE_BLOCK_i-->` and
 * records the whole match; restoration (js/renderer.js:89-96) replaces the
 * first occurrence of each token, in order, by the block's `<pre><code>` markup.
 */
module CodeBlocks {
  import opened Strings

  const Fence: string := "```"

  /** One step of a scan: a character left as it is, or a matched block with the
      text between the opener and the closing fence. */
  datatype Piece = Char(c: char) | Block(inner: string)

  /** The text a piece was scanned from. */
  function PieceText(p: Piece, open: string): string
  {
    match p
    case Char(c) => [c]
    case Block(x) => open + x + Fence
  }

  function Unparse(ps: seq<Piece>, open: string): string
  {
    if ps == [] then [] else PieceText(ps[0], open) + Unparse(ps[1..], open)
  }

  /** Matches are lazy: no block holds a closing fence. */
  predicate Lazy(ps: seq<Piece>)
  {
    forall k :: 0 <= k < |ps| && ps[k].Block? ==> !Contains(ps[k].inner, Fence)
  }

  /** The opener at the start of s with a closing fence somewhere after it:
      exactly where the pattern matches. */
  predicate Opens(s: string, open: string)
  {
    StartsWith(s, open) && Contains(s[|open|..], Fence)
  }

  /** No character is left as text where a match starts. */
  predicate Eager(ps: seq<Piece>, open: string)
  {
    forall k :: 0 <= k < |ps| && ps[k].Char? ==> !Opens(Unparse(ps[k..], open), open)
  }

  /** A block body closed by the first fence after the opener: no fence lies
      inside it or straddles its end. */
  predicate ClosedFirst(x: string) { !Contains(x + "``", Fence) }

  predicate FirstCloses(ps: seq<Piece>)
  {
    forall k :: 0 <= k < |ps| && ps[k].Block? ==> ClosedFirst(ps[k].inner)
  }

  /** The global scan of `open` + lazy `[\s\S]*?` + "```". The pieces, laid out
      again, are exactly the input: matches are left to right and do not overlap,
      and text outside them is kept. */
  function Fenced(s: string, open: string): (ps: seq<Piece>)
    ensures Unparse(ps, open) == s
    ensures Lazy(ps)
    decreases |s|
  {
    if s == [] then []
    else if StartsWith(s, open) && IndexOf(s[|open|..], Fence).Some? then
      var j := IndexOf(s[|open|..], Fence).value;
      var x := s[|open|..|open| + j];
      BlockStep(s, open, j);
      Cons(Block(x), Fenced(s[|open| + j + 3..], open), open)
    else
      assert s == [s[0]] + s[1..];
      Cons(Char(s[0]), Fenced(s[1..], open), open)
  }

  /** A match of the opener at the start of s, closed by the first fence after it. */
  lemma BlockStep(s: string, open: string, j: nat)
    requires StartsWith(s, open) && IndexOf(s[|open|..], Fence) == Some(j)
    ensures |open| + j + 3 <= |s|
    ensures !Contains(s[|open|..|open| + j], Fence)
    ensures s == open + s[|open|..|open| + j] + Fence + s[|open| + j + 3..]
  {
    var x := s[|open|..|open| + j];
    assert x == s[|open|..][..j];
    forall k | 0 <= k <= |x| ensures !HasAt(x, k, Fence) { HasAtPrefix(s[|open|..], j, k, Fence); }
    assert s[..|open|] == open;
    assert s[|open|..][j..j + 3] == Fence;
  }

  /** The body of that match is closed first. */
  lemma BlockClosed(s: string, open: string, j: nat)
    requires StartsWith(s, open) && IndexOf(s[|open|..], Fence) == Some(j)
    ensures |open| + j + 3 <= |s| && ClosedFirst(s[|open|..|open| + j])
  {
    var x := s[|open|..|open| + j];
    var t := s[|open|..];
    assert x == t[..j];
    assert t[j..j + 3] == Fence;
    assert t[j..j + 2] == "``" by { assert t[j..j + 2] == t[j..j + 3][..2]; }
    assert t[..j + 2] == t[..j] + t[j..j + 2];
    forall k | 0 <= k <= |x| + 2 ensures !HasAt(x + "``", k, Fence) { HasAtPrefix(t, j + 2, k, Fence); }
  }

  /** One piece in front of a lazy scan. */
  function Cons(p: Piece, rest: seq<Piece>, open: string): (ps: seq<Piece>)
    requires Lazy(rest)
    requires p.Block? ==> !Contains(p.inner, Fence)
    ensures ps == [p] + rest
    ensures Unparse(ps, open) == PieceText(p, open) + Unparse(rest, open)
    ensures Lazy(ps)
  {
    var ps := [p] + rest;
    assert ps[1..] == rest;
    assert forall k :: 1 <= k < |ps| ==> ps[k] == rest[k - 1];
    ps
  }

  /** A match is taken wherever one starts, and it ends at the first closing
      fence; with `Fenced`'s own contract, `FencedUnique` shows that these facts
      pin the scan down. */
  lemma {:induction false} FencedScan(s: string, open: string)
    ensures Eager(Fenced(s, open), open) && FirstCloses(Fenced(s, open))
    decreases |s|
  {
    var ps := Fenced(s, open);
    if s != [] {
      if StartsWith(s, open) && IndexOf(s[|open|..], Fence).Some? {
        var j := IndexOf(s[|open|..], Fence).value;
        var x := s[|open|..|open| + j];
        var z := s[|open| + j + 3..];
        BlockStep(s, open, j);
        BlockClosed(s, open, j);
        FencedScan(z, open);
        assert ps == [Block(x)] + Fenced(z, open);
        EagerCons(Block(x), Fenced(z, open), open);
        FirstClosesCons(Block(x), Fenced(z, open));
      } else {
        var z := s[1..];
        FencedScan(z, open);
        assert ps == [Char(s[0])] + Fenced(z, open);
        assert s == [s[0]] + z;
        assert !Opens(s, open);
        EagerCons(Char(s[0]), Fenced(z, open), open);
        FirstClosesCons(Char(s[0]), Fenced(z, open));
      }
    }
  }

  lemma FirstClosesCons(p: Piece, rest: seq<Piece>)
    requires FirstCloses(rest)
    requires p.Block? ==> ClosedFirst(p.inner)
    ensures FirstCloses([p] + rest)
  {
    var ps := [p] + rest;
    assert forall k :: 1 <= k < |ps| ==> ps[k] == rest[k - 1];
  }

  lemma EagerCons(p: Piece, rest: seq<Piece>, open: string)
    requires Eager(rest, open)
    requires p.Char? ==> !Opens(PieceText(p, open) + Unparse(rest, open), open)
    ensures Eager([p] + rest, open)
  {
    var ps := [p] + rest;
    assert ps[1..] == rest;
    forall k | 0 <= k < |ps| && ps[k].Char? ensures !Opens(Unparse(ps[k..], open), open) {
      if k == 0 {
        assert ps[0..] == ps;
      } else {
        assert ps[k..] == rest[k - 1..];
        assert ps[k] == rest[k - 1];
      }
    }
  }

  function BlockCount(ps: seq<Piece>): nat
  {
    if ps == [] then 0 else (if ps[0].Block? then 1 else 0) + BlockCount(ps[1..])
  }

  /** The inner texts of the blocks, in order. */
  function Inners(ps: seq<Piece>): (r: seq<string>)
    ensures |r| == BlockCount(ps)
  {
    if ps == [] then []
    else if ps[0].Block? then [ps[0].inner] + Inners(ps[1..])
    else Inners(ps[1..])
  }

  /** `<!--CODE_BLOCK_i-->` (js/renderer.js:40). */
  function Token(i: nat): string
  {
    "<!--CODE_BLOCK_" + NatToString(i) + "-->"
  }

  /** The text of a scan in which the blocks numbered n, n+1, ... are replaced by
      the markups in hs, and, once hs runs out, by their tokens. */
  function Layout(ps: seq<Piece>, hs: seq<string>, n: nat): string
  {
    if ps == [] then []
    else match ps[0]
      case Char(c) => [c] + Layout(ps[1..], hs, n)
      case Block(x) => (if n < |hs| then hs[n] else Token(n)) + Layout(ps[1..], hs, n + 1)
  }

  /** js/renderer.js:37-41: the text with block i replaced by token i, and
      `codeBlocks`, whose i-th entry is the i-th whole match. */
  function ExtractCodeBlocks(s: string): (r: (string, seq<string>))
    ensures |r.1| == BlockCount(Fenced(s, Fence))
    ensures forall i :: 0 <= i < |r.1| ==>
      r.1[i] == Fence + Inners(Fenced(s, Fence))[i] + Fence && !Contains(Inners(Fenced(s, Fence))[i], Fence)
  {
    var ps := Fenced(s, Fence);
    LazyInners(ps);
    (Layout(ps, [], 0), Matches(ps))
  }

  /** The whole matches of a scan, in order. */
  function Matches(ps: seq<Piece>): (r: seq<string>)
    ensures |r| == BlockCount(ps)
    ensures forall i :: 0 <= i < |r| ==> r[i] == Fence + Inners(ps)[i] + Fence
  {
    seq(BlockCount(ps), i requires 0 <= i < BlockCount(ps) => Fence + Inners(ps)[i] + Fence)
  }

  lemma {:induction false} LazyInners(ps: seq<Piece>)
    requires Lazy(ps)
    ensures forall i :: 0 <= i < |Inners(ps)| ==> !Contains(Inners(ps)[i], Fence)
  {
    if ps != [] {
      assert Lazy(ps[1..]) by {
        forall k | 0 <= k < |ps[1..]| && ps[1..][k].Block? ensures !Contains(ps[1..][k].inner, Fence) {
          assert ps[1..][k] == ps[k + 1];
        }
      }
      LazyInners(ps[1..]);
    }
  }

  /** Length of the longest prefix of ASCII lower-case letters (`[a-z]*`). */
  function LowerRun(s: string): (n: nat)
    ensures n <= |s|
    ensures forall i :: 0 <= i < n ==> IsLower(s[i])
    ensures n < |s| ==> !IsLower(s[n])
  {
    if s != [] && IsLower(s[0]) then 1 + LowerRun(s[1..]) else 0
  }

  /** `block.match(/```([a-z]*)/)[1] || ''` (js/renderer.js:90). */
  function Lang(block: string): (r: string)
    requires StartsWith(block, Fence)
  {
    block[3..3 + LowerRun(block[3..])]
  }

  /** `block.replace(/```[a-z]*\n?/, '').replace(/```$/, '')` (js/renderer.js:91). */
  function Content(block: string): string
    requires StartsWith(block, Fence)
  {
    var after := block[3 + |Lang(block)|..];
    var body := if after != [] && after[0] == '\n' then after[1..] else after;
    if |body| >= 3 && body[|body| - 3..] == Fence then body[..|body| - 3] else body
  }

  /** js/renderer.js:92-94. The content is trimmed and is not escaped a second time. */
  function CodeHtml(block: string): string
    requires StartsWith(block, Fence)
  {
    var lang := Lang(block);
    if lang != [] then "<pre><code class=\"language-" + lang + "\">" + Trim(Content(block)) + "</code></pre>"
    else "<pre><code>" + Trim(Content(block)) + "</code></pre>"
  }


  /** The body of an extracted block: its inner text without the language tag and
      without the one newline that may follow the tag. */
  function Body(inner: string): string
  {
    var rest := inner[LowerRun(inner)..];
    if rest != [] && rest[0] == '\n' then rest[1..] else rest
  }

  /** What restoration emits for an extracted block "```" + inner + "```": a
      `language-` class exactly when the opener carries an `[a-z]+` tag, and the
      trimmed body, character for character. */
  lemma CodeHtmlOfBlock(inner: string)
    requires !Contains(inner, Fence)
    ensures StartsWith(Fence + inner + Fence, Fence)
    ensures var tag := inner[..LowerRun(inner)];
      CodeHtml(Fence + inner + Fence) ==
        if tag != [] then "<pre><code class=\"language-" + tag + "\">" + Trim(Body(inner)) + "</code></pre>"
        else "<pre><code>" + Trim(Body(inner)) + "</code></pre>"
  {
    LangOfBlock(inner);
    ContentOfBlock(inner);
  }

  lemma LangOfBlock(inner: string)
    ensures StartsWith(Fence + inner + Fence, Fence)
    ensures Lang(Fence + inner + Fence) == inner[..LowerRun(inner)]
  {
    var block := Fence + inner + Fence;
    BlockParts(inner);
    LowerRunStops(inner, Fence);
    var n := LowerRun(inner);
    SliceDrop(block, 3, 3 + n);
    TakeCat(inner, Fence, n);
  }

  lemma BlockParts(inner: string)
    ensures var block := Fence + inner + Fence;
      block[..3] == Fence && block[3..] == inner + Fence
  {
    SeqAssoc(Fence, inner, Fence);
    CatParts(Fence, inner + Fence);
  }

  lemma ContentOfBlock(inner: string)
    ensures StartsWith(Fence + inner + Fence, Fence)
    ensures Content(Fence + inner + Fence) == Body(inner)
  {
    var block := Fence + inner + Fence;
    LangOfBlock(inner);
    BlockParts(inner);
    var n := LowerRun(inner);
    DropCat(Fence, inner + Fence, 3 + n);
    DropCatLeft(inner, Fence, n);
    assert |Lang(block)| == n;
    ContentWhen(block, inner[n..]);
  }

  /** The text after the tag is rest and the closing fence: the content is
      rest without the one newline that may lead it. */
  lemma ContentWhen(block: string, rest: string)
    requires StartsWith(block, Fence) && block[3 + |Lang(block)|..] == rest + Fence
    ensures Content(block) == if rest != [] && rest[0] == '\n' then rest[1..] else rest
  {
    var body := if rest != [] && rest[0] == '\n' then rest[1..] else rest;
    if rest != [] && rest[0] == '\n' {
      DropCatLeft(rest, Fence, 1);
    }
    CatParts(body, Fence);
  }

  lemma {:induction false} LowerRunStops(s: string, t: string)
    requires t != [] && !IsLower(t[0])
    ensures LowerRun(s + t) == LowerRun(s)
    decreases |s|
  {
    if s == [] {
      assert s + t == t;
    } else {
      assert (s + t)[0] == s[0] && (s + t)[1..] == s[1..] + t;
      LowerRunStops(s[1..], t);
    }
  }

  /** The fold of js/renderer.js:89-96 over the first n blocks. */
  function RestoreUpTo(text: string, blocks: seq<string>, n: nat): string
    requires n <= |blocks|
    requires forall i :: 0 <= i < |blocks| ==> StartsWith(blocks[i], Fence)
  {
    if n == 0 then text
    else ReplaceFirst(RestoreUpTo(text, blocks, n - 1), Token(n - 1), CodeHtml(blocks[n - 1]))
  }

  /** js/renderer.js:89-96, as a loop over `codeBlocks`. */
  method RestoreCodeBlocks(text: string, blocks: seq<string>) returns (r: string)
    requires forall i :: 0 <= i < |blocks| ==> StartsWith(blocks[i], Fence)
    ensures r == RestoreUpTo(text, blocks, |blocks|)
  {
    r := text;
    var i := 0;
    while i < |blocks|
      invariant 0 <= i <= |blocks|
      invariant r == RestoreUpTo(text, blocks, i)
    {
      r := ReplaceFirst(r, Token(i), CodeHtml(blocks[i]));
      i := i + 1;
    }
  }

  /** Restoration silently does nothing when no token is left in the text. */
  lemma {:induction false} RestoreWithoutTokens(text: string, blocks: seq<string>, n: nat)
    requires n <= |blocks|
    requires forall i :: 0 <= i < |blocks| ==> StartsWith(blocks[i], Fence)
    requires forall i :: 0 <= i < n ==> !Contains(text, Token(i))
    ensures RestoreUpTo(text, blocks, n) == text
  {
    if n > 0 {
      RestoreWithoutTokens(text, blocks, n - 1);
      assert !Contains(text, Token(n - 1));
    }
  }

  /** No piece holds a `<` or a `$`. */
  predicate Plain(ps: seq<Piece>)
  {
    ps == [] ||
    ((if ps[0].Char? then ps[0].c != '<' && ps[0].c != '$' else '<' !in ps[0].inner && '$' !in ps[0].inner) && Plain(ps[1..]))
  }

  lemma {:induction false} PlainOf(ps: seq<Piece>, open: string)
    requires '<' !in Unparse(ps, open) && '$' !in Unparse(ps, open)
    ensures Plain(ps)
  {
    if ps != [] {
      var t := PieceText(ps[0], open);
      assert Unparse(ps, open) == t + Unparse(ps[1..], open);
      assert forall c :: c in t ==> c in Unparse(ps, open);
      assert forall c :: c in Unparse(ps[1..], open) ==> c in Unparse(ps, open);
      if ps[0].Block? {
        assert t == open + ps[0].inner + Fence;
        assert forall c :: c in ps[0].inner ==> c in t;
      }
      PlainOf(ps[1..], open);
    }
  }

  /** A text in which every `<` is followed by something other than `!`, so that
      no token can start inside it. */
  predicate Safe(a: string)
  {
    forall p :: 0 <= p < |a| && a[p] == '<' ==> p + 1 < |a| && a[p + 1] != '!'
  }

  lemma SafeAppend(a: string, b: string)
    requires Safe(a) && Safe(b)
    ensures Safe(a + b)
  {
    forall p | 0 <= p < |a + b| && (a + b)[p] == '<' ensures p + 1 < |a + b| && (a + b)[p + 1] != '!' {
      if p < |a| { assert a[p] == '<'; } else { assert b[p - |a|] == '<'; }
    }
  }

  lemma TagsSafe()
    ensures Safe("<pre><code class=\"language-") && Safe("\">") && Safe("<pre><code>") && Safe("</code></pre>")
  {
    var a := "<pre><code class=\"language-";
    assert forall p :: 0 <= p < |a| && a[p] == '<' ==> p == 0 || p == 5;
  }

  lemma SafeNoLt(a: string)
    requires '<' !in a
    ensures Safe(a)
  {
  }

  /** The markup of a block without `<` has no `<!` either. */
  lemma CodeHtmlSafe(block: string)
    requires StartsWith(block, Fence) && '<' !in block
    ensures Safe(CodeHtml(block))
  {
    var lang := Lang(block);
    var c := Trim(Content(block));
    TrimChars(Content(block));
    ContentChars(block);
    assert forall ch :: ch in lang ==> ch in block;
    SafeNoLt(lang);
    SafeNoLt(c);
    TagsSafe();
    if lang != [] {
      var front := "<pre><code class=\"language-";
      SafeAppend(front, lang);
      SafeAppend(front + lang, "\">");
      SafeAppend(front + lang + "\">", c);
      SafeAppend(front + lang + "\">" + c, "</code></pre>");
    } else {
      SafeAppend("<pre><code>", c);
      SafeAppend("<pre><code>" + c, "</code></pre>");
    }
  }

  lemma ContentChars(block: string)
    requires StartsWith(block, Fence)
    ensures forall ch :: ch in Content(block) ==> ch in block
  {
    var after := block[3 + |Lang(block)|..];
    assert forall ch :: ch in after ==> ch in block;
    var body := if after != [] && after[0] == '\n' then after[1..] else after;
    assert forall ch :: ch in body ==> ch in after;
  }

  lemma HasAtHead(s: string, k: nat, t: string)
    requires |t| >= 2
    ensures HasAt(s, k, t) ==> k + 1 < |s| && s[k] == t[0] && s[k + 1] == t[1]
  {
    if HasAt(s, k, t) { assert s[k..k + |t|][0] == s[k] && s[k..k + |t|][1] == s[k + 1]; }
  }

  lemma FirstAtUnique(s: string, i: nat, j: nat, t: string)
    requires FirstAt(s, i, t) && FirstAt(s, j, t)
    ensures i == j
  {
  }

  /** A token placed after a safe text is found there first. */
  lemma ReplaceAfterSafe(p: string, t: string, q: string, h: string)
    requires Safe(p) && |t| >= 2 && t[0] == '<' && t[1] == '!' && '$' !in h
    ensures ReplaceFirst(p + t + q, t, h) == p + h + q
  {
    var s := p + t + q;
    assert HasAt(s, |p|, t) by { assert s[|p|..|p| + |t|] == t; }
    forall k | 0 <= k < |p| ensures !HasAt(s, k, t) {
      HasAtHead(s, k, t);
      assert s[k] == p[k];
      assert k + 1 < |p| ==> s[k + 1] == p[k + 1];
    }
    assert FirstAt(s, |p|, t);
    assert Contains(s, t);
    var i :| 0 <= i <= |s| - |t| && FirstAt(s, i, t) && ReplaceFirst(s, t, h) == s[..i] + Expand(h, t, s[..i], s[i + |t|..]) + s[i + |t|..];
    FirstAtUnique(s, i, |p|, t);
    assert s[..|p|] == p && s[|p| + |t|..] == q;
    ExpandPlain(h, t, p, q);
  }

  lemma {:induction false} LayoutTokensOnly(ps: seq<Piece>, hs: seq<string>, hs': seq<string>, n: nat)
    requires |hs| <= n && |hs'| <= n
    ensures Layout(ps, hs, n) == Layout(ps, hs', n)
  {
    if ps != [] { LayoutTokensOnly(ps[1..], hs, hs', if ps[0].Block? then n + 1 else n); }
  }

  /** The text around the token of block |hs|, the first one not yet restored. */
  lemma {:induction false} LayoutAround(ps: seq<Piece>, hs: seq<string>, h: string, n: nat) returns (p: string, q: string)
    requires Plain(ps) && n <= |hs| < n + BlockCount(ps)
    requires forall k :: 0 <= k < |hs| ==> Safe(hs[k])
    ensures Safe(p)
    ensures Layout(ps, hs, n) == p + Token(|hs|) + q
    ensures Layout(ps, hs + [h], n) == p + h + q
    decreases |ps|
  {
    var rest := ps[1..];
    var t := if n < |hs| then hs[n] else Token(n);
    var t' := if n < |hs| then hs[n] else h;
    assert Layout(ps, hs, n) == (if ps[0].Block? then t else [ps[0].c]) + Layout(rest, hs, if ps[0].Block? then n + 1 else n);
    assert (hs + [h])[..|hs|] == hs;
    if ps[0].Block? && n == |hs| {
      assert Layout(ps, hs + [h], n) == h + Layout(rest, hs + [h], n + 1);
      LayoutTokensOnly(rest, hs, hs + [h], n + 1);
      p, q := [], Layout(rest, hs, n + 1);
      EmptyFront(Token(|hs|), q);
      EmptyFront(h, q);
    } else {
      var f := if ps[0].Block? then hs[n] else [ps[0].c];
      var m := if ps[0].Block? then n + 1 else n;
      assert Layout(ps, hs, n) == f + Layout(rest, hs, m);
      assert Layout(ps, hs + [h], n) == f + Layout(rest, hs + [h], m);
      var p', q' := LayoutAround(rest, hs, h, m);
      assert Safe(f) by {
        if ps[0].Char? { assert f == [ps[0].c]; }
      }
      SafeAppend(f, p');
      Shift(Layout(ps, hs, n), f, Layout(rest, hs, m), p', Token(|hs|), q');
      Shift(Layout(ps, hs + [h], n), f, Layout(rest, hs + [h], m), p', h, q');
      p, q := f + p', q';
    }
  }


  lemma TokenHead(i: nat)
    ensures |Token(i)| >= 2 && Token(i)[0] == '<' && Token(i)[1] == '!'
  {
  }

  lemma EmptyFront(t: string, q: string)
    ensures [] + t + q == t + q
  {
  }

  lemma Shift(whole: string, h: string, r: string, p: string, t: string, q: string)
    requires whole == h + r && r == p + t + q
    ensures whole == (h + p) + t + q
  {
  }



  /** The markups restoration emits for a list of whole matches, in order. */
  function Htmls(ms: seq<string>): (r: seq<string>)
    requires forall i :: 0 <= i < |ms| ==> StartsWith(ms[i], Fence)
    ensures |r| == |ms| && forall i :: 0 <= i < |ms| ==> r[i] == CodeHtml(ms[i])
  {
    seq(|ms|, i requires 0 <= i < |ms| => CodeHtml(ms[i]))
  }

  lemma MatchesFenced(ps: seq<Piece>)
    ensures forall i :: 0 <= i < |Matches(ps)| ==> StartsWith(Matches(ps)[i], Fence)
  {
    var ms := Matches(ps);
    forall i | 0 <= i < |ms| ensures StartsWith(ms[i], Fence) {
      assert ms[i][..3] == Fence;
    }
  }

  lemma {:induction false} PlainInners(ps: seq<Piece>)
    requires Plain(ps)
    ensures forall i :: 0 <= i < |Inners(ps)| ==> '<' !in Inners(ps)[i] && '$' !in Inners(ps)[i]
  {
    if ps != [] {
      PlainInners(ps[1..]);
      if ps[0].Block? {
        var r := Inners(ps[1..]);
        assert Inners(ps) == [ps[0].inner] + r;
        assert forall i :: 1 <= i < |Inners(ps)| ==> Inners(ps)[i] == r[i - 1];
      }
    }
  }

  lemma SafeHtmls(ps: seq<Piece>)
    requires Plain(ps)
    ensures forall i :: 0 <= i < |Matches(ps)| ==> StartsWith(Matches(ps)[i], Fence)
    ensures forall i :: 0 <= i < |Matches(ps)| ==> Safe(Htmls(Matches(ps))[i]) && '$' !in Htmls(Matches(ps))[i]
  {
    MatchesFenced(ps);
    PlainInners(ps);
    var ms := Matches(ps);
    forall i | 0 <= i < |ms| ensures Safe(Htmls(ms)[i]) && '$' !in Htmls(ms)[i] {
      assert ms[i] == Fence + Inners(ps)[i] + Fence;
      assert forall ch :: ch in ms[i] ==> ch in Fence || ch in Inners(ps)[i];
      CodeHtmlSafe(ms[i]);
      CodeHtmlNoDollar(ms[i]);
    }
  }

  lemma CodeHtmlNoDollar(block: string)
    requires StartsWith(block, Fence) && '$' !in block
    ensures '$' !in CodeHtml(block)
  {
    TrimChars(Content(block));
    ContentChars(block);
    assert forall ch :: ch in Lang(block) ==> ch in block;
    TagsNoDollar();
    var c := Trim(Content(block));
    var lang := Lang(block);
    if lang != [] {
      assert CodeHtml(block) == "<pre><code class=\"language-" + lang + "\">" + c + "</code></pre>";
    } else {
      assert CodeHtml(block) == "<pre><code>" + c + "</code></pre>";
    }
  }

  lemma TagsNoDollar()
    ensures '$' !in "<pre><code class=\"language-" && '$' !in "\">" && '$' !in "<pre><code>" && '$' !in "</code></pre>"
  {
  }

  /** Restoring the first n tokens of an extraction restores exactly blocks 0..n-1. */
  lemma {:induction false} RestoreLayout(ps: seq<Piece>, n: nat)
    requires Plain(ps) && n <= BlockCount(ps)
    ensures forall i :: 0 <= i < |Matches(ps)| ==> StartsWith(Matches(ps)[i], Fence)
    ensures RestoreUpTo(Layout(ps, [], 0), Matches(ps), n) == Layout(ps, Htmls(Matches(ps))[..n], 0)
  {
    SafeHtmls(ps);
    if n > 0 {
      RestoreLayout(ps, n - 1);
      RestoreLayoutStep(ps, n);
    }
  }

  /** One more token restored: block n-1 takes its place. */
  lemma RestoreLayoutStep(ps: seq<Piece>, n: nat)
    requires Plain(ps) && 0 < n <= BlockCount(ps)
    requires forall i :: 0 <= i < |Matches(ps)| ==> StartsWith(Matches(ps)[i], Fence)
    requires RestoreUpTo(Layout(ps, [], 0), Matches(ps), n - 1) == Layout(ps, Htmls(Matches(ps))[..n - 1], 0)
    ensures RestoreUpTo(Layout(ps, [], 0), Matches(ps), n) == Layout(ps, Htmls(Matches(ps))[..n], 0)
  {
    SafeHtmls(ps);
    var ms := Matches(ps);
    var hs := Htmls(ms);
    var pre := hs[..n - 1];
    assert forall k :: 0 <= k < |pre| ==> Safe(pre[k]);
    var p, q := LayoutAround(ps, pre, hs[n - 1], 0);
    RestoreStep(Layout(ps, [], 0), ms, n, p, q);
    SnocSlice(hs, n);
  }

  lemma SnocSlice<T>(s: seq<T>, n: nat)
    requires 0 < n <= |s|
    ensures s[..n - 1] + [s[n - 1]] == s[..n]
  {
  }

  lemma RestoreStep(text: string, ms: seq<string>, n: nat, p: string, q: string)
    requires 0 < n <= |ms| && forall i :: 0 <= i < |ms| ==> StartsWith(ms[i], Fence)
    requires Safe(p) && RestoreUpTo(text, ms, n - 1) == p + Token(n - 1) + q && '$' !in CodeHtml(ms[n - 1])
    ensures RestoreUpTo(text, ms, n) == p + CodeHtml(ms[n - 1]) + q
  {
    TokenHead(n - 1);
    ReplaceAfterSafe(p, Token(n - 1), q, CodeHtml(ms[n - 1]));
  }

  /** Round trip of js/renderer.js:37-41 and 89-96 with nothing in between: on a
      text without `<` and `$`, every fenced block comes back as the `<pre><code>` markup
      of its match and all other text is the input's. */
  lemma ExtractThenRestore(s: string)
    requires '<' !in s && '$' !in s
    ensures var e := ExtractCodeBlocks(s);
      (forall i :: 0 <= i < |e.1| ==> StartsWith(e.1[i], Fence)) &&
      RestoreUpTo(e.0, e.1, |e.1|) == Layout(Fenced(s, Fence), Htmls(e.1), 0)
  {
    var ps := Fenced(s, Fence);
    PlainOf(ps, Fence);
    RestoreLayout(ps, BlockCount(ps));
    assert Htmls(Matches(ps))[..BlockCount(ps)] == Htmls(Matches(ps));
  }

  lemma HasAtShift(s: string, m: nat, j: nat, pat: string)
    requires m <= |s|
    ensures HasAt(s[m..], j, pat) ==> HasAt(s, m + j, pat)
  {
    if HasAt(s[m..], j, pat) { assert s[m..][j..j + |pat|] == s[m + j..m + j + |pat|]; }
  }

  /** A text with at most one "```" has no fenced block: the scan keeps it as is. */
  lemma {:induction false} LoneFenceIsText(s: string, hs: seq<string>, n: nat)
    requires forall j, k :: 0 <= j <= k <= |s| && HasAt(s, j, Fence) && HasAt(s, k, Fence) ==> j == k
    ensures BlockCount(Fenced(s, Fence)) == 0
    ensures Layout(Fenced(s, Fence), hs, n) == s
    decreases |s|
  {
    if s != [] {
      if StartsWith(s, Fence) {
        match IndexOf(s[3..], Fence)
        case Some(j) => HasAtShift(s, 3, j, Fence);
        case None =>
      }
      assert !(StartsWith(s, Fence) && IndexOf(s[3..], Fence).Some?);
      var t := s[1..];
      forall j, k | 0 <= j <= k <= |t| && HasAt(t, j, Fence) && HasAt(t, k, Fence) ensures j == k {
        HasAtShift(s, 1, j, Fence);
        HasAtShift(s, 1, k, Fence);
      }
      LoneFenceIsText(t, hs, n);
      assert Fenced(s, Fence) == [Char(s[0])] + Fenced(t, Fence);
      assert s == [s[0]] + t;
    }
  }

  lemma FenceChars(s: string, k: nat)
    ensures HasAt(s, k, Fence) ==> k + 2 < |s| && s[k] == '`' && s[k + 2] == '`'
  {
    if HasAt(s, k, Fence) { assert s[k..k + 3][0] == s[k] && s[k..k + 3][2] == s[k + 2]; }
  }

  lemma BacktickAt(a: string, b: string, i: nat)
    requires '`' !in a && '`' !in b
    ensures i < |a + Fence + b| && (a + Fence + b)[i] == '`' ==> |a| <= i < |a| + 3
  {
    var s := a + Fence + b;
    if i < |a| { assert s[i] == a[i]; }
    else if |a| + 3 <= i < |s| { assert s[i] == b[i - |a| - 3]; }
  }

  /** An opening fence with no closing one is left as literal text. */
  lemma UnterminatedFence(a: string, b: string)
    requires '`' !in a && '`' !in b
    ensures ExtractCodeBlocks(a + Fence + b) == (a + Fence + b, [])
  {
    var s := a + Fence + b;
    forall k | 0 <= k <= |s| && HasAt(s, k, Fence) ensures k == |a| {
      FenceChars(s, k);
      BacktickAt(a, b, k);
      BacktickAt(a, b, k + 2);
    }
    LoneFenceIsText(s, [], 0);
  }

  /** A global replace of a fenced pattern with a callback: each block is
      replaced by `h(n, inner)`, n counting the blocks from `n`, and every
      other character is kept. */
  function Rewrite(ps: seq<Piece>, h: (nat, string) -> string, n: nat): string
  {
    if ps == [] then []
    else match ps[0]
      case Char(c) => [c] + Rewrite(ps[1..], h, n)
      case Block(x) => h(n, x) + Rewrite(ps[1..], h, n + 1)
  }

  /** A text in which the opener never occurs is left as it is. */
  lemma {:induction false} RewriteNoOpener(s: string, open: string, h: (nat, string) -> string, n: nat)
    requires open != [] && !Contains(s, open)
    ensures Rewrite(Fenced(s, open), h, n) == s
    decreases |s|
  {
    if s != [] {
      assert !StartsWith(s, open);
      var t := s[1..];
      assert !Contains(t, open) by {
        forall k | 0 <= k <= |t| ensures !HasAt(t, k, open) { HasAtShift(s, 1, k, open); }
      }
      var ps := Fenced(s, open);
      assert ps == [Char(s[0])] + Fenced(t, open);
      assert ps[1..] == Fenced(t, open);
      RewriteNoOpener(t, open, h, n);
      assert s == [s[0]] + t;
    }
  }

  lemma RewriteChar(c: char, ps: seq<Piece>, h: (nat, string) -> string, n: nat)
    ensures Rewrite([Char(c)] + ps, h, n) == [c] + Rewrite(ps, h, n)
  {
    assert ([Char(c)] + ps)[1..] == ps;
  }

  lemma RewriteBlockCons(x: string, ps: seq<Piece>, h: (nat, string) -> string, n: nat)
    ensures Rewrite([Block(x)] + ps, h, n) == h(n, x) + Rewrite(ps, h, n + 1)
  {
    assert ([Block(x)] + ps)[1..] == ps;
  }

  /** A character other than the opener's first is a piece of its own. */
  lemma FencedSkip(s: string, open: string)
    requires s != [] && open != [] && s[0] != open[0]
    ensures Fenced(s, open) == [Char(s[0])] + Fenced(s[1..], open)
  {
    HasAtFirst(s, 0, open);
  }

  /** Text without a backtick in front of the rest is kept, whatever an opener
      starting with a backtick would match. */
  lemma {:induction false} RewriteKeeps(a: string, rest: string, open: string, h: (nat, string) -> string, n: nat)
    requires open != [] && open[0] == '`' && '`' !in a
    ensures Rewrite(Fenced(a + rest, open), h, n) == a + Rewrite(Fenced(rest, open), h, n)
    decreases |a|
  {
    if a == [] {
      EmptyCat(rest);
      EmptyCat(Rewrite(Fenced(rest, open), h, n));
    } else {
      var s := a + rest;
      var a0, a1 := [a[0]], a[1..];
      assert a == a0 + a1;
      SeqAssoc(a0, a1, rest);
      CatParts(a0, a1 + rest);
      assert s[0] == a[0];
      FencedSkip(s, open);
      RewriteChar(a[0], Fenced(a1 + rest, open), h, n);
      RewriteKeeps(a1, rest, open, h, n);
      SeqAssoc(a0, a1, Rewrite(Fenced(rest, open), h, n));
    }
  }

  /** A backtick-free body is closed by the fence after it. */
  lemma NoBacktickClosed(x: string)
    requires '`' !in x
    ensures ClosedFirst(x)
  {
    var t := x + "``";
    forall k | 0 <= k <= |t| ensures !HasAt(t, k, Fence) {
      HasAtFirst(t, k, Fence);
      if k < |x| { assert t[k] == x[k]; }
      if k + 3 <= |t| { assert k < |x|; }
    }
  }

  /** The first fence after a body closed first is at its end. */
  lemma FirstFenceAfter(x: string, z: string)
    requires ClosedFirst(x)
    ensures IndexOf(x + Fence + z, Fence) == Some(|x|)
  {
    var t := x + Fence + z;
    var u := x + "``";
    assert t[|x|..|x| + 3] == Fence;
    assert HasAt(t, |x|, Fence);
    assert t[..|x| + 2] == u;
    forall k | 0 <= k < |x| ensures !HasAt(t, k, Fence) {
      if HasAt(t, k, Fence) {
        assert t[k..k + 3] == u[k..k + 3];
        assert HasAt(u, k, Fence);
      }
    }
  }

  lemma HasAtFirst(s: string, k: nat, t: string)
    requires t != []
    ensures HasAt(s, k, t) ==> k < |s| && s[k] == t[0]
  {
    if HasAt(s, k, t) { assert s[k..k + |t|][0] == s[k]; }
  }

  /** An opener, a body closed first and a fence: the block is replaced by
      h(n, inner) and the scan goes on after the fence with n + 1. */
  lemma RewriteBlock(open: string, x: string, z: string, h: (nat, string) -> string, n: nat)
    requires open != [] && ClosedFirst(x)
    ensures Rewrite(Fenced(open + x + Fence + z, open), h, n) == h(n, x) + Rewrite(Fenced(z, open), h, n + 1)
  {
    FencedOpen(open + x + Fence + z, open, x, z);
    RewriteBlockCons(x, Fenced(z, open), h, n);
  }

  /** The opener starts a block that ends at the first fence. */
  lemma FencedOpen(s: string, open: string, x: string, z: string)
    requires s == open + x + Fence + z && open != [] && ClosedFirst(x)
    ensures Fenced(s, open) == [Block(x)] + Fenced(z, open)
  {
    var w := x + (Fence + z);
    SeqAssoc(open + x, Fence, z);
    SeqAssoc(open, x, Fence + z);
    CatParts(open, w);
    SeqAssoc(x, Fence, z);
    FirstFenceAfter(x, z);
    SliceDrop(s, |open|, |open| + |x|);
    CatParts(x, Fence + z);
    DropCat(open, w, |open| + |x| + 3);
    DropCat(x, Fence + z, |x| + 3);
    CatParts(Fence, z);
  }

  /** Tiling the text, taking a match wherever one starts and closing each at
      the first fence determine the scan: there is no other. */
  lemma {:induction false} FencedUnique(s: string, open: string, ps: seq<Piece>)
    requires open != []
    requires Unparse(ps, open) == s && Eager(ps, open) && FirstCloses(ps)
    ensures ps == Fenced(s, open)
    decreases |ps|
  {
    if ps != [] {
      var rest := ps[1..];
      var z := Unparse(rest, open);
      assert forall k :: 0 <= k < |rest| ==> rest[k] == ps[k + 1] && rest[k..] == ps[k + 1..];
      assert Eager(rest, open) && FirstCloses(rest);
      FencedUnique(z, open, rest);
      match ps[0]
      case Char(c) =>
        assert ps[0..] == ps;
        assert !Opens(s, open);
        assert s == [c] + z;
        assert s[1..] == z;
      case Block(x) =>
        assert ClosedFirst(x);
        FencedOpen(s, open, x, z);
    }
  }
}
