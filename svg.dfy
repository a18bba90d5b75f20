/**
 * `SVGHandler` (js/libs/svg-handler.js): `processBlocks` wraps every "```svg"
 * block in a container `<div>`, and `sanitizeSVG` strips event-handler and
 * script attributes from the first `<svg>` element of a fragment and styles it.
 *
 * Line 9 doubles the backslash of `\n` and `\s\S`, which would make the
 * pattern look for a literal backslash; the rule modelled is the one its
 * comment at line 8 describes: "```svg", a newline, lazy content of any
 * characters, "```".
 *
 * The DOM is an element tree of values: parsing (`innerHTML`), serialising
 * (`outerHTML`) and the CSS object model are not modelled, and the in-place
 * updates of `walk` are functions from the old tree to the new one.
 */
module Svg {
  import opened Strings
  import opened CodeBlocks

  // ---------------------------------------------------------- processBlocks

  const Open: string := "```svg\n"

  /** The markup of js/libs/svg-handler.js:11. */
  function Container(content: string): string
  {
    "<div class=\"svg-container\">" + Trim(content) + "</div>"
  }

  function Containers(): (nat, string) -> string
  {
    (n: nat, content: string) => Container(content)
  }

  /** The replace from the n-th block on. */
  function ProcessFrom(html: string, n: nat): string
  {
    Rewrite(Fenced(html, Open), Containers(), n)
  }

  /** js/libs/svg-handler.js:7-15. */
  function ProcessBlocks(html: string): string
  {
    ProcessFrom(html, 0)
  }

  /** The container does not depend on how many blocks came before. */
  lemma {:induction false} CountIrrelevant(ps: seq<Piece>, n: nat)
    ensures Rewrite(ps, Containers(), n) == Rewrite(ps, Containers(), 0)
  {
    if ps != [] {
      match ps[0]
      case Char(c) => CountIrrelevant(ps[1..], n); CountIrrelevant(ps[1..], 0);
      case Block(x) => CountIrrelevant(ps[1..], n + 1); CountIrrelevant(ps[1..], 1);
    }
  }

  /** So the replace from any block on is the replace itself. */
  lemma ProcessFromAny(html: string, n: nat)
    ensures ProcessFrom(html, n) == ProcessBlocks(html)
  {
    CountIrrelevant(Fenced(html, Open), n);
  }

  /** Without "```svg" and a newline the text is unchanged. */
  lemma NoSvgBlock(html: string)
    requires !Contains(html, Open)
    ensures ProcessBlocks(html) == html
  {
    RewriteNoOpener(html, Open, Containers(), 0);
  }

  /** A block after backtick-free text: the text is kept, the block ends at the
      first fence and is wrapped with its trimmed content, and the text after
      the fence is processed in the same way. */
  lemma SvgBlockInText(a: string, x: string, z: string, n: nat)
    requires '`' !in a && ClosedFirst(x)
    ensures ProcessFrom(a + (Open + x + Fence + z), n) == a + Container(x) + ProcessFrom(z, n + 1)
  {
    RewriteKeeps(a, Open + x + Fence + z, Open, Containers(), n);
    RewriteBlock(Open, x, z, Containers(), n);
  }

  // ---------------------------------------------------------- the element tree

  datatype Attr = Attr(name: string, value: string)

  /** An element (tag name, attribute list in document order, inline style,
      child nodes) or any other node (text, comment). */
  datatype Node =
    | Element(tag: string, attrs: seq<Attr>, style: map<string, string>, kids: seq<Node>)
    | Other(data: string)

  /** js/libs/svg-handler.js:42, 47: the lower-cased name contains one of the
      four listed words. */
  predicate IsDangerous(name: string)
  {
    var l := ToLower(name);
    Contains(l, "onclick") || Contains(l, "onload") || Contains(l, "onerror") || Contains(l, "script")
  }

  // ---------------------------------------------------------- attribute removal

  /** The removal loop from index i of the current, live, attribute list: a
      removed attribute shifts the rest down, and the iteration still moves on
      to the next index. */
  function LiveFrom(attrs: seq<Attr>, i: nat): seq<Attr>
    decreases |attrs| - i
  {
    if i >= |attrs| then attrs
    else if IsDangerous(attrs[i].name) then LiveFrom(attrs[..i] + attrs[i + 1..], i + 1)
    else LiveFrom(attrs, i + 1)
  }

  /** js/libs/svg-handler.js:46-50: `for (let attr of node.attributes)` with
      `removeAttribute` inside the loop. */
  method RemoveDangerous(attrs: seq<Attr>) returns (live: seq<Attr>)
    ensures live == LiveFrom(attrs, 0)
  {
    live := attrs;
    var i: nat := 0;
    while i < |live|
      invariant LiveFrom(live, i) == LiveFrom(attrs, 0)
      decreases |live| - i
    {
      if IsDangerous(live[i].name) {
        live := live[..i] + live[i + 1..];
      }
      i := i + 1;
    }
  }

  /** Which attributes the loop takes out: a dangerous attribute is removed,
      and the one after it, having moved into the index just examined, is
      passed over. */
  function Removed(attrs: seq<Attr>): (r: seq<bool>)
    ensures |r| == |attrs|
  {
    if attrs == [] then []
    else if IsDangerous(attrs[0].name) then
      if |attrs| == 1 then [true] else [true, false] + Removed(attrs[2..])
    else [false] + Removed(attrs[1..])
  }

  /** The attributes whose mark is false. */
  function Select(attrs: seq<Attr>, out: seq<bool>): (r: seq<Attr>)
    requires |out| == |attrs|
    ensures |r| <= |attrs|
  {
    if attrs == [] then [] else (if out[0] then [] else [attrs[0]]) + Select(attrs[1..], out[1..])
  }

  lemma {:induction false} LiveFromSelect(attrs: seq<Attr>, i: nat)
    requires i <= |attrs|
    ensures LiveFrom(attrs, i) == attrs[..i] + Select(attrs[i..], Removed(attrs[i..]))
    decreases |attrs| - i
  {
    var t := attrs[i..];
    if i == |attrs| {
      assert attrs[..i] == attrs;
    } else if IsDangerous(attrs[i].name) {
      var a' := attrs[..i] + attrs[i + 1..];
      if i + 1 < |attrs| {
        LiveFromSelect(a', i + 1);
        assert a'[..i + 1] == attrs[..i] + [attrs[i + 1]];
        assert a'[i + 1..] == attrs[i + 2..] == t[2..];
        assert t[1..][1..] == t[2..];
        assert Select(t, Removed(t)) == [] + ([attrs[i + 1]] + Select(t[2..], Removed(t[2..])));
      } else {
        assert a' == attrs[..i];
        assert Select(t, Removed(t)) == [];
      }
    } else {
      LiveFromSelect(attrs, i + 1);
      assert t[1..] == attrs[i + 1..];
      assert attrs[..i + 1] == attrs[..i] + [attrs[i]];
    }
  }

  /** The loop keeps exactly the attributes that Removed does not mark. */
  lemma RemoveSelects(attrs: seq<Attr>)
    ensures LiveFrom(attrs, 0) == Select(attrs, Removed(attrs))
  {
    LiveFromSelect(attrs, 0);
    assert attrs[0..] == attrs;
  }

  /** The mark of attribute k: removed exactly when it is dangerous and the
      attribute before it was not removed; one that follows a removed attribute
      is never examined. */
  predicate RemovedRule(attrs: seq<Attr>, k: nat)
    requires k < |attrs|
  {
    Removed(attrs)[k] <==> IsDangerous(attrs[k].name) && (k == 0 || !Removed(attrs)[k - 1])
  }

  lemma {:induction false} RemovedAt(attrs: seq<Attr>, k: nat)
    requires k < |attrs|
    ensures RemovedRule(attrs, k)
    decreases k
  {
    var r := Removed(attrs);
    if k > 0 {
      if IsDangerous(attrs[0].name) {
        var t := attrs[2..];
        assert r == [true, false] + Removed(t);
        if k > 1 {
          RemovedAt(t, k - 2);
          assert attrs[k] == t[k - 2];
          if k > 2 { assert r[k - 1] == Removed(t)[k - 3]; }
        }
      } else {
        var t := attrs[1..];
        assert r == [false] + Removed(t);
        RemovedAt(t, k - 1);
        assert attrs[k] == t[k - 1];
        if k > 1 { assert r[k - 1] == Removed(t)[k - 2]; }
      }
    }
  }

  /** Every attribute is marked by that rule. */
  lemma RemovedIff(attrs: seq<Attr>)
    ensures forall k: nat :: k < |attrs| ==> RemovedRule(attrs, k)
  {
    forall k: nat | k < |attrs| ensures RemovedRule(attrs, k) {
      RemovedAt(attrs, k);
    }
  }

  /** Without two dangerous attributes in a row, every dangerous attribute is
      removed and no other. */
  lemma RemovedWithoutPairs(attrs: seq<Attr>)
    requires forall k :: 0 < k < |attrs| ==> !(IsDangerous(attrs[k - 1].name) && IsDangerous(attrs[k].name))
    ensures forall k :: 0 <= k < |attrs| ==> (Removed(attrs)[k] <==> IsDangerous(attrs[k].name))
  {
    var r := Removed(attrs);
    RemovedOnlyDangerous(attrs);
    forall k | 0 <= k < |attrs| ensures r[k] <==> IsDangerous(attrs[k].name) {
      RemovedAt(attrs, k);
      if k > 0 && r[k - 1] {
        assert IsDangerous(attrs[k - 1].name);
      }
    }
  }

  /** `onclick` followed by `onload`: the first is removed and the second,
      moved into its place, is never looked at. */
  lemma SecondHandlerSurvives(v: string, w: string)
    ensures Removed([Attr("onclick", v), Attr("onload", w)]) == [true, false]
    ensures LiveFrom([Attr("onclick", v), Attr("onload", w)], 0) == [Attr("onload", w)]
  {
    var a, b := Attr("onclick", v), Attr("onload", w);
    assert ToLower("onclick") == "onclick" && HasAt("onclick", 0, "onclick");
    RemoveSelects([a, b]);
    assert [a, b][2..] == [];
    assert Select([a, b], [true, false]) == [b];
  }

  lemma {:induction false} SelectKeeps(attrs: seq<Attr>, out: seq<bool>, k: nat)
    requires |out| == |attrs| && k < |attrs| && !out[k]
    ensures attrs[k] in Select(attrs, out)
    decreases k
  {
    if k > 0 { SelectKeeps(attrs[1..], out[1..], k - 1); }
  }

  lemma {:induction false} SelectFrom(attrs: seq<Attr>, out: seq<bool>)
    requires |out| == |attrs|
    ensures forall a :: a in Select(attrs, out) ==> a in attrs
    decreases |attrs|
  {
    if attrs != [] { SelectFrom(attrs[1..], out[1..]); }
  }

  /** Only dangerous attributes are removed. */
  lemma {:induction false} RemovedOnlyDangerous(attrs: seq<Attr>)
    ensures forall k :: 0 <= k < |attrs| && Removed(attrs)[k] ==> IsDangerous(attrs[k].name)
    decreases |attrs|
  {
    if attrs != [] {
      var r := Removed(attrs);
      if IsDangerous(attrs[0].name) && |attrs| > 1 {
        var t := attrs[2..];
        RemovedOnlyDangerous(t);
        assert r == [true, false] + Removed(t);
        assert forall k :: 2 <= k < |attrs| ==> r[k] == Removed(t)[k - 2] && attrs[k] == t[k - 2];
      } else if !IsDangerous(attrs[0].name) {
        var t := attrs[1..];
        RemovedOnlyDangerous(t);
        assert r == [false] + Removed(t);
        assert forall k :: 1 <= k < |attrs| ==> r[k] == Removed(t)[k - 1] && attrs[k] == t[k - 1];
      }
    }
  }

  /** The loop only removes: what it leaves comes from the list, and every
      harmless attribute stays. */
  lemma RemovalKeepsHarmless(attrs: seq<Attr>)
    ensures forall a :: a in LiveFrom(attrs, 0) ==> a in attrs
    ensures forall k :: 0 <= k < |attrs| && !IsDangerous(attrs[k].name) ==> attrs[k] in LiveFrom(attrs, 0)
  {
    var out := Removed(attrs);
    RemoveSelects(attrs);
    SelectFrom(attrs, out);
    RemovedOnlyDangerous(attrs);
    forall k | 0 <= k < |attrs| && !IsDangerous(attrs[k].name) ensures attrs[k] in Select(attrs, out) {
      assert !out[k];
      SelectKeeps(attrs, out, k);
    }
  }

  // ---------------------------------------------------------- walk

  /** js/libs/svg-handler.js:43-57: the attribute loop on an element, then the
      walk of its element children; other nodes are left alone. */
  function Walk(n: Node): (r: Node)
    ensures r.Element? == n.Element? && (r.Element? ==> r.tag == n.tag)
    decreases n
  {
    match n
    case Other(_) => n
    case Element(tag, attrs, style, kids) =>
      Element(tag, LiveFrom(attrs, 0), style, seq(|kids|, i requires 0 <= i < |kids| => Walk(kids[i])))
  }

  /** The recursive walk as the source runs it: one loop over the attributes
      and one over the children. */
  method WalkNode(n: Node) returns (r: Node)
    ensures r == Walk(n)
    decreases n
  {
    match n {
      case Other(_) =>
        r := n;
      case Element(tag, attrs, style, kids) =>
        var live := RemoveDangerous(attrs);
        var walked: seq<Node> := [];
        var i := 0;
        while i < |kids|
          invariant i <= |kids| && |walked| == i
          invariant forall j :: 0 <= j < i ==> walked[j] == Walk(kids[j])
        {
          assert kids[i] in kids;
          var c := WalkNode(kids[i]);
          walked := walked + [c];
          i := i + 1;
        }
        r := Element(tag, live, style, walked);
    }
  }

  /** A tree with its attributes taken away. */
  function Shape(n: Node): Node
    decreases n
  {
    match n
    case Other(_) => n
    case Element(tag, attrs, style, kids) =>
      Element(tag, [], style, seq(|kids|, i requires 0 <= i < |kids| => Shape(kids[i])))
  }

  /** The walk removes no node: tags, styles, text and the shape of the tree are
      as they were. */
  lemma {:induction false} WalkKeepsShape(n: Node)
    ensures Shape(Walk(n)) == Shape(n)
    decreases n
  {
    match n
    case Other(_) =>
    case Element(tag, attrs, style, kids) =>
      var w := Walk(n);
      forall i | 0 <= i < |kids| ensures Shape(w.kids[i]) == Shape(kids[i]) {
        assert kids[i] in kids;
        WalkKeepsShape(kids[i]);
      }
      assert Shape(w).kids == Shape(n).kids;
  }

  /** In particular a `<script>` child is still there after the walk. */
  lemma ScriptChildSurvives(attrs: seq<Attr>, code: string)
    ensures var svg := Element("svg", attrs, map[], [Element("script", [], map[], [Other(code)])]);
      Walk(svg).kids == [Element("script", [], map[], [Other(code)])]
  {
    var script := Element("script", [], map[], [Other(code)]);
    assert Walk(Other(code)) == Other(code);
    assert LiveFrom([], 0) == [];
    assert Walk(script) == script;
  }

  /** Every element of a tree has attributes as the walk leaves them: no
      dangerous attribute. */
  predicate Clean(n: Node)
    decreases n
  {
    match n
    case Other(_) => true
    case Element(_, attrs, _, kids) =>
      (forall k :: 0 <= k < |attrs| ==> !IsDangerous(attrs[k].name)) &&
      forall i :: 0 <= i < |kids| ==> Clean(kids[i])
  }

  /** No element of the tree has two dangerous attributes in a row. */
  predicate NoPairs(n: Node)
    decreases n
  {
    match n
    case Other(_) => true
    case Element(_, attrs, _, kids) =>
      (forall k :: 0 < k < |attrs| ==> !(IsDangerous(attrs[k - 1].name) && IsDangerous(attrs[k].name))) &&
      forall i :: 0 <= i < |kids| ==> NoPairs(kids[i])
  }

  lemma {:induction false} SelectClean(attrs: seq<Attr>, out: seq<bool>)
    requires |out| == |attrs|
    requires forall k :: 0 <= k < |attrs| && IsDangerous(attrs[k].name) ==> out[k]
    ensures forall k :: 0 <= k < |Select(attrs, out)| ==> !IsDangerous(Select(attrs, out)[k].name)
    decreases |attrs|
  {
    if attrs != [] {
      assert forall k :: 1 <= k < |attrs| ==> attrs[1..][k - 1] == attrs[k] && out[1..][k - 1] == out[k];
      SelectClean(attrs[1..], out[1..]);
    }
  }

  /** When no element has two dangerous attributes in a row, the walk leaves
      none at all. */
  lemma {:induction false} WalkCleans(n: Node)
    requires NoPairs(n)
    ensures Clean(Walk(n))
    decreases n
  {
    match n
    case Other(_) =>
    case Element(tag, attrs, style, kids) =>
      RemovedWithoutPairs(attrs);
      RemoveSelects(attrs);
      SelectClean(attrs, Removed(attrs));
      forall i | 0 <= i < |kids| ensures Clean(Walk(kids[i])) {
        assert kids[i] in kids;
        WalkCleans(kids[i]);
      }
  }

  // ---------------------------------------------------------- sanitizeSVG

  /** `querySelector('svg')` on a node: the first `svg` element in document
      order at or below it. */
  function Find(n: Node): (r: Option<Node>)
    ensures r.Some? ==> r.value.Element? && r.value.tag == "svg"
    decreases n, 1
  {
    match n
    case Other(_) => None
    case Element(tag, _, _, kids) => if tag == "svg" then Some(n) else FindIn(kids)
  }

  /** `querySelector('svg')` on a list of nodes. */
  function FindIn(ns: seq<Node>): (r: Option<Node>)
    ensures r.Some? ==> r.value.Element? && r.value.tag == "svg"
    decreases ns, 0
  {
    if ns == [] then None
    else match Find(ns[0])
      case Some(e) => Some(e)
      case None => FindIn(ns[1..])
  }

  /** An `svg` element at or below n. */
  predicate HasSvg(n: Node)
    decreases n
  {
    match n
    case Other(_) => false
    case Element(tag, _, _, kids) => tag == "svg" || exists i :: 0 <= i < |kids| && HasSvg(kids[i])
  }

  /** The search finds an `svg` element exactly when there is one, and what it
      finds is one. */
  lemma {:induction false} FindSound(n: Node)
    ensures Find(n).Some? <==> HasSvg(n)
    decreases n, 1
  {
    match n
    case Other(_) =>
    case Element(tag, _, _, kids) =>
      if tag != "svg" {
        FindInSound(kids);
      }
  }

  lemma {:induction false} FindInSound(ns: seq<Node>)
    ensures FindIn(ns).Some? <==> exists i :: 0 <= i < |ns| && HasSvg(ns[i])
    decreases ns, 0
  {
    if ns != [] {
      FindSound(ns[0]);
      FindInSound(ns[1..]);
      assert forall i :: 1 <= i < |ns| ==> ns[1..][i - 1] == ns[i];
    }
  }

  datatype Sanitized = Markup(html: string) | Root(svg: Node)

  /** js/libs/svg-handler.js:62-65: the four style properties set on the root. */
  function Styled(style: map<string, string>): map<string, string>
  {
    style["max-width" := "100%"]["height" := "auto"]["border" := "1px solid #e0e0e0"]["border-radius" := "4px"]
  }

  /** js/libs/svg-handler.js:33-68 on the parsed fragment: no `svg` element
      gives the fixed message; otherwise the first one, walked and styled. */
  function SanitizeSvg(fragment: seq<Node>): Sanitized
  {
    match FindIn(fragment)
    case None => Markup("<p>Invalid SVG</p>")
    case Some(svg) =>
      var w := Walk(svg);
      Root(w.(style := Styled(w.style)))
  }

  /** The outcome of sanitizing: the message exactly when the fragment holds no
      `svg` element. */
  lemma SanitizeInvalid(fragment: seq<Node>)
    ensures SanitizeSvg(fragment).Markup? <==> !exists i :: 0 <= i < |fragment| && HasSvg(fragment[i])
    ensures SanitizeSvg(fragment).Markup? ==> SanitizeSvg(fragment).html == "<p>Invalid SVG</p>"
  {
    FindInSound(fragment);
  }

  /** Otherwise the result is the first `svg` element with the attributes the
      removal loop keeps and walked children. */
  lemma SanitizeRoot(fragment: seq<Node>)
    requires FindIn(fragment).Some?
    ensures var svg := FindIn(fragment).value;
      var root := SanitizeSvg(fragment).svg;
      SanitizeSvg(fragment).Root? && root.Element? && root.tag == "svg" &&
      root.attrs == LiveFrom(svg.attrs, 0) && root.kids == Walk(svg).kids
  {
  }

  /** The style gets the four properties and keeps every other entry. */
  lemma StyledKeeps(style: map<string, string>)
    ensures var s := Styled(style);
      s["max-width"] == "100%" && s["height"] == "auto" &&
      s["border"] == "1px solid #e0e0e0" && s["border-radius"] == "4px" &&
      s.Keys == style.Keys + {"max-width", "height", "border", "border-radius"} &&
      forall p :: p in style && p !in {"max-width", "height", "border", "border-radius"} ==> s[p] == style[p]
  {
  }
}
