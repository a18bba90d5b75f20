/**
 * `WikiShortcuts` (js/libs/wiki-shortcuts.js): `slugify`, the `[[Page|Text]]`
 * link scanner behind `extractWikiLinks`, and `processWikiLinks`.
 */
module Wiki {
  import opened Strings
  import opened Scanner

  // ------------------------------------------------------------------ slugify

  /** The characters `[^[\w\s-]` does not remove: word characters, white space,
      `-` and, since the class opens with a literal `[`, `[` itself. */
  predicate Kept(c: char) { IsWordChar(c) || IsSpace(c) || c == '-' || c == '[' }

  predicate IsDash(c: char) { c == '-' }

  /** `s.replace(/[^[\w\s-]/g, '')`. */
  function Keep(s: string): (r: string)
    ensures forall i :: 0 <= i < |r| ==> Kept(r[i])
  {
    if s == [] then [] else (if Kept(s[0]) then [s[0]] else []) + Keep(s[1..])
  }

  /** Removal keeps exactly the characters of the class. */
  lemma {:induction false} KeepMembers(s: string)
    ensures forall c :: c in Keep(s) <==> c in s && Kept(c)
    decreases |s|
  {
    if s != [] {
      KeepMembers(s[1..]);
      assert forall c :: c in s <==> c == s[0] || c in s[1..];
    }
  }

  /** The length of the run of characters satisfying p at the start of s. */
  function Run(s: string, p: char -> bool): (n: nat)
    ensures n <= |s|
    ensures forall i :: 0 <= i < n ==> p(s[i])
    ensures n < |s| ==> !p(s[n])
  {
    if s == [] || !p(s[0]) then 0 else 1 + Run(s[1..], p)
  }

  /** `s.replace(/P+/g, c)` for a character class P: every maximal run of
      characters of the class becomes one c. */
  function Squeeze(s: string, p: char -> bool, c: char): (r: string)
    ensures forall i :: 0 <= i < |r| ==> r[i] == c || (!p(r[i]) && r[i] in s)
    ensures s != [] ==> r != [] && r[0] == (if p(s[0]) then c else s[0])
    ensures p(c) ==> forall i :: 0 <= i < |r| - 1 && r[i] == c ==> r[i + 1] != c
    decreases |s|
  {
    if s == [] then []
    else if p(s[0]) then
      var n := Run(s, p);
      var rest := Squeeze(s[n..], p, c);
      assert forall x :: x in s[n..] ==> x in s;
      [c] + rest
    else
      var rest := Squeeze(s[1..], p, c);
      assert forall x :: x in s[1..] ==> x in s;
      [s[0]] + rest
  }

  /** js/libs/wiki-shortcuts.js:28-35: lower-case, trim, drop the characters
      outside `[\w\s-[]`, then turn white-space runs and dash runs into one dash. */
  function Slugify(text: string): string
  {
    SlugOfLower(ToLower(text))
  }

  /** The steps of `slugify` after `toLowerCase`. */
  function SlugOfLower(t: string): string
  {
    Squeeze(Squeeze(Keep(Trim(t)), IsSpace, '-'), IsDash, '-')
  }

  predicate NoUpper(s: string) { forall i :: 0 <= i < |s| ==> !IsUpper(s[i]) }

  /** The characters of a trimmed string are characters of the string. */
  lemma TrimFrom(s: string)
    ensures forall c :: c in Trim(s) ==> c in s
  {
    var r := Trim(s);
    var i :| 0 <= i <= |s| - |r| && s[i..i + |r|] == r && AllSpace(s[..i]) && AllSpace(s[i + |r|..]);
    forall c | c in r ensures c in s {
      var k :| 0 <= k < |r| && r[k] == c;
      assert s[i + k] == c;
    }
  }

  /** A slug has no upper-case letter and no white space, every character of it
      is kept by the class of line 32 (so `[` survives), and it has no two dashes
      in a row. */
  lemma SlugChars(text: string)
    ensures var r := Slugify(text);
      (forall i :: 0 <= i < |r| ==> !IsUpper(r[i]) && !IsSpace(r[i]) && Kept(r[i])) &&
      (forall i :: 0 <= i < |r| - 1 ==> !(r[i] == '-' && r[i + 1] == '-'))
  {
    var a := ToLower(text);
    var b := Trim(a);
    var c := Keep(b);
    var d := Squeeze(c, IsSpace, '-');
    var e := Squeeze(d, IsDash, '-');
    TrimFrom(a);
    KeepMembers(b);
    assert forall x :: x in a ==> !IsUpper(x);
    forall i | 0 <= i < |e| ensures !IsUpper(e[i]) && !IsSpace(e[i]) && Kept(e[i]) {
      if e[i] != '-' {
        assert e[i] in d;
        assert e[i] in c && !IsSpace(e[i]);
      }
    }
  }

  lemma {:induction false} ToLowerFixed(s: string)
    requires NoUpper(s)
    ensures ToLower(s) == s
  {
    assert forall i :: 0 <= i < |s| ==> ToLower(s)[i] == s[i];
  }

  lemma {:induction false} KeepFixed(s: string)
    requires forall i :: 0 <= i < |s| ==> Kept(s[i])
    ensures Keep(s) == s
    decreases |s|
  {
    if s != [] {
      KeepFixed(s[1..]);
      assert s == [s[0]] + s[1..];
    }
  }

  /** A string whose class characters are all c and never adjacent is its own
      squeeze. */
  lemma {:induction false} SqueezeFixed(s: string, p: char -> bool, c: char)
    requires forall i :: 0 <= i < |s| && p(s[i]) ==> s[i] == c
    requires forall i :: 0 <= i < |s| - 1 ==> !(p(s[i]) && p(s[i + 1]))
    ensures Squeeze(s, p, c) == s
    decreases |s|
  {
    if s != [] {
      var n := if p(s[0]) then Run(s, p) else 1;
      if p(s[0]) {
        assert |s| > 1 ==> !p(s[1]);
        assert n == 1;
      }
      var t := s[1..];
      assert forall i :: 0 <= i < |t| ==> t[i] == s[i + 1];
      SqueezeFixed(t, p, c);
      if p(s[0]) {
        assert Squeeze(s, p, c) == [c] + Squeeze(s[n..], p, c);
      } else {
        assert Squeeze(s, p, c) == [s[0]] + Squeeze(t, p, c);
      }
      assert s == [s[0]] + t;
    }
  }

  /** `slugify` is idempotent. */
  lemma SlugifyIdempotent(text: string)
    ensures Slugify(Slugify(text)) == Slugify(text)
  {
    var y := Slugify(text);
    SlugChars(text);
    ToLowerFixed(y);
    assert y == [] || (!IsSpace(y[0]) && !IsSpace(y[|y| - 1]));
    TrimOfTrimmed(y);
    KeepFixed(y);
    SqueezeFixed(y, IsSpace, '-');
    SqueezeFixed(y, IsDash, '-');
  }

  lemma {:induction false} ToLowerAppend(a: string, b: string)
    ensures ToLower(a + b) == ToLower(a) + ToLower(b)
  {
    assert forall i :: 0 <= i < |a + b| ==> ToLower(a + b)[i] == (ToLower(a) + ToLower(b))[i];
  }

  lemma {:induction false} KeepAppend(a: string, b: string)
    ensures Keep(a + b) == Keep(a) + Keep(b)
    decreases |a|
  {
    if a == [] {
      assert a + b == b;
    } else {
      assert (a + b)[0] == a[0] && (a + b)[1..] == a[1..] + b;
      KeepAppend(a[1..], b);
    }
  }

  /** A word, a class character and a rest that does not continue the run: the
      character becomes c. */
  lemma {:induction false} SqueezeWordSep(w: string, sp: char, rest: string, p: char -> bool, c: char)
    requires forall i :: 0 <= i < |w| ==> !p(w[i])
    requires p(sp) && (rest == [] || !p(rest[0]))
    ensures Squeeze(w + [sp] + rest, p, c) == w + [c] + Squeeze(rest, p, c)
    decreases |w|
  {
    var s := w + [sp] + rest;
    if w == [] {
      assert s == [sp] + rest && s[0] == sp && s[1..] == rest;
      assert Run(s[1..], p) == 0;
      assert Run(s, p) == 1;
    } else {
      assert s[0] == w[0] && s[1..] == w[1..] + [sp] + rest;
      SqueezeWordSep(w[1..], sp, rest, p, c);
    }
  }

  /** A non-empty run of word characters. */
  predicate Word(w: string) { w != [] && forall i :: 0 <= i < |w| ==> IsWordChar(w[i]) }

  /** ls is ws in lower case, word by word. */
  predicate LowerOf(ws: seq<string>, ls: seq<string>)
  {
    |ws| == |ls| && forall k :: 0 <= k < |ws| ==> ToLower(ws[k]) == ls[k]
  }

  lemma {:induction false} ToLowerJoin(ws: seq<string>, ls: seq<string>)
    requires LowerOf(ws, ls)
    ensures ToLower(Join(ws, " ")) == Join(ls, " ")
    decreases |ws|
  {
    if |ws| > 1 {
      ToLowerJoin(ws[1..], ls[1..]);
      var r := Join(ws[1..], " ");
      ToLowerAppend(ws[0], " " + r);
      ToLowerAppend(" ", r);
      assert ToLower(" ") == " ";
      assert ws[0] + " " + r == ws[0] + (" " + r);
    }
  }

  lemma {:induction false} SqueezeSpaces(ws: seq<string>)
    requires ws != [] && forall k :: 0 <= k < |ws| ==> Word(ws[k])
    ensures Squeeze(Join(ws, " "), IsSpace, '-') == Join(ws, "-")
    decreases |ws|
  {
    if |ws| == 1 {
      SqueezeFixed(ws[0], IsSpace, '-');
    } else {
      var rest := Join(ws[1..], " ");
      assert rest[0] == ws[1][0] by { JoinHead(ws[1..], " ", 0); }
      SqueezeWordSep(ws[0], ' ', rest, IsSpace, '-');
      SqueezeSpaces(ws[1..]);
    }
  }

  /** Lower-case words separated by single spaces slugify to the words joined
      by dashes. */
  lemma SlugLowerWords(ls: seq<string>)
    requires ls != [] && forall k :: 0 <= k < |ls| ==> Word(ls[k])
    ensures SlugOfLower(Join(ls, " ")) == Join(ls, "-")
  {
    CleanWords(ls);
    SqueezeSpaces(ls);
    DashesFixed(ls);
  }

  /** Trimming and removal leave words joined by spaces alone. */
  lemma CleanWords(ls: seq<string>)
    requires ls != [] && forall k :: 0 <= k < |ls| ==> Word(ls[k])
    ensures Keep(Trim(Join(ls, " "))) == Join(ls, " ")
  {
    TrimWords(ls);
    KeepWords(ls);
  }

  /** Words joined by spaces have no white space to trim. */
  lemma TrimWords(ls: seq<string>)
    requires ls != [] && forall k :: 0 <= k < |ls| ==> Word(ls[k])
    ensures Trim(Join(ls, " ")) == Join(ls, " ")
  {
    JoinEnds(ls);
    TrimOfTrimmed(Join(ls, " "));
  }

  /** Words joined by spaces hold only kept characters. */
  lemma KeepWords(ls: seq<string>)
    requires ls != [] && forall k :: 0 <= k < |ls| ==> Word(ls[k])
    ensures Keep(Join(ls, " ")) == Join(ls, " ")
  {
    WordsKept(ls);
    assert Kept(" "[0]);
    JoinChars(ls, " ", Kept);
    KeepFixed(Join(ls, " "));
  }

  lemma WordsKept(ls: seq<string>)
    requires forall k :: 0 <= k < |ls| ==> Word(ls[k])
    ensures forall k, i :: 0 <= k < |ls| && 0 <= i < |ls[k]| ==> Kept(ls[k][i])
  {
    forall k, i | 0 <= k < |ls| && 0 <= i < |ls[k]| ensures Kept(ls[k][i]) {
      assert Word(ls[k]);
    }
  }

  /** Words joined by dashes hold no two dashes in a row. */
  lemma DashesFixed(ls: seq<string>)
    requires ls != [] && forall k :: 0 <= k < |ls| ==> Word(ls[k])
    ensures Squeeze(Join(ls, "-"), IsDash, '-') == Join(ls, "-")
  {
    NoDashes(ls);
    JoinNoDouble(ls, '-');
    SqueezeFixed(Join(ls, "-"), IsDash, '-');
  }

  lemma WordCharNotSpace(c: char)
    requires IsWordChar(c)
    ensures !IsSpace(c) && c != '-'
  {
  }

  /** Words joined by spaces start and end with a word character. */
  lemma JoinEnds(ls: seq<string>)
    requires ls != [] && forall k :: 0 <= k < |ls| ==> Word(ls[k])
    ensures var a := Join(ls, " "); a != [] && !IsSpace(a[0]) && !IsSpace(a[|a| - 1])
  {
    var first, last := ls[0], ls[|ls| - 1];
    assert Word(first) && Word(last);
    JoinHead(ls, " ", 0);
    JoinLast(ls, " ");
    WordCharNotSpace(first[0]);
    WordCharNotSpace(last[|last| - 1]);
  }

  lemma NoDashes(ls: seq<string>)
    requires forall k :: 0 <= k < |ls| ==> Word(ls[k])
    ensures forall k :: 0 <= k < |ls| ==> ls[k] != [] && '-' !in ls[k]
  {
    forall k | 0 <= k < |ls| ensures '-' !in ls[k] {
      assert forall i :: 0 <= i < |ls[k]| ==> IsWordChar(ls[k][i]);
    }
  }

  lemma LowerWords(ws: seq<string>, ls: seq<string>)
    requires LowerOf(ws, ls) && forall k :: 0 <= k < |ws| ==> Word(ws[k])
    ensures forall k :: 0 <= k < |ls| ==> Word(ls[k])
  {
    forall k | 0 <= k < |ls| ensures Word(ls[k]) {
      var w := ws[k];
      assert forall i :: 0 <= i < |w| ==> IsWordChar(ToLowerChar(w[i]));
    }
  }

  /** Words separated by single spaces slugify to their lower-case forms joined
      by dashes. */
  lemma SlugWords(ws: seq<string>, ls: seq<string>)
    requires ws != [] && forall k :: 0 <= k < |ws| ==> Word(ws[k])
    requires LowerOf(ws, ls)
    ensures Slugify(Join(ws, " ")) == Join(ls, "-")
  {
    ToLowerJoin(ws, ls);
    LowerWords(ws, ls);
    SlugLowerWords(ls);
  }

  /** The examples of js/libs/wiki-shortcuts.js:67-73. */
  lemma SlugExampleGuide()
    ensures Slugify("Getting" + " " + "Started" + " " + "Guide") == "getting" + "-" + "started" + "-" + "guide"
  {
    assert ToLower("Getting") == "getting";
    assert ToLower("Started") == "started";
    assert ToLower("Guide") == "guide";
    assert Word("Getting") && Word("Started") && Word("Guide");
    SlugThree("Getting", "Started", "Guide");
  }

  lemma SlugExampleApi()
    ensures Slugify("API" + " " + "Documentation") == "api" + "-" + "documentation"
  {
    assert ToLower("API") == "api";
    assert ToLower("Documentation") == "documentation";
    assert Word("API") && Word("Documentation");
    SlugTwo("API", "Documentation");
  }

  lemma SlugTwo(a: string, b: string)
    requires Word(a) && Word(b)
    ensures Slugify(a + " " + b) == ToLower(a) + "-" + ToLower(b)
  {
    var ws, ls := [a, b], [ToLower(a), ToLower(b)];
    Join2(ws, " ");
    Join2(ls, "-");
    SlugWords(ws, ls);
  }

  lemma SlugThree(a: string, b: string, c: string)
    requires Word(a) && Word(b) && Word(c)
    ensures Slugify(a + " " + b + " " + c) == ToLower(a) + "-" + ToLower(b) + "-" + ToLower(c)
  {
    var ws, ls := [a, b, c], [ToLower(a), ToLower(b), ToLower(c)];
    Join3(ws, " ");
    Join3(ls, "-");
    SlugWords(ws, ls);
  }

  lemma Join2(l: seq<string>, sep: string)
    requires |l| == 2
    ensures Join(l, sep) == l[0] + sep + l[1]
  {
    assert l[1..] == [l[1]];
  }

  lemma Join3(l: seq<string>, sep: string)
    requires |l| == 3
    ensures Join(l, sep) == l[0] + sep + l[1] + sep + l[2]
  {
    Join2(l[1..], sep);
  }

  /** Trimming runs before removal, so a slug can end with a dash: `"a !"` gives
      `"a-"`. */
  lemma TrailingDash(w: string, junk: string)
    requires Word(w) && NoUpper(w) && junk != []
    requires forall i :: 0 <= i < |junk| ==> !Kept(junk[i]) && !IsUpper(junk[i])
    ensures Slugify(w + " " + junk) == w + "-"
  {
    var s := w + " " + junk;
    assert NoUpper(s);
    ToLowerFixed(s);
    KeepJunk(w, junk);
    SpaceDash(w);
    WordDash(w);
  }

  lemma SpaceDash(w: string)
    requires Word(w)
    ensures Squeeze(w + " ", IsSpace, '-') == w + "-"
  {
    forall i | 0 <= i < |w| ensures !IsSpace(w[i]) { WordCharNotSpace(w[i]); }
    SqueezeWordSep(w, ' ', [], IsSpace, '-');
    assert w + [' '] + [] == w + " " && w + ['-'] + [] == w + "-";
  }

  lemma WordDash(w: string)
    requires Word(w)
    ensures Squeeze(w + "-", IsDash, '-') == w + "-"
  {
    var s := w + "-";
    forall i | 0 <= i < |s| - 1 ensures !IsDash(s[i]) {
      assert s[i] == w[i];
      WordCharNotSpace(w[i]);
    }
    SqueezeFixed(s, IsDash, '-');
  }

  lemma KeepJunk(w: string, junk: string)
    requires Word(w) && junk != []
    requires forall i :: 0 <= i < |junk| ==> !Kept(junk[i])
    ensures Keep(Trim(w + " " + junk)) == w + " "
  {
    var ws := w + " ";
    var s := ws + junk;
    WordCharNotSpace(w[0]);
    CatParts(ws, junk);
    assert s[0] == ws[0] == w[0];
    assert s[|s| - 1] == junk[|junk| - 1];
    assert !Kept(junk[|junk| - 1]);
    TrimOfTrimmed(s);
    KeepAppend(ws, junk);
    KeepAppend(w, " ");
    KeepFixed(w);
    KeepNone(junk);
    KeepSpace();
    assert Keep(s) == w + " " + [];
  }

  lemma KeepSpace()
    ensures Keep(" ") == " "
  {
    assert " "[1..] == [];
  }

  lemma {:induction false} KeepNone(s: string)
    requires forall i :: 0 <= i < |s| ==> !Kept(s[i])
    ensures Keep(s) == []
    decreases |s|
  {
    if s != [] { KeepNone(s[1..]); }
  }

  lemma SlugExampleTrailing()
    ensures Slugify("a" + " " + "!") == "a" + "-"
  {
    assert Word("a") && NoUpper("a") && !Kept('!') && !IsUpper('!');
    TrailingDash("a", "!");
  }

  // --------------------------------------------------------------- wiki links

  /** One `[[...]]` link: the whole match, the trimmed page name, the display
      text and the slug of the page name (js/libs/wiki-shortcuts.js:49-54). */
  datatype Link = Link(original: string, page: string, display: string, slug: string)

  predicate NotClose(c: char) { c != ']' }

  /** `\[\[([^\]]+)\]\]` at index p of text: the length of the group. The group
      is the longest run without `]`; a shorter one would have to be followed by
      `]]` at a character that is not `]`, so there is no other way to match. */
  function LinkAt(text: string, p: nat): (r: Option<nat>)
    ensures r.Some? ==> 0 < r.value && p + r.value + 4 <= |text|
  {
    if p + 2 <= |text| && text[p] == '[' && text[p + 1] == '[' then
      var j := SpanEnd(text, p + 2, NotClose);
      if j > p + 2 && j + 1 < |text| && text[j + 1] == ']' then Some(j - p - 2) else None
    else None
  }

  /** What a match at p spans: `[[`, a group without `]`, `]]`. */
  lemma LinkAtShape(text: string, p: nat)
    requires LinkAt(text, p).Some?
    ensures var n := LinkAt(text, p).value;
      text[p..p + n + 4] == "[[" + text[p + 2..p + 2 + n] + "]]" && ']' !in text[p + 2..p + 2 + n]
  {
    var n := LinkAt(text, p).value;
    var g := text[p + 2..p + 2 + n];
    assert forall k :: 0 <= k < |g| ==> g[k] == text[p + 2 + k];
    assert text[p..p + n + 4] == "[[" + g + "]]";
  }

  /** The fields of the link whose group is `content` (js/libs/wiki-shortcuts.js:47-54):
      `display` falls back to the page name when there is no second part or it is
      empty; `parts[1]` is tested before it is trimmed. */
  function LinkOf(content: string): (l: Link)
    ensures l.original == "[[" + content + "]]"
    ensures l.slug == Slugify(l.page)
  {
    var parts := Split(content, "|");
    var page := Trim(parts[0]);
    Link("[[" + content + "]]", page, if |parts| > 1 && parts[1] != [] then Trim(parts[1]) else page, Slugify(page))
  }

  /** `regex.exec(text)` with `lastIndex` at p: the first match at or after p,
      as (start, group length). */
  function Exec(text: string, p: nat): (r: Option<(nat, nat)>)
    ensures r.Some? ==> p <= r.value.0 && r.value.0 + r.value.1 + 4 <= |text|
    ensures r.Some? ==> LinkAt(text, r.value.0) == Some(r.value.1)
    ensures r.Some? ==> forall k :: p <= k < r.value.0 ==> LinkAt(text, k).None?
    ensures r.None? ==> forall k :: p <= k < |text| ==> LinkAt(text, k).None?
    decreases |text| - p
  {
    if p >= |text| then None
    else match LinkAt(text, p)
      case Some(n) => Some((p, n))
      case None => Exec(text, p + 1)
  }

  /** The groups the global scan finds from index p on: a match is taken and
      the scan resumes after it, otherwise it moves on by one character. */
  function GroupsFrom(text: string, p: nat): seq<string>
    decreases |text| - p
  {
    if p >= |text| then []
    else match LinkAt(text, p)
      case Some(n) => [text[p + 2..p + 2 + n]] + GroupsFrom(text, p + n + 4)
      case None => GroupsFrom(text, p + 1)
  }

  /** The link recorded for each group. */
  function LinksOf(gs: seq<string>): (r: seq<Link>)
    ensures |r| == |gs|
  {
    if gs == [] then [] else LinksOf(gs[..|gs| - 1]) + [LinkOf(gs[|gs| - 1])]
  }

  lemma LinksOfSnoc(gs: seq<string>, g: string)
    ensures LinksOf(gs + [g]) == LinksOf(gs) + [LinkOf(g)]
  {
    assert (gs + [g])[..|gs|] == gs;
  }

  /** The links extracted from a text. */
  function Links(text: string): seq<Link>
  {
    LinksOf(GroupsFrom(text, 0))
  }

  /** js/libs/wiki-shortcuts.js:41-58: the `exec` loop, pushing one link per match. */
  method ExtractWikiLinks(text: string) returns (links: seq<Link>)
    ensures links == Links(text)
  {
    links := [];
    ghost var done: seq<string> := [];
    var lastIndex: nat := 0;
    var m := Exec(text, lastIndex);
    while m.Some?
      invariant m == Exec(text, lastIndex)
      invariant ScannedTo(text, done, lastIndex)
      invariant links == LinksOf(done)
      decreases |text| - lastIndex
    {
      var start, n := m.value.0, m.value.1;
      var content := text[start + 2..start + 2 + n];
      ghost var prev, p := done, lastIndex;
      LinksOfSnoc(done, content);
      links := links + [LinkOf(content)];
      done := done + [content];
      lastIndex := start + n + 4;
      GroupsAdvance(text, prev, p, start, n, done, lastIndex);
      m := Exec(text, lastIndex);
    }
    GroupsNone(text, lastIndex);
    assert done + [] == done;
    assert done == GroupsFrom(text, 0);
  }

  /** The scan skips the positions `exec` skips and records the match it finds. */
  lemma {:induction false} GroupsStep(text: string, p: nat, start: nat, n: nat)
    requires Exec(text, p) == Some((start, n))
    ensures start + n + 4 <= |text|
    ensures GroupsFrom(text, p) == [text[start + 2..start + 2 + n]] + GroupsFrom(text, start + n + 4)
    decreases |text| - p
  {
    if p < start {
      assert LinkAt(text, p).None?;
      assert Exec(text, p + 1) == Some((start, n));
      GroupsStep(text, p + 1, start, n);
    } else {
      assert LinkAt(text, p) == Some(n);
    }
  }

  /** Where `exec` finds nothing the scan records nothing. */
  lemma {:induction false} GroupsNone(text: string, p: nat)
    requires Exec(text, p).None?
    ensures GroupsFrom(text, p) == []
    decreases |text| - p
  {
    if p < |text| {
      assert LinkAt(text, p).None?;
      GroupsNone(text, p + 1);
    }
  }

  /** The groups recorded so far, followed by those of the scan from p on, are
      the groups of the whole text. */
  predicate ScannedTo(text: string, done: seq<string>, p: nat)
  {
    done + GroupsFrom(text, p) == GroupsFrom(text, 0)
  }

  /** The loop's record of groups stays a prefix of the scan's. */
  lemma GroupsAdvance(text: string, done: seq<string>, p: nat, start: nat, n: nat, done': seq<string>, p': nat)
    requires Exec(text, p) == Some((start, n))
    requires ScannedTo(text, done, p)
    requires start + n + 4 <= |text|
    requires done' == done + [text[start + 2..start + 2 + n]] && p' == start + n + 4
    ensures ScannedTo(text, done', p')
  {
    var g := [text[start + 2..start + 2 + n]];
    var rest := GroupsFrom(text, p');
    GroupsStep(text, p, start, n);
    assert GroupsFrom(text, p) == g + rest;
    SeqAssoc(done, g, rest);
    assert done' + rest == done + GroupsFrom(text, p);
  }

  /** Every group the scan finds sits between `[[` and `]]` in the text, is not
      empty and holds no `]`. */
  lemma {:induction false} GroupsInText(text: string, p: nat)
    ensures forall g :: g in GroupsFrom(text, p) ==>
      g != [] && ']' !in g && Contains(text, "[[" + g + "]]")
    decreases |text| - p
  {
    if p < |text| {
      match LinkAt(text, p)
      case None => GroupsInText(text, p + 1);
      case Some(n) =>
        var g := text[p + 2..p + 2 + n];
        LinkAtShape(text, p);
        assert HasAt(text, p, "[[" + g + "]]");
        GroupsInText(text, p + n + 4);
    }
  }

  // ------------------------------------------------------------ link fields

  /** A group with no `|` names its page and shows the page name. */
  lemma LinkPlain(g: string)
    requires '|' !in g
    ensures LinkOf(g).page == Trim(g) && LinkOf(g).display == Trim(g)
  {
    SplitNone(g, '|');
  }

  /** `P|D`: the page is the trimmed P, the display the trimmed D when D is not
      empty and the page name otherwise. */
  lemma LinkWithDisplay(pg: string, d: string)
    requires '|' !in pg && '|' !in d
    ensures LinkOf(pg + "|" + d).page == Trim(pg)
    ensures LinkOf(pg + "|" + d).display == if d != [] then Trim(d) else Trim(pg)
  {
    SplitFirst(pg, '|', d);
    SplitNone(d, '|');
    assert Split(pg + "|" + d, "|") == [pg, d];
  }

  /** `P|D|R`: whatever follows the second `|` is ignored. */
  lemma LinkIgnoresRest(pg: string, d: string, rest: string)
    requires '|' !in pg && '|' !in d
    ensures LinkOf(pg + "|" + d + "|" + rest).page == Trim(pg)
    ensures LinkOf(pg + "|" + d + "|" + rest).display == if d != [] then Trim(d) else Trim(pg)
  {
    var parts := Split(pg + "|" + d + "|" + rest, "|");
    SplitTwo(pg, d, rest);
    assert parts[0] == pg && parts[1] == d;
  }

  lemma SplitTwo(pg: string, d: string, rest: string)
    requires '|' !in pg && '|' !in d
    ensures Split(pg + "|" + d + "|" + rest, "|") == [pg, d] + Split(rest, "|")
  {
    assert pg + "|" + d + "|" + rest == pg + ['|'] + (d + ['|'] + rest);
    SplitFirst(pg, '|', d + "|" + rest);
    SplitFirst(d, '|', rest);
  }

  /** The emptiness test comes before the trim: `P|  ` shows an empty text. */
  lemma LinkBlankDisplay(pg: string, d: string)
    requires '|' !in pg && '|' !in d && d != [] && AllSpace(d)
    ensures LinkOf(pg + "|" + d).display == []
  {
    LinkWithDisplay(pg, d);
    TrimAllSpace(d);
  }

  // ------------------------------------------------------- processWikiLinks

  /** What the callback of js/libs/wiki-shortcuts.js:9-14 returns for a group:
      the display text in brackets, then the slug of the page in parentheses. */
  function Rewrite(content: string): string
  {
    var l := LinkOf(content);
    "[[" + l.display + "]](" + l.slug + ")"
  }

  /** The callback maps `P|D` to `[[D]](slugify(P))`, P and D trimmed. */
  lemma RewriteDisplay(pg: string, d: string)
    requires '|' !in pg && '|' !in d && d != []
    ensures Rewrite(pg + "|" + d) == "[[" + Trim(d) + "]](" + Slugify(Trim(pg)) + ")"
  {
    LinkWithDisplay(pg, d);
  }

  predicate IsClose(c: char) { c == ']' }

  /** js/libs/wiki-shortcuts.js:9 as written: `[[`, then a literal `[`, then `^`,
      which without the `m` flag holds only at index 0 of the input, then `]`,
      one or more `]` and `]]`. Here t is the rest of an input of length n, so
      the `^` sits at index n - |t| + 3. */
  function WrittenMatch(n: nat, t: string): Step
  {
    if StartsWith(t, "[[[") && n - |t| + 3 == 0 then
      var r := Run(t[3..], IsClose);
      if r >= 4 then Match(3 + r, Rewrite("[" + t[3..3 + r - 2])) else Miss
    else Miss
  }

  function WrittenM(n: nat): Matcher
  {
    (t: string, bol: bool) => WrittenMatch(n, t)
  }

  /** `processWikiLinks` as written (js/libs/wiki-shortcuts.js:7-18). */
  function ProcessWikiLinks(text: string): string
  {
    Apply(text, WrittenM(|text|), true)
  }

  /** The `^` can never hold after three consumed characters, so the pass leaves
      every text as it is. */
  lemma ProcessWikiLinksIdentity(text: string)
    ensures ProcessWikiLinks(text) == text
  {
    var m := WrittenM(|text|);
    forall k | 0 <= k < |text| ensures !Hits(text[k..], m, BolAt(text, k, true)) {
      assert m(text[k..], BolAt(text, k, true)) == WrittenMatch(|text|, text[k..]);
    }
    ApplyNoMatch(text, m, true);
  }

  /** The callback under the pattern of js/libs/wiki-shortcuts.js:43, which is
      what line 9 evidently means. */
  function CleanMatch(t: string): Step
  {
    match LinkAt(t, 0)
    case Some(n) => Match(n + 4, Rewrite(t[2..2 + n]))
    case None => Miss
  }

  function CleanM(): Matcher
  {
    (t: string, bol: bool) => CleanMatch(t)
  }

  /** `processWikiLinks` with the pattern fixed. */
  function WikiLinkPass(text: string): string
  {
    Apply(text, CleanM(), true)
  }

  /** `[[g]]` at the start of t, for a non-empty g without `]`, is a match with
      group g. */
  lemma LinkAtOf(g: string, z: string)
    requires g != [] && ']' !in g
    ensures LinkAt("[[" + g + "]]" + z, 0) == Some(|g|)
    ensures ("[[" + g + "]]" + z)[2..2 + |g|] == g
  {
    var t := "[[" + g + "]]" + z;
    assert forall k :: 2 <= k < 2 + |g| ==> t[k] == g[k - 2];
    assert t[2 + |g|] == ']' && t[3 + |g|] == ']';
    SpanEndAt(t, 2, 2 + |g|, NotClose);
  }

  /** The fixed pattern matches `[[g]]` whole and hands g to the callback. */
  lemma CleanAt(g: string, z: string)
    requires g != [] && ']' !in g
    ensures CleanMatch("[[" + g + "]]" + z) == Match(|g| + 4, Rewrite(g))
  {
    LinkAtOf(g, z);
  }

  lemma CleanHitsAt(t: string, b: bool)
    requires Hits(t, CleanM(), b)
    ensures t[0] == '['
  {
  }

  lemma CleanOnlyAtBracket()
    ensures forall t: string, b: bool :: Hits(t, CleanM(), b) ==> t[0] == '['
  {
    forall t: string, b: bool | Hits(t, CleanM(), b) ensures t[0] == '[' { CleanHitsAt(t, b); }
  }

  /** The matcher's step on `[[g]]`. */
  lemma CleanLinkStep(g: string, z: string, b: bool)
    requires g != [] && ']' !in g
    ensures CleanM()("[[" + g + "]]" + z, b) == Match(|g| + 4, Rewrite(g))
  {
    CleanAt(g, z);
  }

  /** The fixed pass on a text holding `[[g]]`, with no `[` before it: the
      text before is copied and the link replaced by the callback's result. */
  lemma WikiLinkAt(a: string, g: string, z: string)
    requires '[' !in a && g != [] && ']' !in g
    ensures WikiLinkPass(a + ("[[" + g + "]]") + z) == a + Rewrite(g) + Apply(z, CleanM(), false)
  {
    var w := "[[" + g + "]]";
    CleanLinkStep(g, z, BolAt(a, |a|, true));
    MatchOf(CleanM()(w + z, BolAt(a, |a|, true)), |w|, Rewrite(g));
    CleanOnlyAtBracket();
    ApplyHitAfterWithout(a, w, z, CleanM(), true, '[', Rewrite(g));
  }

  /** js/libs/wiki-shortcuts.js:9-14 with the pattern fixed: in a text, `[[P|D]]`
      becomes `[[D]](slugify(P))` with P and D trimmed. */
  lemma WikiLinkInText(a: string, pg: string, d: string, z: string)
    requires '[' !in a && '|' !in pg && '|' !in d && ']' !in pg && ']' !in d && d != []
    ensures WikiLinkPass(a + ("[[" + (pg + "|" + d) + "]]") + z) ==
      a + ("[[" + Trim(d) + "]](" + Slugify(Trim(pg)) + ")") + Apply(z, CleanM(), false)
  {
    assert ']' !in pg + "|" + d;
    WikiLinkAt(a, pg + "|" + d, z);
    RewriteDisplay(pg, d);
  }

  /** The second example of js/libs/wiki-shortcuts.js:66-69 under the callback. */
  lemma RewriteExampleApi()
    ensures Rewrite(("API" + " " + "Documentation") + "|" + "API") == "[[" + "API" + "]](" + ("api" + "-" + "documentation") + ")"
  {
    var pg := "API" + " " + "Documentation";
    ApiParts();
    RewriteDisplay(pg, "API");
    SlugExampleApi();
  }

  lemma ApiParts()
    ensures var pg := "API" + " " + "Documentation";
      '|' !in pg && Trim(pg) == pg && Trim("API") == "API"
  {
    var pg := "API" + " " + "Documentation";
    assert pg[0] == 'A' && pg[|pg| - 1] == 'n';
    TrimOfTrimmed(pg);
    TrimOfTrimmed("API");
    assert forall i :: 0 <= i < |pg| ==> pg[i] != '|';
  }
}
