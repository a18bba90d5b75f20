/**
 * `Renderer.convertLists` (js/renderer.js:101-141): the text is split into
 * lines and a two-variable state machine (`inList`, `listType`) walks them,
 * pushing `<ul>`/`<ol>` openers, one `<li>` per list line, closers, and the
 * other lines as they are. The pushed strings are modelled as events so that
 * the nesting and the order of what is copied can be stated.
 */
module Lists {
  import opened Strings

  // ------------------------------------------------------------ line markers

  predicate IsMarker(c: char) { c == '-' || c == '*' || c == '+' }

  predicate AllDigits(s: string) { forall i :: 0 <= i < |s| ==> IsDigit(s[i]) }

  /** `^\s*[-*+]\s` matches the first k + 2 characters of the line. */
  predicate BulletAt(line: string, k: nat)
  {
    k + 2 <= |line| && AllSpace(line[..k]) && IsMarker(line[k]) && IsSpace(line[k + 1])
  }

  /** `^\s*\d+\.\s` matches with k leading spaces and d digits. */
  predicate OrderedAt(line: string, k: nat, d: nat)
  {
    0 < d && k + d + 2 <= |line| && AllSpace(line[..k]) && AllDigits(line[k..k + d])
    && line[k + d] == '.' && IsSpace(line[k + d + 1])
  }

  /** Length of the leading digit run of s. */
  function DigitRun(s: string): (n: nat)
    ensures n <= |s| && AllDigits(s[..n])
    ensures n < |s| ==> !IsDigit(s[n])
  {
    if s == [] || !IsDigit(s[0]) then 0 else 1 + DigitRun(s[1..])
  }

  /** Index j of s is a space when s has only spaces before index k > j. */
  lemma SpaceBefore(s: string, k: nat, j: nat)
    ensures k <= |s| && AllSpace(s[..k]) && j < k ==> IsSpace(s[j])
  {
    if k <= |s| && j < k { assert s[..k][j] == s[j]; }
  }

  /** Index j of s is a digit when s[i..i + d] is a digit run covering it. */
  lemma DigitWithin(s: string, i: nat, d: nat, j: nat)
    ensures i + d <= |s| && AllDigits(s[i..i + d]) && i <= j < i + d ==> IsDigit(s[j])
  {
    if i + d <= |s| && i <= j < i + d { assert s[i..i + d][j - i] == s[j]; }
  }

  lemma DigitPrefix(s: string, d: nat, e: nat)
    ensures d <= |s| && AllDigits(s[..d]) && e < d ==> IsDigit(s[e])
  {
    if d <= |s| && e < d { assert s[..d][e] == s[e]; }
  }

  /** The length of the bullet marker (js/renderer.js:109, 116), if the line has one. */
  function BulletMarker(line: string): Option<nat>
  {
    var k := LeadingSpace(line);
    if BulletAt(line, k) then Some(k + 2) else None
  }

  /** The marker is found exactly when `^\s*[-*+]\s` matches, and then it starts
      after all the leading spaces. */
  lemma BulletMarkerSpec(line: string)
    ensures BulletMarker(line).Some? ==> BulletMarker(line).value >= 2 && BulletAt(line, BulletMarker(line).value - 2)
    ensures BulletMarker(line).None? <==> forall k: nat :: !BulletAt(line, k)
    ensures forall k: nat :: BulletAt(line, k) ==> k == LeadingSpace(line)
  {
    forall k: nat ensures BulletAt(line, k) ==> k == LeadingSpace(line) {
      BulletStart(line, k);
    }
  }

  lemma BulletStart(line: string, k: nat)
    ensures BulletAt(line, k) ==> k == LeadingSpace(line)
  {
    var j := LeadingSpace(line);
    SpaceBefore(line, j, k);
    SpaceBefore(line, k, j);
  }

  /** The length of the ordered marker (js/renderer.js:118, 125), if the line has one. */
  function OrderedMarker(line: string): Option<nat>
  {
    var k := LeadingSpace(line);
    var d := DigitRun(line[k..]);
    if 0 < d && k + d + 2 <= |line| && line[k + d] == '.' && IsSpace(line[k + d + 1]) then Some(k + d + 2)
    else None
  }

  /** The marker is found exactly when `^\s*\d+\.\s` matches; it covers the
      leading spaces and the whole digit run. */
  lemma OrderedMarkerSpec(line: string)
    ensures OrderedMarker(line).Some? ==> OrderedAt(line, LeadingSpace(line), OrderedMarker(line).value - LeadingSpace(line) - 2)
    ensures OrderedMarker(line).None? <==> forall k: nat, d: nat :: !OrderedAt(line, k, d)
    ensures OrderedMarker(line).Some? <==> exists k: nat, d: nat :: OrderedAt(line, k, d)
  {
    var k := LeadingSpace(line);
    var d := DigitRun(line[k..]);
    if OrderedMarker(line).Some? {
      assert line[k..k + d] == line[k..][..d];
      assert OrderedAt(line, k, d);
    }
    forall j: nat, e: nat ensures OrderedAt(line, j, e) ==> j == k && e == d {
      OrderedUnique(line, j, e);
    }
  }

  /** A match of the ordered marker has exactly the leading spaces and the digit run. */
  lemma OrderedUnique(line: string, j: nat, e: nat)
    ensures OrderedAt(line, j, e) ==> j == LeadingSpace(line) && e == DigitRun(line[j..])
  {
    var k := LeadingSpace(line);
    SpaceBefore(line, k, j);
    SpaceBefore(line, j, k);
    DigitWithin(line, j, e, j);
    if OrderedAt(line, j, e) {
      var d := DigitRun(line[j..]);
      DigitWithin(line, j, e, j + d);
      DigitPrefix(line[j..], d, e);
      assert line[j..][e] == line[j + e];
    }
  }

  datatype LineKind = Bullet(content: string) | Ordered(content: string) | Plain

  /** How one line is read; the bullet test comes first (js/renderer.js:109, 118). */
  function Classify(line: string): LineKind
  {
    match BulletMarker(line)
    case Some(n) => Bullet(Trim(line[n..]))
    case None =>
      match OrderedMarker(line)
      case Some(n) => Ordered(Trim(line[n..]))
      case None => Plain
  }

  /** A line is a bullet line iff the bullet pattern matches, an ordered line iff
      only the ordered pattern matches; the content is the trimmed rest. */
  lemma ClassifySpec(line: string)
    ensures Classify(line).Bullet? <==> exists k: nat :: BulletAt(line, k)
    ensures Classify(line).Ordered? <==> (forall k: nat :: !BulletAt(line, k)) && exists k: nat, d: nat :: OrderedAt(line, k, d)
    ensures Classify(line).Bullet? ==> Classify(line).content == Trim(line[LeadingSpace(line) + 2..])
  {
    BulletMarkerSpec(line);
    OrderedMarkerSpec(line);
    ClassifyCases(line);
  }

  /** Classify in terms of the two marker functions. */
  lemma ClassifyCases(line: string)
    ensures Classify(line).Bullet? <==> BulletMarker(line).Some?
    ensures Classify(line).Ordered? <==> BulletMarker(line).None? && OrderedMarker(line).Some?
    ensures BulletMarker(line).Some? ==> Classify(line).content == Trim(line[LeadingSpace(line) + 2..])
  {
    var b := BulletMarker(line);
    var o := OrderedMarker(line);
    if b.Some? {
      ClassifyBullet(line, b.value);
    } else if o.Some? {
      ClassifyOrdered(line, o.value);
    } else {
      ClassifyPlain(line);
    }
  }

  lemma ClassifyBullet(line: string, n: nat)
    requires BulletMarker(line) == Some(n)
    ensures n == LeadingSpace(line) + 2 && Classify(line) == Bullet(Trim(line[n..]))
  {
  }

  lemma ClassifyOrdered(line: string, n: nat)
    requires BulletMarker(line).None? && OrderedMarker(line) == Some(n)
    ensures Classify(line) == Ordered(Trim(line[n..]))
  {
  }

  lemma ClassifyPlain(line: string)
    requires BulletMarker(line).None? && OrderedMarker(line).None?
    ensures Classify(line) == Plain
  {
  }

  // ------------------------------------------------------------ the machine

  /** A line together with how it is read. */
  datatype Line = Line(kind: LineKind, text: string)

  function Read(lines: seq<string>): (r: seq<Line>)
    ensures |r| == |lines|
    ensures forall i :: 0 <= i < |lines| ==> r[i] == Line(Classify(lines[i]), lines[i])
  {
    seq(|lines|, i requires 0 <= i < |lines| => Line(Classify(lines[i]), lines[i]))
  }

  datatype Kind = UL | OL

  /** What `result.push` receives: an opener, a closer, an item, or a copied line. */
  datatype Event = Open(kind: Kind) | Close(kind: Kind) | Item(content: string) | Text(line: string)

  datatype State = State(inList: bool, listType: Option<Kind>)

  const Start := State(false, None)

  /** `listType === 'ul' ? '</ul>' : '</ol>'`. */
  function CloseOf(t: Option<Kind>): Event
  {
    if t == Some(UL) then Close(UL) else Close(OL)
  }

  /** What one line pushes (js/renderer.js:109-133). */
  function StepEvents(st: State, l: Line): seq<Event>
  {
    match l.kind
    case Bullet(c) => (if !st.inList then [Open(UL)] else []) + [Item(c)]
    case Ordered(c) =>
      if !st.inList || st.listType != Some(OL) then
        (if st.inList then [CloseOf(st.listType)] else []) + [Open(OL), Item(c)]
      else [Item(c)]
    case Plain => (if st.inList then [CloseOf(st.listType)] else []) + [Text(l.text)]
  }

  /** The state after one line. */
  function StepState(st: State, l: Line): State
  {
    match l.kind
    case Bullet(_) => if !st.inList then State(true, Some(UL)) else st
    case Ordered(_) => if !st.inList || st.listType != Some(OL) then State(true, Some(OL)) else st
    case Plain => if st.inList then State(false, st.listType) else st
  }

  /** The state a prefix of the lines leaves. */
  function RunState(ls: seq<Line>): (st: State)
    ensures st.inList ==> st.listType.Some?
  {
    if ls == [] then Start else StepState(RunState(ls[..|ls| - 1]), ls[|ls| - 1])
  }

  /** The events pushed for a prefix of the lines. */
  function RunEvents(ls: seq<Line>): seq<Event>
  {
    if ls == [] then []
    else RunEvents(ls[..|ls| - 1]) + StepEvents(RunState(ls[..|ls| - 1]), ls[|ls| - 1])
  }

  /** The closer pushed after the last line (js/renderer.js:136-138). */
  function Finish(st: State): seq<Event>
  {
    if st.inList then [CloseOf(st.listType)] else []
  }

  function Events(ls: seq<Line>): seq<Event>
  {
    RunEvents(ls) + Finish(RunState(ls))
  }

  function Html(e: Event): string
  {
    match e
    case Open(k) => if k == UL then "<ul>" else "<ol>"
    case Close(k) => if k == UL then "</ul>" else "</ol>"
    case Item(c) => "<li>" + c + "</li>"
    case Text(line) => line
  }

  function Htmls(evs: seq<Event>): (r: seq<string>)
    ensures |r| == |evs|
    ensures forall i :: 0 <= i < |evs| ==> r[i] == Html(evs[i])
  {
    seq(|evs|, i requires 0 <= i < |evs| => Html(evs[i]))
  }

  lemma HtmlsAppend(a: seq<Event>, b: seq<Event>)
    ensures Htmls(a + b) == Htmls(a) + Htmls(b)
  {
  }

  /** The output of `convertLists` for a text, as the events of its lines. */
  function ListsOf(text: string): string
  {
    Join(Htmls(Events(Read(Split(text, "\n")))), "\n")
  }

  /** `convertLists` as it is written: the pushes of each line into `result`,
      then the final closer, joined by newlines. */
  method ConvertLists(text: string) returns (r: string)
    ensures r == ListsOf(text)
  {
    var lines := Split(text, "\n");
    var result, inList, listType := ForEachLine(lines);
    ghost var ls := Read(lines);
    ghost var fin := Finish(RunState(ls));
    ghost var before := result;
    assert Htmls(fin) == if inList then [if listType == Some(UL) then "</ul>" else "</ol>"] else [] by {
      if inList {
        assert fin == [CloseOf(listType)];
        assert Html(CloseOf(listType)) == if listType == Some(UL) then "</ul>" else "</ol>";
      }
    }
    if inList {
      result := result + [if listType == Some(UL) then "</ul>" else "</ol>"];
    }
    assert result == before + Htmls(fin);
    HtmlsAppend(RunEvents(ls), fin);
    assert result == Htmls(Events(ls));
    r := Join(result, "\n");
  }

  /** The `lines.forEach` loop (js/renderer.js:108-134). */
  method ForEachLine(lines: seq<string>) returns (result: seq<string>, inList: bool, listType: Option<Kind>)
    ensures result == Htmls(RunEvents(Read(lines)))
    ensures State(inList, listType) == RunState(Read(lines))
  {
    ghost var ls := Read(lines);
    result, inList, listType := [], false, None;
    for i := 0 to |lines|
      invariant result == Htmls(RunEvents(ls[..i]))
      invariant RunState(ls[..i]) == State(inList, listType)
    {
      ghost var evs, st := RunEvents(ls[..i]), RunState(ls[..i]);
      assert ls[..i + 1][..i] == ls[..i];
      assert RunEvents(ls[..i + 1]) == evs + StepEvents(st, ls[i]);
      assert RunState(ls[..i + 1]) == StepState(st, ls[i]);
      HtmlsAppend(evs, StepEvents(st, ls[i]));
      var pushed;
      pushed, inList, listType := PushLine(inList, listType, lines[i], Classify(lines[i]));
      result := result + pushed;
    }
    assert ls[..|lines|] == ls;
  }

  /** The `forEach` callback (js/renderer.js:108-134) for one line, given with
      the outcome of its two marker tests: what it pushes onto `result`, and the
      new `inList` and `listType`. */
  method PushLine(inList: bool, listType: Option<Kind>, line: string, kind: LineKind)
    returns (pushed: seq<string>, inList': bool, listType': Option<Kind>)
    ensures pushed == Htmls(StepEvents(State(inList, listType), Line(kind, line)))
    ensures State(inList', listType') == StepState(State(inList, listType), Line(kind, line))
  {
    ghost var evs := StepEvents(State(inList, listType), Line(kind, line));
    var closer := if listType == Some(UL) then "</ul>" else "</ol>";
    assert Html(CloseOf(listType)) == closer;
    pushed, inList', listType' := [], inList, listType;
    match kind
    case Bullet(content) =>
      if !inList' {
        pushed := pushed + ["<ul>"];
        inList' := true;
        listType' := Some(UL);
      }
      pushed := pushed + ["<li>" + content + "</li>"];
    case Ordered(content) =>
      if !inList' || listType' != Some(OL) {
        if inList' {
          pushed := pushed + [closer];
        }
        pushed := pushed + ["<ol>"];
        inList' := true;
        listType' := Some(OL);
      }
      pushed := pushed + ["<li>" + content + "</li>"];
    case Plain =>
      if inList' {
        pushed := pushed + [closer];
        inList' := false;
      }
      pushed := pushed + [line];
  }

  // ------------------------------------------------------------ properties

  /** Replays the events against an open list (None when none is open); None as a
      result means an opener inside an open list or a closer that does not match. */
  function Opened(evs: seq<Event>, o: Option<Kind>): Option<Option<Kind>>
  {
    if evs == [] then Some(o)
    else match evs[0]
      case Open(k) => if o.None? then Opened(evs[1..], Some(k)) else None
      case Close(k) => if o == Some(k) then Opened(evs[1..], None) else None
      case _ => Opened(evs[1..], o)
  }

  lemma {:induction false} OpenedAppend(a: seq<Event>, b: seq<Event>, o: Option<Kind>)
    ensures Opened(a + b, o) == (match Opened(a, o) case None => None case Some(o') => Opened(b, o'))
    decreases |a|
  {
    if a == [] {
      assert a + b == b;
    } else {
      assert (a + b)[0] == a[0] && (a + b)[1..] == a[1..] + b;
      match a[0]
      case Open(k) => if o.None? { OpenedAppend(a[1..], b, Some(k)); }
      case Close(k) => if o == Some(k) { OpenedAppend(a[1..], b, None); }
      case Item(_) => OpenedAppend(a[1..], b, o);
      case Text(_) => OpenedAppend(a[1..], b, o);
    }
  }

  /** One event replayed. */
  lemma OpenedCons(e: Event, rest: seq<Event>, o: Option<Kind>)
    ensures e.Open? ==> Opened([e] + rest, o) == if o.None? then Opened(rest, Some(e.kind)) else None
    ensures e.Close? ==> Opened([e] + rest, o) == if o == Some(e.kind) then Opened(rest, None) else None
    ensures e.Item? || e.Text? ==> Opened([e] + rest, o) == Opened(rest, o)
  {
    assert ([e] + rest)[0] == e && ([e] + rest)[1..] == rest;
  }

  /** The closer of an open list is the closer of its kind. */
  lemma CloseOfOpen(st: State)
    requires st.inList && st.listType.Some?
    ensures CloseOf(st.listType) == Close(st.listType.value)
  {
    match st.listType.value
    case UL =>
    case OL =>
  }

  /** The list open in a state, as far as the events are concerned. */
  function OpenOf(st: State): Option<Kind>
  {
    if st.inList then st.listType else None
  }

  lemma StepNests(st: State, l: Line)
    requires st.inList ==> st.listType.Some?
    ensures Opened(StepEvents(st, l), OpenOf(st)) == Some(OpenOf(StepState(st, l)))
  {
    var o := OpenOf(st);
    match l.kind
    case Bullet(c) =>
      OpenedCons(Item(c), [], Some(UL));
      OpenedCons(Item(c), [], o);
      if !st.inList {
        OpenedCons(Open(UL), [Item(c)], o);
      } else {
        assert [] + [Item(c)] == [Item(c)] + [];
      }
    case Ordered(c) =>
      if !st.inList || st.listType != Some(OL) {
        OpenedCons(Item(c), [], Some(OL));
        OpenedCons(Open(OL), [Item(c)], None);
        if st.inList {
          CloseOfOpen(st);
          OpenedCons(CloseOf(st.listType), [Open(OL), Item(c)], o);
        } else {
          assert [] + [Open(OL), Item(c)] == [Open(OL), Item(c)];
        }
      } else {
        OpenedCons(Item(c), [], o);
      }
    case Plain =>
      OpenedCons(Text(l.text), [], None);
      OpenedCons(Text(l.text), [], o);
      if st.inList {
        CloseOfOpen(st);
        OpenedCons(CloseOf(st.listType), [Text(l.text)], o);
      } else {
        assert [] + [Text(l.text)] == [Text(l.text)] + [];
      }
  }

  lemma {:induction false} RunNests(ls: seq<Line>)
    ensures Opened(RunEvents(ls), None) == Some(OpenOf(RunState(ls)))
    decreases |ls|
  {
    if ls != [] {
      var init := ls[..|ls| - 1];
      var l := ls[|ls| - 1];
      RunNests(init);
      OpenedAppend(RunEvents(init), StepEvents(RunState(init), l), None);
      StepNests(RunState(init), l);
    }
  }

  /** Every list that is opened is closed by the closer of its own kind, lists
      never nest, and none is left open after the last line. */
  lemma ListsBalanced(ls: seq<Line>)
    ensures Opened(Events(ls), None) == Some(None)
  {
    var st := RunState(ls);
    RunNests(ls);
    OpenedAppend(RunEvents(ls), Finish(st), None);
    if st.inList {
      CloseOfOpen(st);
      OpenedCons(CloseOf(st.listType), [], OpenOf(st));
      assert Finish(st) == [CloseOf(st.listType)] + [];
    }
  }

  /** The copied lines, in order. */
  function Texts(evs: seq<Event>): seq<string>
  {
    if evs == [] then [] else (if evs[0].Text? then [evs[0].line] else []) + Texts(evs[1..])
  }

  /** The item contents, in order. */
  function Items(evs: seq<Event>): seq<string>
  {
    if evs == [] then [] else (if evs[0].Item? then [evs[0].content] else []) + Items(evs[1..])
  }

  lemma {:induction false} FilterAppend(a: seq<Event>, b: seq<Event>)
    ensures Texts(a + b) == Texts(a) + Texts(b)
    ensures Items(a + b) == Items(a) + Items(b)
    decreases |a|
  {
    if a == [] {
      assert a + b == b;
    } else {
      assert (a + b)[0] == a[0] && (a + b)[1..] == a[1..] + b;
      FilterAppend(a[1..], b);
    }
  }

  /** The lines that are not list lines. */
  function PlainTexts(ls: seq<Line>): seq<string>
  {
    if ls == [] then []
    else PlainTexts(ls[..|ls| - 1]) + (if ls[|ls| - 1].kind.Plain? then [ls[|ls| - 1].text] else [])
  }

  /** The marker-stripped, trimmed text of the list lines. */
  function ItemTexts(ls: seq<Line>): seq<string>
  {
    if ls == [] then []
    else
      var k := ls[|ls| - 1].kind;
      ItemTexts(ls[..|ls| - 1]) + (if k.Plain? then [] else [k.content])
  }

  lemma Filter1(e: Event)
    ensures Texts([e]) == (if e.Text? then [e.line] else [])
    ensures Items([e]) == (if e.Item? then [e.content] else [])
  {
    assert [e][1..] == [];
  }

  lemma StepFilters(st: State, l: Line)
    ensures Texts(StepEvents(st, l)) == (if l.kind.Plain? then [l.text] else [])
    ensures Items(StepEvents(st, l)) == (if l.kind.Plain? then [] else [l.kind.content])
  {
    match l.kind
    case Bullet(c) =>
      Filter1(Open(UL));
      Filter1(Item(c));
      FilterAppend(if !st.inList then [Open(UL)] else [], [Item(c)]);
    case Ordered(c) =>
      Filter1(Item(c));
      if !st.inList || st.listType != Some(OL) {
        Filter1(Open(OL));
        Filter1(CloseOf(st.listType));
        FilterAppend([Open(OL)], [Item(c)]);
        FilterAppend(if st.inList then [CloseOf(st.listType)] else [], [Open(OL), Item(c)]);
      }
    case Plain =>
      Filter1(Text(l.text));
      Filter1(CloseOf(st.listType));
      FilterAppend(if st.inList then [CloseOf(st.listType)] else [], [Text(l.text)]);
  }

  lemma {:induction false} RunFilters(ls: seq<Line>)
    ensures Texts(RunEvents(ls)) == PlainTexts(ls)
    ensures Items(RunEvents(ls)) == ItemTexts(ls)
    decreases |ls|
  {
    if ls != [] {
      var init := ls[..|ls| - 1];
      var l := ls[|ls| - 1];
      RunFilters(init);
      FilterAppend(RunEvents(init), StepEvents(RunState(init), l));
      StepFilters(RunState(init), l);
    }
  }

  /** Non-list lines are copied verbatim and in order, and each list line gives
      exactly one item holding its stripped, trimmed text, whatever its
      indentation (nesting is flattened). */
  lemma ListContents(ls: seq<Line>)
    ensures Texts(Events(ls)) == PlainTexts(ls)
    ensures Items(Events(ls)) == ItemTexts(ls)
  {
    RunFilters(ls);
    var f := Finish(RunState(ls));
    FilterAppend(RunEvents(ls), f);
    Filter1(CloseOf(RunState(ls).listType));
    assert Texts(f) == [] && Items(f) == [] by {
      if f != [] { assert f == [CloseOf(RunState(ls).listType)]; }
    }
  }

  /** The events of the first one or two lines. */
  lemma RunTwo(x: Line, y: Line)
    ensures RunEvents([x]) == StepEvents(Start, x) && RunState([x]) == StepState(Start, x)
    ensures RunEvents([x, y]) == RunEvents([x]) + StepEvents(RunState([x]), y)
    ensures RunState([x, y]) == StepState(RunState([x]), y)
  {
    assert [x][..0] == [];
    assert [] + StepEvents(Start, x) == StepEvents(Start, x);
    assert [x, y][..1] == [x];
  }

  /** An ordered line after a bullet list closes it and opens an ordered list. */
  lemma BulletThenOrdered(x: Line, y: Line)
    requires x.kind.Bullet? && y.kind.Ordered?
    ensures Events([x, y]) == [Open(UL), Item(x.kind.content), Close(UL), Open(OL), Item(y.kind.content), Close(OL)]
  {
    RunTwo(x, y);
  }

  /** A bullet line after an ordered list lands inside it: only `inList` is
      tested for bullets (js/renderer.js:110). */
  lemma OrderedThenBullet(x: Line, y: Line)
    requires x.kind.Ordered? && y.kind.Bullet?
    ensures Events([x, y]) == [Open(OL), Item(x.kind.content), Item(y.kind.content), Close(OL)]
  {
    RunTwo(x, y);
  }

  lemma {:induction false} RunPlain(ls: seq<Line>)
    requires forall i :: 0 <= i < |ls| ==> ls[i].kind.Plain?
    ensures RunState(ls) == Start
    ensures Htmls(RunEvents(ls)) == seq(|ls|, i requires 0 <= i < |ls| => ls[i].text)
    decreases |ls|
  {
    if ls != [] {
      var init := ls[..|ls| - 1];
      RunPlain(init);
      var l := ls[|ls| - 1];
      assert StepEvents(Start, l) == [Text(l.text)];
      HtmlsAppend(RunEvents(init), [Text(l.text)]);
    }
  }

  /** A text without list lines comes back unchanged. */
  lemma NoListsUnchanged(text: string)
    requires forall i :: 0 <= i < |Split(text, "\n")| ==> Classify(Split(text, "\n")[i]).Plain?
    ensures ListsOf(text) == text
  {
    var lines := Split(text, "\n");
    var ls := Read(lines);
    RunPlain(ls);
    assert Htmls(Events(ls)) == lines;
    JoinSplit(text, "\n");
  }

  /** Indentation is ignored and the text after the marker is trimmed. */
  lemma IndentedBullet()
    ensures Classify("  - a ") == Bullet("a")
  {
    var t := "  - a ";
    assert LeadingSpace(t) == 2 by {
      assert t[1..][1..] == "- a ";
    }
    assert BulletAt(t, 2);
    assert t[4..] == "a ";
    assert Trim("a ") == "a" by {
      assert LeadingSpace("a ") == 0;
      assert TrailingSpace("a ") == 1 by { assert "a "[..1] == "a"; }
      assert "a "[0..1] == "a";
    }
  }

  /** A number, a dot and a space start an ordered item. */
  lemma NumberedItem()
    ensures Classify("12. b") == Ordered("b")
  {
    var o := "12. b";
    assert LeadingSpace(o) == 0;
    assert BulletMarker(o).None? by { assert !BulletAt(o, 0); }
    assert DigitRun(o) == 2 by {
      assert o[1..][1..] == ". b";
    }
    assert OrderedMarker(o) == Some(4) by { assert o[0..] == o; }
    ClassifyOrdered(o, 4);
    assert o[4..] == "b";
    TrimOfTrimmed("b");
  }

  /** A marker needs the space after it. */
  lemma MarkerNeedsSpace()
    ensures Classify("-a") == Plain
  {
    assert LeadingSpace("-a") == 0;
    assert !BulletAt("-a", 0);
    assert DigitRun("-a"[0..]) == 0 by { assert "-a"[0..] == "-a"; }
  }

  /** A line that starts with neither a space, a marker nor a digit is plain. */
  lemma ClassifyPlainHead(line: string)
    requires line != [] && !IsSpace(line[0]) && !IsMarker(line[0]) && !IsDigit(line[0])
    ensures Classify(line) == Plain
  {
    assert LeadingSpace(line) == 0;
    assert line[0..] == line;
    assert DigitRun(line) == 0;
  }
}
