/**
 * `Renderer.convertTables` (js/renderer.js:143-162): a global regular
 * expression finds a header row, a separator row and the body up to the next
 * blank line; the callback splits the header and each body line into cells
 * (split on `|`, trim, drop the empty ones) and concatenates the HTML.
 */
module Tables {
  import opened Strings
  import opened Scanner
  import InlineRules

  // ------------------------------------------------------------------- cells

  /** `.filter(h => h)`: the non-empty strings, in order. */
  function DropEmpty(parts: seq<string>): (r: seq<string>)
    ensures |r| <= |parts|
    ensures forall i :: 0 <= i < |r| ==> r[i] != []
  {
    if parts == [] then []
    else (if parts[0] == [] then [] else [parts[0]]) + DropEmpty(parts[1..])
  }

  /** `.map(h => h.trim())`. */
  function TrimAll(parts: seq<string>): (r: seq<string>)
    ensures |r| == |parts|
    ensures forall i :: 0 <= i < |parts| ==> r[i] == Trim(parts[i])
  {
    seq(|parts|, i requires 0 <= i < |parts| => Trim(parts[i]))
  }

  /** The cells of one row (js/renderer.js:146, 148). */
  function Cells(row: string): seq<string>
  {
    DropEmpty(TrimAll(Split(row, "|")))
  }

  /** The rows of the body: the trimmed body split into lines (js/renderer.js:147-149). */
  function Rows(body: string): (r: seq<seq<string>>)
    ensures |r| == |Split(Trim(body), "\n")|
    ensures forall i :: 0 <= i < |r| ==> r[i] == Cells(Split(Trim(body), "\n")[i])
  {
    var lines := Split(Trim(body), "\n");
    seq(|lines|, i requires 0 <= i < |lines| => Cells(lines[i]))
  }

  lemma {:induction false} DropEmptyMembers(parts: seq<string>)
    ensures forall x :: x in DropEmpty(parts) <==> x in parts && x != []
  {
    if parts != [] {
      DropEmptyMembers(parts[1..]);
      assert parts == [parts[0]] + parts[1..];
    }
  }

  lemma {:induction false} DropEmptyConcat(a: seq<string>, b: seq<string>)
    ensures DropEmpty(a + b) == DropEmpty(a) + DropEmpty(b)
  {
    if a != [] {
      assert (a + b)[1..] == a[1..] + b;
      DropEmptyConcat(a[1..], b);
    } else {
      assert a + b == b;
    }
  }

  lemma {:induction false} DropEmptyKeeps(parts: seq<string>)
    requires forall i :: 0 <= i < |parts| ==> parts[i] != []
    ensures DropEmpty(parts) == parts
  {
    if parts != [] {
      DropEmptyKeeps(parts[1..]);
    }
  }

  lemma PipeFree(s: string)
    requires !Contains(s, "|")
    ensures '|' !in s
  {
    if '|' in s {
      var k :| 0 <= k < |s| && s[k] == '|';
      assert HasAt(s, k, "|");
    }
  }

  /** Every cell is non-empty, has no surrounding white space and holds no `|`;
      and every piece between pipes that is not blank is kept as a cell. */
  lemma CellsClean(row: string)
    ensures forall c :: c in Cells(row) ==> c != [] && Trim(c) == c && '|' !in c
    ensures forall p :: p in Split(row, "|") && Trim(p) != [] ==> Trim(p) in Cells(row)
  {
    CellsShape(row);
    CellsKeep(row);
  }

  lemma CellsShape(row: string)
    ensures forall c :: c in Cells(row) ==> c != [] && Trim(c) == c && '|' !in c
  {
    var parts := Split(row, "|");
    var trimmed := TrimAll(parts);
    DropEmptyMembers(trimmed);
    forall c | c in Cells(row) ensures c != [] && Trim(c) == c && '|' !in c {
      var i :| 0 <= i < |trimmed| && trimmed[i] == c;
      TrimmedPiece(parts[i]);
    }
  }

  /** A piece between pipes, trimmed, is its own trim and holds no `|`. */
  lemma TrimmedPiece(p: string)
    requires !Contains(p, "|")
    ensures Trim(Trim(p)) == Trim(p) && '|' !in Trim(p)
  {
    TrimOfTrimmed(Trim(p));
    PipeFree(p);
    TrimChars(p);
  }

  lemma CellsKeep(row: string)
    ensures forall p :: p in Split(row, "|") && Trim(p) != [] ==> Trim(p) in Cells(row)
  {
    var parts := Split(row, "|");
    var trimmed := TrimAll(parts);
    DropEmptyMembers(trimmed);
    forall p | p in Split(row, "|") && Trim(p) != [] ensures Trim(p) in Cells(row) {
      var i :| 0 <= i < |parts| && parts[i] == p;
      assert trimmed[i] == Trim(p);
    }
  }

  /** A body of white space only is one row without cells. */
  lemma BlankBody(body: string)
    requires AllSpace(body)
    ensures Rows(body) == [[]]
  {
    TrimAllSpace(body);
    assert IndexOf([], "\n").None?;
    assert Split([], "|") == [[]] by { assert IndexOf([], "|").None?; }
    assert Cells([]) == DropEmpty([[]]);
  }

  // -------------------------------------------------------------------- html

  function HeaderCells(hs: seq<string>): string
  {
    if hs == [] then [] else HeaderCells(hs[..|hs| - 1]) + "<th>" + hs[|hs| - 1] + "</th>"
  }

  function DataCells(cells: seq<string>): string
  {
    if cells == [] then [] else DataCells(cells[..|cells| - 1]) + "<td>" + cells[|cells| - 1] + "</td>"
  }

  function RowHtml(cells: seq<string>): string { "<tr>" + DataCells(cells) + "</tr>" }

  function BodyHtml(rows: seq<seq<string>>): string
  {
    if rows == [] then [] else BodyHtml(rows[..|rows| - 1]) + RowHtml(rows[|rows| - 1])
  }

  /** The markup the callback returns for header cells hs and body rows. */
  function TableHtml(hs: seq<string>, rows: seq<seq<string>>): string
  {
    "<table>\n<thead><tr>" + HeaderCells(hs) + "</tr></thead>\n<tbody>" + BodyHtml(rows) + "</tbody>\n</table>"
  }

  lemma HeaderCellsSnoc(hs: seq<string>, i: nat)
    requires i < |hs|
    ensures HeaderCells(hs[..i + 1]) == HeaderCells(hs[..i]) + "<th>" + hs[i] + "</th>"
  {
    assert hs[..i + 1][..i] == hs[..i];
  }

  lemma DataCellsSnoc(cells: seq<string>, i: nat)
    requires i < |cells|
    ensures DataCells(cells[..i + 1]) == DataCells(cells[..i]) + "<td>" + cells[i] + "</td>"
  {
    assert cells[..i + 1][..i] == cells[..i];
  }

  lemma BodyHtmlSnoc(rows: seq<seq<string>>, j: nat)
    requires j < |rows|
    ensures BodyHtml(rows[..j + 1]) == BodyHtml(rows[..j]) + RowHtml(rows[j])
  {
    assert rows[..j + 1][..j] == rows[..j];
  }

  /** The replacement callback (js/renderer.js:145-160), building the markup
      with the source's `+=` loops. */
  method BuildTable(header: string, body: string) returns (html: string)
    ensures html == TableHtml(Cells(header), Rows(body))
  {
    var headers := Cells(header);
    var rows := Rows(body);
    html := "<table>\n<thead><tr>";
    html := AddHeaders(html, headers);
    html := html + "</tr></thead>\n<tbody>";
    html := AddRows(html, rows);
    html := html + "</tbody>\n</table>";
  }

  /** `headers.forEach(h => html += `<th>${h}</th>`)`. */
  method AddHeaders(start: string, headers: seq<string>) returns (html: string)
    ensures html == start + HeaderCells(headers)
  {
    html := start;
    for i := 0 to |headers|
      invariant html == start + HeaderCells(headers[..i])
    {
      HeaderCellsSnoc(headers, i);
      html := html + "<th>" + headers[i] + "</th>";
    }
    assert headers[..|headers|] == headers;
  }

  /** `rows.forEach(...)`, one `<tr>` per row. */
  method AddRows(start: string, rows: seq<seq<string>>) returns (html: string)
    ensures html == start + BodyHtml(rows)
  {
    html := start;
    for j := 0 to |rows|
      invariant html == start + BodyHtml(rows[..j])
    {
      BodyHtmlSnoc(rows, j);
      html := AddRow(html, rows[j]);
    }
    assert rows[..|rows|] == rows;
  }

  /** One row: `<tr>`, a `<td>` per cell, `</tr>`. */
  method AddRow(start: string, row: seq<string>) returns (html: string)
    ensures html == start + RowHtml(row)
  {
    html := start + "<tr>";
    for k := 0 to |row|
      invariant html == start + "<tr>" + DataCells(row[..k])
    {
      DataCellsSnoc(row, k);
      html := html + "<td>" + row[k] + "</td>";
    }
    assert row[..|row|] == row;
    html := html + "</tr>";
  }

  /** Rows are not padded to the header's width: a one-cell row gives one data
      cell whatever the header holds. */
  lemma RowsNotPadded(hs: seq<string>, c: string)
    ensures TableHtml(hs, [[c]])
         == "<table>\n<thead><tr>" + HeaderCells(hs) + "</tr></thead>\n<tbody>" + ("<tr>" + ("<td>" + c + "</td>") + "</tr>") + "</tbody>\n</table>"
  {
    var one: seq<string> := [c];
    assert one[..0] == [];
    assert DataCells(one) == [] + "<td>" + c + "</td>";
    var rows: seq<seq<string>> := [one];
    assert rows[..0] == [];
    assert BodyHtml(rows) == [] + RowHtml(one);
  }

  /** An empty or blank body still yields one empty row. */
  lemma BlankBodyRow(hs: seq<string>, body: string)
    requires AllSpace(body)
    ensures TableHtml(hs, Rows(body))
         == "<table>\n<thead><tr>" + HeaderCells(hs) + "</tr></thead>\n<tbody>" + "<tr></tr>" + "</tbody>\n</table>"
  {
    BlankBody(body);
    var none: seq<seq<string>> := [[]];
    assert none[..0] == [];
    assert BodyHtml(none) == [] + RowHtml([]);
    NoCellsRow();
  }

  lemma NoCellsRow()
    ensures RowHtml([]) == "<tr></tr>"
  {
    assert "<tr>" + [] == "<tr>";
  }

  // ----------------------------------------------------------------- pattern

  /** The class `[-\s|:]` of the separator row. */
  predicate SepChar(c: char) { c == '-' || IsSpace(c) || c == '|' || c == ':' }

  /** Length of the leading run of separator-class characters. */
  function SepRun(s: string): (n: nat)
    ensures n <= |s|
  {
    if s == [] || !SepChar(s[0]) then 0 else 1 + SepRun(s[1..])
  }

  /** The run reaches past a prefix of class characters. */
  lemma {:induction false} SepRunCovers(s: string, k: nat)
    requires k <= |s| && forall i :: 0 <= i < k ==> SepChar(s[i])
    ensures SepRun(s) >= k
  {
    if k > 0 {
      SepRunCovers(s[1..], k - 1);
    }
  }

  /** The run stops at the first character outside the class. */
  lemma {:induction false} SepRunStops(s: string, k: nat)
    requires k < |s| && !SepChar(s[k])
    ensures SepRun(s) <= k
  {
    if k > 0 && SepChar(s[0]) {
      SepRunStops(s[1..], k - 1);
    }
  }

  /** The greedy `[-\s|:]+` followed by `\|\n`: the largest index p in
      lo..top with `|\n` at p. */
  function LastPipeNewline(t: string, lo: nat, top: nat): (r: Option<nat>)
    ensures r.Some? ==> lo <= r.value <= top && HasAt(t, r.value, "|\n")
    ensures r.Some? ==> forall p :: r.value < p <= top ==> !HasAt(t, p, "|\n")
    ensures r.None? ==> forall p :: lo <= p <= top ==> !HasAt(t, p, "|\n")
    decreases top
  {
    if top < lo then None
    else if HasAt(t, top, "|\n") then Some(top)
    else if top == 0 then None
    else LastPipeNewline(t, lo, top - 1)
  }

  /** The search finds the last `|\n` in reach. */
  lemma {:induction false} LastPipeNewlineAt(t: string, lo: nat, top: nat, p0: nat)
    requires lo <= p0 <= top && HasAt(t, p0, "|\n")
    requires forall p :: p0 < p <= top ==> !HasAt(t, p, "|\n")
    ensures LastPipeNewline(t, lo, top) == Some(p0)
    decreases top
  {
    if top > p0 {
      LastPipeNewlineAt(t, lo, top - 1, p0);
    }
  }

  /** The lazy `[\s\S]*?` before `(?=\n\n|$)`: the body ends at the first
      blank line at or after b, or at the end of the text. */
  function BodyEnd(t: string, b: nat): (e: nat)
    requires b <= |t|
    ensures b <= e <= |t|
    ensures e == |t| || HasAt(t, e, "\n\n")
    ensures forall k :: b <= k < e ==> !HasAt(t, k, "\n\n")
  {
    match IndexFrom(t, "\n\n", b)
    case Some(j) => j
    case None => |t|
  }

  /** `\|(.+)\|\n\|` at the start of t: the header `(.+)` cannot cross a line
      terminator, so the `|\n` must end the first line. The result is the index
      of that newline. */
  function HeaderEnd(t: string): (e: Option<nat>)
    ensures e.Some? ==> 3 <= e.value && e.value + 2 <= |t|
  {
    if |t| < 2 || t[0] != '|' then None
    else
      var e := 1 + InlineRules.LineEnd(t[1..]);
      if 3 <= e && e + 1 < |t| && t[e - 1] == '|' && t[e] == '\n' && t[e + 1] == '|' then Some(e)
      else None
  }

  /** `[-\s|:]+\|\n` from index q: the separator may run over several lines,
      since `\s` includes the newline. The result is where the body starts. */
  function SepEnd(t: string, q: nat): (b: Option<nat>)
    requires q <= |t|
    ensures b.Some? ==> q + 3 <= b.value <= |t|
  {
    var run := SepRun(t[q..]);
    if run < 3 then None
    else
      match LastPipeNewline(t, q + 1, q + run - 2)
      case None => None
      case Some(p) => Some(p + 2)
  }

  /** Where the header's newline and the body's start lie, when the header and
      separator rows of the pattern match at the start of t. */
  function TableBounds(t: string): (r: Option<(nat, nat)>)
    ensures r.Some? ==> 3 <= r.value.0 && r.value.0 + 2 <= r.value.1 <= |t|
  {
    match HeaderEnd(t)
    case None => None
    case Some(e) =>
      match SepEnd(t, e + 2)
      case None => None
      case Some(b) => Some((e, b))
  }

  /** The table pattern of js/renderer.js:144 tried at the start of t. */
  function TableMatch(t: string): Step
  {
    match TableBounds(t)
    case None => Miss
    case Some(eb) => TableStep(t, eb.0, eb.1)
  }

  /** The match once the header ends at e and the body starts at b: the
      callback's markup for the header's cells and the body's rows. */
  function TableStep(t: string, e: nat, b: nat): Step
    requires 3 <= e && e + 2 <= b <= |t|
  {
    var end := BodyEnd(t, b);
    Match(end, TableHtml(Cells(t[1..e - 1]), Rows(t[b..end])))
  }

  function TableM(): Matcher { (t: string, bol: bool) => TableMatch(t) }

  /** `Renderer.convertTables`. */
  function ConvertTables(text: string): string { Apply(text, TableM(), true) }

  lemma TableHitsAtPipe()
    ensures forall t: string, b: bool :: Hits(t, TableM(), b) ==> t[0] == '|'
  {
  }

  /** A text without `|` holds no table and is left as it is. */
  lemma NoPipeNoTable(text: string)
    requires '|' !in text
    ensures ConvertTables(text) == text
  {
    TableHitsAtPipe();
    ApplyWithout(text, TableM(), true, '|');
  }

  // ------------------------------------------------------------ recognition

  /** The line `|X|` followed by a newline and the separator's opening `|`. */
  lemma TableHeader(t: string, x: string, u: string)
    requires t == "|" + x + "|\n|" + u
    requires x != [] && InlineRules.NoBreak(x)
    ensures HeaderEnd(t) == Some(|x| + 2)
    ensures t[1..|x| + 1] == x && t[|x| + 4..] == u
  {
    assert t[1..] == (x + "|") + ("\n|" + u);
    assert InlineRules.NoBreak(x + "|") by {
      forall i | 0 <= i < |x| + 1 ensures !IsLineTerminator((x + "|")[i]) {
        if i < |x| { assert (x + "|")[i] == x[i]; }
      }
    }
    InlineRules.LineEndAppend(x + "|", "\n|" + u);
  }

  /** A separator row of class characters without line terminators, followed
      by a body whose first line has a character outside the class at index j:
      the class run covers the separator and its `|\n`, and stops within the
      first body line. */
  lemma SepRunBounds(sep: string, body: string, tail: string, j: nat)
    requires forall i :: 0 <= i < |sep| ==> SepChar(sep[i])
    requires j < |body| && !SepChar(body[j])
    ensures var w := sep + "|\n" + body + tail;
      |sep| + 2 <= SepRun(w) <= |sep| + 2 + j
  {
    var w := sep + "|\n" + body + tail;
    forall i | 0 <= i < |sep| + 2 ensures SepChar(w[i]) {
      if i < |sep| { assert w[i] == sep[i]; }
    }
    SepRunCovers(w, |sep| + 2);
    assert w[|sep| + 2 + j] == body[j];
    SepRunStops(w, |sep| + 2 + j);
  }

  /** The search over the class run ends at index q + n when `|\n` is there and
      the run stops before the next line terminator. */
  lemma SepSearch(t: string, q: nat, n: nat, j: nat, top: nat)
    requires 1 <= n && q + n + 2 + j <= |t| && HasAt(t, q + n, "|\n")
    requires forall i :: q + n + 2 <= i < q + n + 2 + j ==> !IsLineTerminator(t[i])
    requires q + n <= top <= q + n + j
    ensures LastPipeNewline(t, q + 1, top) == Some(q + n)
  {
    HasAtChar(t, q + n, "|\n", q + n + 1);
    forall p | q + n < p <= top ensures !HasAt(t, p, "|\n") {
      HasAtChar(t, p, "|\n", p);
      HasAtChar(t, p, "|\n", p + 1);
    }
    LastPipeNewlineAt(t, q + 1, top, q + n);
  }

  lemma ConcatMid(a: string, b: string, c: string, k: nat)
    requires k < |b|
    ensures (a + b + c)[|a| + k] == b[k]
  {
  }

  /** Under SepRunBounds, the separator's own `|\n` is the last one in reach. */
  lemma SepLast(t: string, q: nat, sep: string, body: string, tail: string, j: nat)
    requires q <= |t| && t[q..] == sep + "|\n" + body + tail
    requires sep != [] && forall i :: 0 <= i < |sep| ==> SepChar(sep[i])
    requires j < |body| && !SepChar(body[j]) && InlineRules.NoBreak(body[..j])
    ensures SepEnd(t, q) == Some(q + |sep| + 2)
  {
    var top := SepLastAt(t, q, sep, body, tail, j);
  }

  lemma SepLastAt(t: string, q: nat, sep: string, body: string, tail: string, j: nat) returns (top: nat)
    requires q <= |t| && t[q..] == sep + "|\n" + body + tail
    requires sep != [] && forall i :: 0 <= i < |sep| ==> SepChar(sep[i])
    requires j < |body| && !SepChar(body[j]) && InlineRules.NoBreak(body[..j])
    ensures SepRun(t[q..]) >= 3 && top == q + SepRun(t[q..]) - 2
    ensures LastPipeNewline(t, q + 1, top) == Some(q + |sep|)
  {
    var w := t[q..];
    SepRunBounds(sep, body, tail, j);
    var n := |sep|;
    assert HasAt(t, q + n, "|\n") by {
      assert w[n..n + 2] == "|\n";
      assert t[q + n..q + n + 2] == w[n..n + 2];
    }
    var a := sep + "|\n";
    forall i | q + n + 2 <= i < q + n + 2 + j ensures !IsLineTerminator(t[i]) {
      var k := i - q - n - 2;
      ConcatMid(a, body, tail, k);
      assert t[i] == w[|a| + k];
      assert body[..j][k] == body[k];
    }
    top := q + SepRun(w) - 2;
    SepSearch(t, q, n, j, top);
  }

  /** The body stops where the following blank line, or the text, begins. */
  lemma BodyStop(t: string, b: nat, body: string, tail: string)
    requires b <= |t| && t[b..] == body + tail
    requires body != [] && body[|body| - 1] != '\n' && !Contains(body, "\n\n")
    requires tail == [] || StartsWith(tail, "\n\n")
    ensures BodyEnd(t, b) == b + |body|
  {
    var e := BodyEnd(t, b);
    var f := b + |body|;
    assert f == |t| || HasAt(t, f, "\n\n") by {
      if tail != [] { assert t[f..f + 2] == tail[..2]; }
    }
    forall k | b <= k < f ensures !HasAt(t, k, "\n\n") {
      if k + 1 < f {
        assert body[k - b..k - b + 2] == t[k..k + 2];
        assert !HasAt(body, k - b, "\n\n");
      } else {
        assert t[k] == body[|body| - 1];
        HasAtChar(t, k, "\n\n", k);
      }
    }
  }

  /** A table row `|X|`, a separator row and a body recognised at the start of
      the text t: the match covers everything before the blank line (or the
      end), and the replacement is built from X's cells and the body's rows. */
  lemma TableAt(t: string, x: string, sep: string, body: string, tail: string, j: nat) returns (end: nat)
    requires t == "|" + x + "|\n|" + sep + "|\n" + body + tail
    requires x != [] && InlineRules.NoBreak(x)
    requires sep != [] && forall i :: 0 <= i < |sep| ==> SepChar(sep[i]) && !IsLineTerminator(sep[i])
    requires j < |body| && !SepChar(body[j]) && InlineRules.NoBreak(body[..j])
    requires body[|body| - 1] != '\n' && !Contains(body, "\n\n")
    requires tail == [] || StartsWith(tail, "\n\n")
    ensures end == |t| - |tail|
    ensures TableMatch(t) == Match(end, TableHtml(Cells(x), Rows(body)))
  {
    var e, b := TableRows(t, x, sep, body, tail, j);
    BodyStop(t, b, body, tail);
    end := b + |body|;
    assert t[b..end] == body;
    TableMatchOf(t, e, b, end);
  }

  /** The header and separator rows of TableAt: where they end, and what
      follows them. */
  lemma TableRows(t: string, x: string, sep: string, body: string, tail: string, j: nat) returns (e: nat, b: nat)
    requires t == "|" + x + "|\n|" + sep + "|\n" + body + tail
    requires x != [] && InlineRules.NoBreak(x)
    requires sep != [] && forall i :: 0 <= i < |sep| ==> SepChar(sep[i])
    requires j < |body| && !SepChar(body[j]) && InlineRules.NoBreak(body[..j])
    ensures e == |x| + 2 && b == |x| + |sep| + 6
    ensures HeaderEnd(t) == Some(e) && 3 <= e && SepEnd(t, e + 2) == Some(b)
    ensures t[1..e - 1] == x && b + |body| + |tail| == |t| && t[b..] == body + tail
  {
    var u := sep + "|\n" + body + tail;
    assert t == "|" + x + "|\n|" + u;
    TableHeader(t, x, u);
    e := |x| + 2;
    var q := |x| + 4;
    SepLast(t, q, sep, body, tail, j);
    b := q + |sep| + 2;
    DropFront(sep + "|\n", body, tail);
    assert t[b..] == u[|sep| + 2..];
  }

  lemma DropFront(a: string, b: string, c: string)
    ensures (a + b + c)[|a|..] == b + c
  {
  }

  /** TableMatch once its three stages are known. */
  lemma TableMatchOf(t: string, e: nat, b: nat, end: nat)
    requires HeaderEnd(t) == Some(e) && SepEnd(t, e + 2) == Some(b) && BodyEnd(t, b) == end
    ensures TableMatch(t) == Match(end, TableHtml(Cells(t[1..e - 1]), Rows(t[b..end])))
  {
    assert TableBounds(t) == Some((e, b));
    assert TableMatch(t) == TableStep(t, e, b);
    TableStepOf(t, e, b, end);
    MatchOf(TableStep(t, e, b), end, TableHtml(Cells(t[1..e - 1]), Rows(t[b..end])));
  }

  lemma TableStepOf(t: string, e: nat, b: nat, end: nat)
    requires 3 <= e && e + 2 <= b <= |t| && BodyEnd(t, b) == end
    ensures TableStep(t, e, b).len == end
    ensures TableStep(t, e, b).rep == TableHtml(Cells(t[1..e - 1]), Rows(t[b..end]))
  {
  }

  // -------------------------------------------------------------- round trip

  /** A cell as a markdown author writes it: non-empty, one line, no `|`, no
      surrounding white space. */
  predicate IsCell(c: string)
  {
    c != [] && '|' !in c && InlineRules.NoBreak(c) && !IsSpace(c[0]) && !IsSpace(c[|c| - 1])
  }

  predicate AllCells(cells: seq<string>) { forall i :: 0 <= i < |cells| ==> IsCell(cells[i]) }

  function Padded(cells: seq<string>): (r: seq<string>)
    ensures |r| == |cells| && forall i :: 0 <= i < |cells| ==> r[i] == " " + cells[i] + " "
  {
    seq(|cells|, i requires 0 <= i < |cells| => " " + cells[i] + " ")
  }

  /** The row `| c1 | c2 | ... |`. */
  function FormatRow(cells: seq<string>): string { "|" + Join(Padded(cells), "|") + "|" }

  /** Body rows, one per line. */
  function FormatBody(rows: seq<seq<string>>): string
  {
    Join(seq(|rows|, i requires 0 <= i < |rows| => FormatRow(rows[i])), "\n")
  }

  /** A whole markdown table: header cells, a separator row and the body. */
  function FormatTable(hs: seq<string>, sep: string, rows: seq<seq<string>>): string
  {
    "|" + Join(Padded(hs), "|") + "|\n|" + sep + "|\n" + FormatBody(rows)
  }

  lemma TrimPadded(c: string)
    requires IsCell(c)
    ensures Trim(" " + c + " ") == c
  {
    var p := " " + c + " ";
    assert LeadingSpace(p[1..]) == 0;
    assert LeadingSpace(p) == 1;
    assert p[..|p| - 1] == " " + c;
    assert TrailingSpace(p[..|p| - 1]) == 0;
    assert TrailingSpace(p) == 1;
    assert p[1..|p| - 1] == c;
  }

  lemma PaddedWithout(cells: seq<string>, c: char)
    requires forall i :: 0 <= i < |cells| ==> c !in cells[i]
    requires c != ' '
    ensures forall i :: 0 <= i < |cells| ==> c !in Padded(cells)[i]
  {
  }

  lemma TrimAllPadded(cells: seq<string>)
    requires AllCells(cells)
    ensures TrimAll(Padded(cells)) == cells
  {
    forall i | 0 <= i < |cells| ensures TrimAll(Padded(cells))[i] == cells[i] {
      TrimPadded(cells[i]);
    }
  }

  /** The cells between the outer pipes of a formatted row are read back. */
  lemma CellsOfInner(cells: seq<string>)
    requires AllCells(cells)
    ensures Cells(Join(Padded(cells), "|")) == cells
  {
    if cells == [] {
      assert Split([], "|") == [[]] by { assert IndexOf([], "|").None?; }
      assert DropEmpty([[]]) == [];
    } else {
      PaddedWithout(cells, '|');
      SplitJoin(Padded(cells), '|');
      TrimAllPadded(cells);
      DropEmptyKeeps(cells);
    }
  }

  /** A formatted row is read back to its cells. */
  lemma CellsOfRow(cells: seq<string>)
    requires AllCells(cells)
    ensures Cells(FormatRow(cells)) == cells
  {
    if cells == [] {
      EmptyRow();
    } else {
      var parts := [[]] + Padded(cells) + [[]];
      JoinWrap(Padded(cells), "|");
      PaddedWithout(cells, '|');
      assert forall i :: 0 <= i < |parts| ==> '|' !in parts[i];
      SplitJoin(parts, '|');
      TrimAllWrap(cells);
      DropEmptyWrap(cells);
    }
  }

  /** `||`, the row without cells. */
  lemma EmptyRow()
    ensures Cells(FormatRow([])) == []
  {
    var parts: seq<string> := [[], [], []];
    assert FormatRow([]) == "||";
    assert Join(parts, "|") == "||";
    SplitJoin(parts, '|');
    assert TrimAll(parts) == parts;
  }

  lemma TrimAllWrap(cells: seq<string>)
    requires AllCells(cells)
    ensures TrimAll([[]] + Padded(cells) + [[]]) == [[]] + cells + [[]]
  {
    var ps := [[]] + Padded(cells) + [[]];
    var want := [[]] + cells + [[]];
    forall i | 0 <= i < |ps| ensures TrimAll(ps)[i] == want[i] {
      WrapAt([], Padded(cells), i);
      WrapAt([], cells, i);
      if 1 <= i <= |cells| {
        TrimPadded(cells[i - 1]);
      } else {
        assert Trim([]) == [];
      }
    }
  }

  lemma WrapAt<T>(e: T, xs: seq<T>, i: nat)
    requires i < |xs| + 2
    ensures ([e] + xs + [e])[i] == if 1 <= i <= |xs| then xs[i - 1] else e
  {
  }

  lemma DropEmptyWrap(cells: seq<string>)
    requires forall i :: 0 <= i < |cells| ==> cells[i] != []
    ensures DropEmpty([[]] + cells + [[]]) == cells
  {
    DropEmptyConcat([[]] + cells, [[]]);
    DropEmptyConcat([[]], cells);
    DropEmptyKeeps(cells);
  }

  /** The characters of a formatted row: pipes, spaces and the cells' own. */
  lemma RowChars(cells: seq<string>, p: char -> bool)
    requires p('|') && p(' ')
    requires forall k, i :: 0 <= k < |cells| && 0 <= i < |cells[k]| ==> p(cells[k][i])
    ensures forall i :: 0 <= i < |FormatRow(cells)| ==> p(FormatRow(cells)[i])
  {
    var ps := Padded(cells);
    forall k, i | 0 <= k < |ps| && 0 <= i < |ps[k]| ensures p(ps[k][i]) {
      if 0 < i < |ps[k]| - 1 { assert ps[k][i] == cells[k][i - 1]; }
    }
    JoinChars(ps, "|", p);
    var j := Join(ps, "|");
    forall i | 0 <= i < |FormatRow(cells)| ensures p(FormatRow(cells)[i]) {
      if 0 < i < |j| + 1 { assert FormatRow(cells)[i] == j[i - 1]; }
    }
  }

  predicate NotNewline(c: char) { c != '\n' }

  lemma RowOneLine(cells: seq<string>)
    requires AllCells(cells)
    ensures '\n' !in FormatRow(cells)
  {
    forall k, i | 0 <= k < |cells| && 0 <= i < |cells[k]| ensures NotNewline(cells[k][i]) {
      assert !IsLineTerminator(cells[k][i]);
    }
    RowChars(cells, NotNewline);
  }

  /** The lines of a formatted body. */
  function RowLines(rows: seq<seq<string>>): (r: seq<string>)
    ensures |r| == |rows| && forall i :: 0 <= i < |rows| ==> r[i] == FormatRow(rows[i])
  {
    seq(|rows|, i requires 0 <= i < |rows| => FormatRow(rows[i]))
  }

  lemma FormatRowEnds(cells: seq<string>)
    ensures |FormatRow(cells)| >= 2 && FormatRow(cells)[0] == '|'
    ensures FormatRow(cells)[|FormatRow(cells)| - 1] == '|'
  {
  }

  /** The formatted body is its own trim, and reads back as the rows. */
  lemma RowsOfBody(rows: seq<seq<string>>)
    requires rows != [] && forall i :: 0 <= i < |rows| ==> AllCells(rows[i])
    ensures Rows(FormatBody(rows)) == rows
  {
    var lines := RowLines(rows);
    var body := FormatBody(rows);
    assert body == Join(lines, "\n");
    FormatRowEnds(rows[0]);
    FormatRowEnds(rows[|rows| - 1]);
    JoinHead(lines, "\n", 0);
    JoinLast(lines, "\n");
    TrimOfTrimmed(body);
    forall i | 0 <= i < |lines| ensures '\n' !in lines[i] {
      RowOneLine(rows[i]);
    }
    SplitJoin(lines, '\n');
    forall i | 0 <= i < |rows| ensures Rows(body)[i] == rows[i] {
      CellsOfRow(rows[i]);
    }
  }

  /** What TableAt needs of a formatted body. */
  lemma BodyShape(rows: seq<seq<string>>)
    requires rows != [] && forall i :: 0 <= i < |rows| ==> AllCells(rows[i])
    ensures var body := FormatBody(rows);
      body != [] && body[|body| - 1] == '|' && !Contains(body, "\n\n")
  {
    var lines := RowLines(rows);
    var body := FormatBody(rows);
    FormatRowEnds(rows[|rows| - 1]);
    JoinLast(lines, "\n");
    forall i | 0 <= i < |lines| ensures lines[i] != [] && '\n' !in lines[i] {
      FormatRowEnds(rows[i]);
      RowOneLine(rows[i]);
    }
    JoinNoDouble(lines, '\n');
    NoDouble(body);
  }

  lemma NoDouble(s: string)
    requires forall k :: 0 <= k < |s| - 1 ==> !(s[k] == '\n' && s[k + 1] == '\n')
    ensures !Contains(s, "\n\n")
  {
    forall k | 0 <= k <= |s| ensures !HasAt(s, k, "\n\n") {
      HasAtChar(s, k, "\n\n", k);
      HasAtChar(s, k, "\n\n", k + 1);
    }
  }

  predicate NotBreak(c: char) { !IsLineTerminator(c) }

  lemma HeaderShape(hs: seq<string>)
    requires hs != [] && AllCells(hs)
    ensures Join(Padded(hs), "|") != [] && InlineRules.NoBreak(Join(Padded(hs), "|"))
  {
    var ps := Padded(hs);
    JoinHead(ps, "|", 0);
    forall k, i | 0 <= k < |ps| && 0 <= i < |ps[k]| ensures NotBreak(ps[k][i]) {
      if 0 < i < |ps[k]| - 1 { assert ps[k][i] == hs[k][i - 1]; }
    }
    JoinChars(ps, "|", NotBreak);
  }

  /** Every character of s is in the separator class `[-\s|:]`. */
  predicate SepOnly(s: string) { forall i :: 0 <= i < |s| ==> SepChar(s[i]) }

  /** A character outside the separator class on the first body row: it lies
      on the body's first line, where the separator's greedy run stops. */
  lemma FirstRowStops(rows: seq<seq<string>>) returns (j: nat)
    requires rows != [] && forall i :: 0 <= i < |rows| ==> AllCells(rows[i])
    requires !SepOnly(FormatRow(rows[0]))
    ensures j < |FormatBody(rows)| && !SepChar(FormatBody(rows)[j])
    ensures InlineRules.NoBreak(FormatBody(rows)[..j])
  {
    var lines := RowLines(rows);
    var body := FormatBody(rows);
    var row := FormatRow(rows[0]);
    assert body == Join(lines, "\n");
    j :| 0 <= j < |row| && !SepChar(row[j]);
    forall k, i | 0 <= k < |rows[0]| && 0 <= i < |rows[0][k]| ensures NotBreak(rows[0][k][i]) {
      assert IsCell(rows[0][k]);
    }
    RowChars(rows[0], NotBreak);
    JoinHead(lines, "\n", j);
    forall k | 0 <= k < j ensures !IsLineTerminator(body[..j][k]) {
      JoinHead(lines, "\n", k);
      assert NotBreak(row[k]);
    }
  }

  /** A body row made only of separator characters, with a line break after
      it, is swallowed: the greedy separator runs on over it, and the body
      starts on the next line. The row is `r|`, and it comes right after the
      separator row `|sep|`. */
  lemma SwallowedRow(x: string, sep: string, r: string, body: string, tail: string, j: nat)
    requires x != [] && InlineRules.NoBreak(x)
    requires sep != [] && SepOnly(sep) && SepOnly(r)
    requires j < |body| && !SepChar(body[j]) && InlineRules.NoBreak(body[..j])
    ensures TableBounds("|" + x + "|\n|" + (sep + "|\n" + r) + "|\n" + body + tail)
         == Some((|x| + 2, |x| + |sep| + |r| + 8))
  {
    var s2 := sep + "|\n" + r;
    SepRows(sep, r);
    var t := "|" + x + "|\n|" + s2 + "|\n" + body + tail;
    var e, b := TableRows(t, x, s2, body, tail, j);
    BoundsOf(t, e, b);
  }

  /** A separator row, its `|\n` and a row of class characters are all
      class characters. */
  lemma SepRows(sep: string, r: string)
    requires SepOnly(sep) && SepOnly(r)
    ensures SepOnly(sep + "|\n" + r) && |sep + "|\n" + r| == |sep| + |r| + 2
  {
    var s2 := sep + "|\n" + r;
    forall i | 0 <= i < |s2| ensures SepChar(s2[i]) {
      if i >= |sep| + 2 { assert s2[i] == r[i - |sep| - 2]; }
      else if i < |sep| { assert s2[i] == sep[i]; }
    }
  }

  lemma BoundsOf(t: string, e: nat, b: nat)
    requires HeaderEnd(t) == Some(e) && SepEnd(t, e + 2) == Some(b)
    ensures TableBounds(t) == Some((e, b))
  {
  }

  /** A body row holding a character outside the separator class stops the
      separator, and the body starts at that row. */
  lemma KeptRow(x: string, sep: string, row: string, rest: string, tail: string)
    requires x != [] && InlineRules.NoBreak(x)
    requires sep != [] && SepOnly(sep)
    requires InlineRules.NoBreak(row) && !SepOnly(row)
    ensures TableBounds("|" + x + "|\n|" + sep + "|\n" + (row + rest) + tail)
         == Some((|x| + 2, |x| + |sep| + 6))
  {
    var t := "|" + x + "|\n|" + sep + "|\n" + (row + rest) + tail;
    var j := RowStop(row, rest);
    var e, b := TableRows(t, x, sep, row + rest, tail, j);
    BoundsOf(t, e, b);
  }

  /** A character of a one-line row outside the separator class. */
  lemma RowStop(row: string, rest: string) returns (j: nat)
    requires InlineRules.NoBreak(row) && !SepOnly(row)
    ensures j < |row + rest| && !SepChar((row + rest)[j]) && InlineRules.NoBreak((row + rest)[..j])
  {
    j :| 0 <= j < |row| && !SepChar(row[j]);
    assert (row + rest)[j] == row[j] && (row + rest)[..j] == row[..j];
  }

  /** A table written out in markdown, with header cells hs, a separator row
      and body rows, is recognised as one match and replaced by the markup of
      exactly those cells and rows. The first body row must hold a character
      outside the separator class: a row made only of `-`, `:`, `|` and white
      space, with a line break after it, is swallowed by the greedy separator
      (see `SwallowedRow`). */
  lemma TableRoundTrip(hs: seq<string>, sep: string, rows: seq<seq<string>>, tail: string)
    requires hs != [] && AllCells(hs)
    requires sep != [] && forall i :: 0 <= i < |sep| ==> SepChar(sep[i]) && !IsLineTerminator(sep[i])
    requires rows != [] && forall i :: 0 <= i < |rows| ==> AllCells(rows[i])
    requires !SepOnly(FormatRow(rows[0]))
    requires tail == [] || StartsWith(tail, "\n\n")
    ensures TableMatch(FormatTable(hs, sep, rows) + tail)
         == Match(|FormatTable(hs, sep, rows)|, TableHtml(hs, rows))
  {
    FormattedAt(hs, sep, rows, tail);
    CellsOfInner(hs);
    RowsOfBody(rows);
  }

  /** TableAt on a formatted table: the match and the texts it reads. */
  lemma FormattedAt(hs: seq<string>, sep: string, rows: seq<seq<string>>, tail: string)
    requires hs != [] && AllCells(hs)
    requires sep != [] && forall i :: 0 <= i < |sep| ==> SepChar(sep[i]) && !IsLineTerminator(sep[i])
    requires rows != [] && forall i :: 0 <= i < |rows| ==> AllCells(rows[i])
    requires !SepOnly(FormatRow(rows[0]))
    requires tail == [] || StartsWith(tail, "\n\n")
    ensures TableMatch(FormatTable(hs, sep, rows) + tail)
         == Match(|FormatTable(hs, sep, rows)|, TableHtml(Cells(Join(Padded(hs), "|")), Rows(FormatBody(rows))))
  {
    var x := Join(Padded(hs), "|");
    var body := FormatBody(rows);
    var t := FormatTable(hs, sep, rows) + tail;
    HeaderShape(hs);
    BodyShape(rows);
    var j := FirstRowStops(rows);
    var end := TableAt(t, x, sep, body, tail, j);
  }

  /** In a text, the first table after a stretch without `|` is replaced and
      the scan goes on after it. */
  lemma TableInText(a: string, hs: seq<string>, sep: string, rows: seq<seq<string>>, tail: string)
    requires '|' !in a
    requires hs != [] && AllCells(hs)
    requires sep != [] && forall i :: 0 <= i < |sep| ==> SepChar(sep[i]) && !IsLineTerminator(sep[i])
    requires rows != [] && forall i :: 0 <= i < |rows| ==> AllCells(rows[i])
    requires !SepOnly(FormatRow(rows[0]))
    requires tail == [] || StartsWith(tail, "\n\n")
    ensures ConvertTables(a + FormatTable(hs, sep, rows) + tail)
         == a + TableHtml(hs, rows) + Apply(tail, TableM(), false)
  {
    var md := FormatTable(hs, sep, rows);
    var h := TableHtml(hs, rows);
    TableRoundTrip(hs, sep, rows, tail);
    TableHitsAtPipe();
    ApplyHitAfterWithout(a, md, tail, TableM(), true, '|', h);
    BodyShape(rows);
    LastOfFormatTable(hs, sep, rows);
  }

  lemma LastOfFormatTable(hs: seq<string>, sep: string, rows: seq<seq<string>>)
    requires FormatBody(rows) != [] && FormatBody(rows)[|FormatBody(rows)| - 1] == '|'
    ensures var md := FormatTable(hs, sep, rows); md != [] && md[|md| - 1] == '|'
  {
  }
}
