/**
 * The JavaScript string built-ins that the source relies on, over `seq<char>`:
 * the `\s` and line-terminator classes of ECMAScript regular expressions,
 * `trim`, `split`/`join`, `indexOf`, `lastIndexOf`, `substring` and a
 * first-occurrence literal `replace`.
 */
module Strings {

  datatype Option<T> = None | Some(value: T)

  /** ECMAScript WhiteSpace and LineTerminator code points: the set matched by
      `\s` and removed by `String.prototype.trim`. */
  predicate IsSpace(c: char)
  {
    || c == ' ' || c == '\t' || c == '\n' || c == '\r'
    || c == '\U{000B}' || c == '\U{000C}'
    || c == '\U{00A0}' || c == '\U{1680}'
    || ('\U{2000}' <= c <= '\U{200A}')
    || c == '\U{2028}' || c == '\U{2029}' || c == '\U{202F}'
    || c == '\U{205F}' || c == '\U{3000}' || c == '\U{FEFF}'
  }

  /** The code points `.` does not match and at which a multiline `^`/`$` anchors. */
  predicate IsLineTerminator(c: char)
  {
    c == '\n' || c == '\r' || c == '\U{2028}' || c == '\U{2029}'
  }

  lemma LineTerminatorIsSpace(c: char)
    requires IsLineTerminator(c)
    ensures IsSpace(c)
  {
  }

  predicate IsDigit(c: char) { '0' <= c <= '9' }
  predicate IsUpper(c: char) { 'A' <= c <= 'Z' }
  predicate IsLower(c: char) { 'a' <= c <= 'z' }

  /** `\w` without the `u` flag: ASCII letters, digits and underscore. */
  predicate IsWordChar(c: char) { IsUpper(c) || IsLower(c) || IsDigit(c) || c == '_' }

  function ToLowerChar(c: char): (r: char)
    ensures IsUpper(c) ==> IsLower(r)
    ensures !IsUpper(c) ==> r == c
  {
    if IsUpper(c) then (c as int + 32) as char else c
  }

  /** `toLowerCase`, on the ASCII letters. */
  function ToLower(s: string): (r: string)
    ensures |r| == |s|
    ensures forall i :: 0 <= i < |s| ==> r[i] == ToLowerChar(s[i])
  {
    seq(|s|, i requires 0 <= i < |s| => ToLowerChar(s[i]))
  }

  predicate AllSpace(s: string) { forall i :: 0 <= i < |s| ==> IsSpace(s[i]) }

  /** s holds pat at index i. */
  predicate HasAt(s: string, i: nat, pat: string)
  {
    i + |pat| <= |s| && s[i..i + |pat|] == pat
  }

  predicate StartsWith(s: string, pat: string) { HasAt(s, 0, pat) }

  /** The characters of an occurrence are the pattern's. */
  lemma HasAtChar(s: string, k: nat, pat: string, i: nat)
    ensures HasAt(s, k, pat) && k <= i < k + |pat| ==> s[i] == pat[i - k]
  {
    if HasAt(s, k, pat) && k <= i < k + |pat| { assert s[k..k + |pat|][i - k] == s[i]; }
  }

  predicate Contains(s: string, pat: string)
  {
    exists i :: 0 <= i <= |s| && HasAt(s, i, pat)
  }

  /** Number of leading characters that `trim` removes. */
  function LeadingSpace(s: string): (n: nat)
    ensures n <= |s|
    ensures AllSpace(s[..n])
    ensures n < |s| ==> !IsSpace(s[n])
  {
    if s == [] || !IsSpace(s[0]) then 0 else 1 + LeadingSpace(s[1..])
  }

  /** Number of trailing characters that `trim` removes. */
  function TrailingSpace(s: string): (n: nat)
    ensures n <= |s|
    ensures AllSpace(s[|s| - n..])
    ensures n < |s| ==> !IsSpace(s[|s| - n - 1])
  {
    if s == [] || !IsSpace(s[|s| - 1]) then 0 else 1 + TrailingSpace(s[..|s| - 1])
  }

  /** `String.prototype.trim`. */
  function Trim(s: string): (r: string)
    ensures |r| <= |s|
    ensures r == [] || (!IsSpace(r[0]) && !IsSpace(r[|r| - 1]))
    ensures exists i :: 0 <= i <= |s| - |r| && s[i..i + |r|] == r && AllSpace(s[..i]) && AllSpace(s[i + |r|..])
  {
    var a := LeadingSpace(s);
    if a == |s| then
      assert s[0..0] == [] && s[..0] == [] && s[0..] == s;
      []
    else
      var b := |s| - TrailingSpace(s);
      TrimSlice(s, a, b);
      var r := s[a..b];
      assert r[0] == s[a] && r[|r| - 1] == s[b - 1];
      assert 0 <= a <= |s| - |r| && s[a..a + |r|] == r && AllSpace(s[..a]) && AllSpace(s[a + |r|..]);
      r
  }

  /** The slice `trim` keeps: non-space at both ends, only spaces around it. */
  lemma {:induction false} TrimSlice(s: string, a: nat, b: nat)
    requires a == LeadingSpace(s) < |s| && b == |s| - TrailingSpace(s)
    ensures a < b && !IsSpace(s[a]) && !IsSpace(s[b - 1])
    ensures s[a..a + (b - a)] == s[a..b] && AllSpace(s[..a]) && AllSpace(s[b..])
  {
    TrailingAfter(s, a);
  }

  /** `trim` keeps only characters of its input. */
  lemma {:induction false} TrimChars(s: string)
    ensures forall c :: c in Trim(s) ==> c in s
  {
    var a := LeadingSpace(s);
    if a < |s| {
      var b := |s| - TrailingSpace(s);
      TrimSlice(s, a, b);
      assert Trim(s) == s[a..b];
      forall c | c in s[a..b] ensures c in s {
        var k :| 0 <= k < b - a && s[a..b][k] == c;
        assert s[a + k] == c;
      }
    }
  }

  /** The trailing run starts after any character that is not a space. */
  lemma {:induction false} TrailingAfter(s: string, a: nat)
    requires a < |s| && !IsSpace(s[a])
    ensures a < |s| - TrailingSpace(s)
  {
    var n := TrailingSpace(s);
    forall k | |s| - n <= k < |s|
      ensures IsSpace(s[k])
    {
      assert s[k] == s[|s| - n..][k - (|s| - n)];
    }
  }

  lemma TrimOfTrimmed(s: string)
    requires s == [] || (!IsSpace(s[0]) && !IsSpace(s[|s| - 1]))
    ensures Trim(s) == s
  {
  }

  lemma TrimAllSpace(s: string)
    requires AllSpace(s)
    ensures Trim(s) == []
  {
  }

  /** `s.indexOf(pat, from)`, as the first index at or after `from`. */
  function IndexFrom(s: string, pat: string, from: nat): (r: Option<nat>)
    ensures r.Some? ==> from <= r.value && HasAt(s, r.value, pat)
    ensures r.Some? ==> forall k :: from <= k < r.value ==> !HasAt(s, k, pat)
    ensures r.None? ==> forall k :: from <= k <= |s| ==> !HasAt(s, k, pat)
    decreases |s| - from
  {
    if from + |pat| > |s| then None
    else if HasAt(s, from, pat) then Some(from)
    else IndexFrom(s, pat, from + 1)
  }

  function IndexOf(s: string, pat: string): (r: Option<nat>)
    ensures r.Some? ==> HasAt(s, r.value, pat) && forall k :: 0 <= k < r.value ==> !HasAt(s, k, pat)
    ensures r.None? <==> !Contains(s, pat)
  {
    var r := IndexFrom(s, pat, 0);
    assert r.Some? ==> r.value <= |s| && HasAt(s, r.value, pat);
    r
  }

  lemma HasAtSingle(s: string, k: nat, c: char)
    ensures HasAt(s, k, [c]) <==> k < |s| && s[k] == c
  {
    if k < |s| { assert s[k..k + 1] == [s[k]]; }
  }

  /** An occurrence inside a prefix is an occurrence in the whole string. */
  lemma HasAtPrefix(s: string, n: nat, k: nat, pat: string)
    requires n <= |s|
    ensures HasAt(s[..n], k, pat) ==> HasAt(s, k, pat) && k + |pat| <= n
  {
    if HasAt(s[..n], k, pat) {
      assert s[..n][k..k + |pat|] == s[k..k + |pat|];
    }
  }

  /** `s.lastIndexOf(c, from)` for a one-character pattern: the largest index at
      or below `from`, clamped into the string, holding c, or -1. A negative
      `from` still looks at index 0. */
  function LastIndexOf(s: string, c: char, from: int): (r: int)
    ensures -1 <= r < |s| && (r == -1 || r <= from || r == 0)
    ensures r >= 0 ==> s[r] == c
    ensures forall k :: r < k < |s| && (k <= from || k == 0) ==> s[k] != c
  {
    if s == [] then -1
    else LastAt(s, c, if from < 0 then 0 else if from >= |s| then |s| - 1 else from)
  }

  /** The scan of `LastIndexOf` from an index inside the string down to 0. */
  function LastAt(s: string, c: char, i: nat): (r: int)
    requires i < |s|
    ensures -1 <= r <= i && (r >= 0 ==> s[r] == c)
    ensures forall k :: r < k <= i ==> s[k] != c
    decreases i
  {
    if s[i] == c then i
    else if i == 0 then -1
    else LastAt(s, c, i - 1)
  }

  /** `String.prototype.substring`: both ends are clamped into [0, |s|] and swapped
      when the first exceeds the second. */
  function Substring(s: string, a: int, b: int): (r: string)
    ensures 0 <= a <= b <= |s| ==> r == s[a..b]
    ensures 0 <= b <= a <= |s| ==> r == s[b..a]
  {
    var x := if a < 0 then 0 else if a > |s| then |s| else a;
    var y := if b < 0 then 0 else if b > |s| then |s| else b;
    if x <= y then s[x..y] else s[y..x]
  }

  /** `s.split(sep)` for a non-empty separator. */
  function Split(s: string, sep: string): (r: seq<string>)
    requires |sep| > 0
    ensures |r| >= 1
    ensures forall i :: 0 <= i < |r| ==> !Contains(r[i], sep)
    decreases |s|
  {
    match IndexOf(s, sep)
    case None => [s]
    case Some(i) =>
      assert !Contains(s[..i], sep) by {
        forall k | 0 <= k <= i ensures !HasAt(s[..i], k, sep) {
          HasAtPrefix(s, i, k, sep);
        }
      }
      [s[..i]] + Split(s[i + |sep|..], sep)
  }

  /** `parts.join(sep)`. */
  function Join(parts: seq<string>, sep: string): string
  {
    if parts == [] then []
    else if |parts| == 1 then parts[0]
    else parts[0] + sep + Join(parts[1..], sep)
  }

  lemma {:induction false} JoinSplit(s: string, sep: string)
    requires |sep| > 0
    ensures Join(Split(s, sep), sep) == s
    decreases |s|
  {
    match IndexOf(s, sep)
    case None =>
    case Some(i) =>
      var rest := s[i + |sep|..];
      JoinSplit(rest, sep);
      JoinCons(s[..i], Split(rest, sep), sep);
      AroundMatch(s, i, sep);
  }

  lemma JoinCons(p: string, ps: seq<string>, sep: string)
    requires ps != []
    ensures Join([p] + ps, sep) == p + sep + Join(ps, sep)
  {
    assert ([p] + ps)[1..] == ps;
  }

  lemma AroundMatch(s: string, i: nat, pat: string)
    requires HasAt(s, i, pat)
    ensures s == s[..i] + pat + s[i + |pat|..]
  {
    assert s == s[..i] + s[i..i + |pat|] + s[i + |pat|..];
  }

  lemma {:induction false} SplitJoin(parts: seq<string>, c: char)
    requires |parts| >= 1
    requires forall i :: 0 <= i < |parts| ==> c !in parts[i]
    ensures Split(Join(parts, [c]), [c]) == parts
    decreases |parts|
  {
    var p := parts[0];
    assert !Contains(p, [c]) by {
      forall k | 0 <= k <= |p| ensures !HasAt(p, k, [c]) {
        HasAtSingle(p, k, c);
      }
    }
    if |parts| == 1 {
      assert IndexOf(p, [c]).None?;
    } else {
      var j := Join(parts[1..], [c]);
      var s := p + [c] + j;
      assert HasAt(s, |p|, [c]);
      assert forall k :: 0 <= k < |p| ==> !HasAt(s, k, [c]) by {
        forall k | 0 <= k < |p| ensures !HasAt(s, k, [c]) {
          assert s[k] == p[k];
        }
      }
      assert IndexOf(s, [c]) == Some(|p|);
      assert s[..|p|] == p;
      assert s[|p| + 1..] == j;
      SplitJoin(parts[1..], c);
    }
  }

  /** Splitting on a character splits at its first occurrence. */
  lemma SplitFirst(p: string, c: char, rest: string)
    requires c !in p
    ensures Split(p + [c] + rest, [c]) == [p] + Split(rest, [c])
  {
    var s := p + [c] + rest;
    HasAtSingle(s, |p|, c);
    forall k | 0 <= k < |p| ensures !HasAt(s, k, [c]) {
      HasAtSingle(s, k, c);
      assert s[k] == p[k];
    }
    assert IndexOf(s, [c]) == Some(|p|);
    assert s[..|p|] == p && s[|p| + 1..] == rest;
  }

  /** A string without the separator character is one part. */
  lemma SplitNone(s: string, c: char)
    requires c !in s
    ensures Split(s, [c]) == [s]
  {
    forall k | 0 <= k <= |s| ensures !HasAt(s, k, [c]) { HasAtSingle(s, k, c); }
  }

  lemma {:induction false} JoinSnoc(parts: seq<string>, y: string, sep: string)
    requires parts != []
    ensures Join(parts + [y], sep) == Join(parts, sep) + sep + y
    decreases |parts|
  {
    var ps := parts + [y];
    assert ps[0] == parts[0];
    if |parts| == 1 {
      assert ps[1..] == [y];
    } else {
      assert ps[1..] == parts[1..] + [y];
      JoinSnoc(parts[1..], y, sep);
    }
  }

  /** Joining with an empty part at each end puts a separator at each end. */
  lemma JoinWrap(parts: seq<string>, sep: string)
    requires parts != []
    ensures Join([[]] + parts + [[]], sep) == sep + Join(parts, sep) + sep
  {
    var ps := [[]] + parts + [[]];
    assert ps[1..] == parts + [[]];
    JoinSnoc(parts, [], sep);
    assert Join(ps, sep) == [] + sep + Join(parts + [[]], sep);
  }

  /** A property of every character of the parts and the separator holds of
      every character of the join. */
  lemma {:induction false} JoinChars(parts: seq<string>, sep: string, p: char -> bool)
    requires forall i :: 0 <= i < |sep| ==> p(sep[i])
    requires forall k, i :: 0 <= k < |parts| && 0 <= i < |parts[k]| ==> p(parts[k][i])
    ensures forall i :: 0 <= i < |Join(parts, sep)| ==> p(Join(parts, sep)[i])
    decreases |parts|
  {
    if |parts| > 1 {
      JoinChars(parts[1..], sep, p);
      var j := Join(parts, sep);
      var rest := Join(parts[1..], sep);
      assert j == parts[0] + sep + rest;
      forall i | 0 <= i < |j| ensures p(j[i]) {
        if i < |parts[0]| {
          assert j[i] == parts[0][i];
        } else if i < |parts[0]| + |sep| {
          assert j[i] == sep[i - |parts[0]|];
        } else {
          assert j[i] == rest[i - |parts[0]| - |sep|];
        }
      }
    }
  }

  /** The first characters of a join are those of its first part. */
  lemma JoinHead(parts: seq<string>, sep: string, k: nat)
    requires parts != [] && k < |parts[0]|
    ensures k < |Join(parts, sep)| && Join(parts, sep)[k] == parts[0][k]
  {
  }

  lemma {:induction false} JoinLast(parts: seq<string>, sep: string)
    requires parts != [] && parts[|parts| - 1] != []
    ensures Join(parts, sep) != []
    ensures Join(parts, sep)[|Join(parts, sep)| - 1] == parts[|parts| - 1][|parts[|parts| - 1]| - 1]
    decreases |parts|
  {
    if |parts| > 1 {
      JoinLast(parts[1..], sep);
    }
  }

  /** Non-empty parts without c, joined by c, never hold c twice in a row. */
  lemma {:induction false} JoinNoDouble(parts: seq<string>, c: char)
    requires forall i :: 0 <= i < |parts| ==> parts[i] != [] && c !in parts[i]
    ensures forall k :: 0 <= k < |Join(parts, [c])| - 1 ==> !(Join(parts, [c])[k] == c && Join(parts, [c])[k + 1] == c)
    decreases |parts|
  {
    if |parts| > 1 {
      var p := parts[0];
      var rest := Join(parts[1..], [c]);
      var j := Join(parts, [c]);
      assert j == p + [c] + rest;
      JoinNoDouble(parts[1..], c);
      JoinHead(parts[1..], [c], 0);
      forall k | 0 <= k < |j| - 1 ensures !(j[k] == c && j[k + 1] == c) {
        if k < |p| {
          assert j[k] == p[k];
        } else if k == |p| {
          assert j[k + 1] == rest[0];
        } else {
          assert j[k] == rest[k - |p| - 1] && j[k + 1] == rest[k - |p|];
        }
      }
    }
  }

  /** Number of occurrences of c in s. */
  function CountChar(s: string, c: char): (n: nat)
    ensures n <= |s|
  {
    if s == [] then 0 else (if s[0] == c then 1 else 0) + CountChar(s[1..], c)
  }

  lemma {:induction false} SplitCount(s: string, c: char)
    ensures |Split(s, [c])| == CountChar(s, c) + 1
    decreases |s|
  {
    match IndexOf(s, [c])
    case None =>
      forall k | 0 <= k < |s| ensures s[k] != c { HasAtSingle(s, k, c); }
      NoOccurrenceCount(s, c);
    case Some(i) =>
      HasAtSingle(s, i, c);
      assert s == s[..i] + [c] + s[i + 1..];
      forall k | 0 <= k < i ensures s[..i][k] != c { HasAtSingle(s, k, c); }
      NoOccurrenceCount(s[..i], c);
      assert s == s[..i] + ([c] + s[i + 1..]);
      CountAppend(s[..i], [c] + s[i + 1..], c);
      CountAppend([c], s[i + 1..], c);
      assert [c][1..] == [];
      assert CountChar([c], c) == 1;
      SplitCount(s[i + 1..], c);
      assert Split(s, [c]) == [s[..i]] + Split(s[i + 1..], [c]);
  }

  lemma {:induction false} NoOccurrenceCount(s: string, c: char)
    requires forall k :: 0 <= k < |s| ==> s[k] != c
    ensures CountChar(s, c) == 0
    decreases |s|
  {
    if s != [] { NoOccurrenceCount(s[1..], c); }
  }

  lemma {:induction false} CountAppend(a: string, b: string, c: char)
    ensures CountChar(a + b, c) == CountChar(a, c) + CountChar(b, c)
    decreases |a|
  {
    if a == [] {
      assert a + b == b;
    } else {
      assert (a + b)[0] == a[0];
      assert (a + b)[1..] == a[1..] + b;
      CountAppend(a[1..], b, c);
    }
  }

  /** `s.replace(pat, rep)` with a string pattern: the first occurrence is
      replaced by rep with its `$` patterns expanded; unchanged when pat is absent. */
  function ReplaceFirst(s: string, pat: string, rep: string): (r: string)
    ensures !Contains(s, pat) ==> r == s
    ensures Contains(s, pat) ==>
      exists i :: 0 <= i <= |s| - |pat| && FirstAt(s, i, pat) && r == s[..i] + Expand(rep, pat, s[..i], s[i + |pat|..]) + s[i + |pat|..]
  {
    match IndexOf(s, pat)
    case None => s
    case Some(i) => assert FirstAt(s, i, pat); s[..i] + Expand(rep, pat, s[..i], s[i + |pat|..]) + s[i + |pat|..]
  }

  /** GetSubstitution of the ECMAScript specification when there are no capture
      groups: `$$` is a dollar, `$&` the match, `` $` `` the text before it, `$'`
      the text after it; any other `$` is literal. */
  function Expand(rep: string, matched: string, before: string, after: string): string
  {
    if rep == [] then []
    else if rep[0] == '$' && |rep| >= 2 && rep[1] in "$&`'" then
      (if rep[1] == '$' then "$" else if rep[1] == '&' then matched else if rep[1] == '`' then before else after)
        + Expand(rep[2..], matched, before, after)
    else [rep[0]] + Expand(rep[1..], matched, before, after)
  }

  /** A replacement without `$` is inserted as it is. */
  lemma {:induction false} ExpandPlain(rep: string, matched: string, before: string, after: string)
    requires '$' !in rep
    ensures Expand(rep, matched, before, after) == rep
  {
    if rep != [] {
      assert rep[0] != '$';
      ExpandPlain(rep[1..], matched, before, after);
      assert rep == [rep[0]] + rep[1..];
    }
  }

  /** `$$` collapses to a single dollar, so a replacement is not always inserted verbatim. */
  lemma DollarCollapses()
    ensures Expand("$$x$$", "t", "", "") == "$x$"
  {
  }

  /** i is the first index of s holding pat. */
  predicate FirstAt(s: string, i: nat, pat: string)
  {
    HasAt(s, i, pat) && forall k :: 0 <= k < i ==> !HasAt(s, k, pat)
  }

  /** Decimal rendering of a natural number, used by string templates. */
  function NatToString(n: nat): (r: string)
    ensures |r| >= 1
    ensures forall i :: 0 <= i < |r| ==> IsDigit(r[i])
    decreases n
  {
    if n < 10 then [('0' as int + n) as char]
    else NatToString(n / 10) + [('0' as int + n % 10) as char]
  }

  /** The end of the run of characters satisfying p that starts at index i. */
  function SpanEnd(t: string, i: nat, p: char -> bool): (j: nat)
    requires i <= |t|
    ensures i <= j <= |t| && (j < |t| ==> !p(t[j]))
    ensures forall k :: i <= k < j ==> p(t[k])
    decreases |t| - i
  {
    if i == |t| || !p(t[i]) then i else SpanEnd(t, i + 1, p)
  }

  /** A run only looks at the text from its start on. */
  lemma {:induction false} SpanTransfer(f: string, g: string, a: nat, i: nat, p: char -> bool)
    requires a <= |f| && i <= |g| && f[a..] == g[i..]
    ensures SpanEnd(f, a, p) - a == SpanEnd(g, i, p) - i
    decreases |f| - a
  {
    if a < |f| {
      assert f[a] == f[a..][0] == g[i];
      assert f[a + 1..] == f[a..][1..] == g[i..][1..] == g[i + 1..];
      SpanTransfer(f, g, a + 1, i + 1, p);
    }
  }

  /** The run from i ends at j when everything before j satisfies p and t[j] does not. */
  lemma {:induction false} SpanEndAt(t: string, i: nat, j: nat, p: char -> bool)
    requires i <= j <= |t| && (j < |t| ==> !p(t[j]))
    requires forall k :: i <= k < j ==> p(t[k])
    ensures SpanEnd(t, i, p) == j
    decreases j - i
  {
    if i < j { SpanEndAt(t, i + 1, j, p); }
  }

  lemma SeqAssoc<T>(a: seq<T>, b: seq<T>, c: seq<T>)
    ensures (a + b) + c == a + (b + c)
  {
  }

  lemma Cat4<T>(r: seq<T>, a: seq<T>, b: seq<T>, c: seq<T>)
    ensures r + a + b + c == r + (a + b + c)
  {
  }

  lemma SliceSplit<T>(s: seq<T>, i: nat, j: nat, k: nat)
    requires i <= j <= k <= |s|
    ensures s[i..k] == s[i..j] + s[j..k]
  {
  }

  lemma SliceShift<T>(x: seq<T>, z: seq<T>, i: nat, j: nat)
    requires i <= j <= |z|
    ensures (x + z)[|x| + i..|x| + j] == z[i..j]
  {
  }

  lemma DropSplit<T>(s: seq<T>, i: nat, j: nat)
    requires i <= j <= |s|
    ensures s[i..] == s[i..j] + s[j..]
  {
  }

  lemma SliceSnoc<T>(s: seq<T>, i: nat, j: nat)
    requires i <= j < |s|
    ensures s[i..j] + [s[j]] == s[i..j + 1]
  {
  }

  lemma PrefixDrop(p: string, rest: string)
    ensures StartsWith(p + rest, p) && (p + rest)[|p|..] == rest
  {
    assert (p + rest)[0..|p|] == p;
  }

  lemma CatParts<T>(x: seq<T>, y: seq<T>)
    ensures (x + y)[..|x|] == x && (x + y)[|x|..] == y
  {
  }

  lemma Nest6<T>(a: seq<T>, b: seq<T>, c: seq<T>, d: seq<T>, e: seq<T>, f: seq<T>)
    ensures a + b + c + d + e + f == a + (b + (c + (d + (e + f))))
  {
    SeqAssoc(a + b + c + d, e, f);
    SeqAssoc(a + b + c, d, e + f);
    SeqAssoc(a + b, c, d + (e + f));
    SeqAssoc(a, b, c + (d + (e + f)));
  }

  lemma DropCat<T>(p: seq<T>, q: seq<T>, k: nat)
    requires |p| <= k <= |p| + |q|
    ensures (p + q)[k..] == q[k - |p|..]
  {
  }

  lemma TakeCat<T>(p: seq<T>, q: seq<T>, k: nat)
    requires k <= |p|
    ensures (p + q)[..k] == p[..k]
  {
  }

  lemma DropCatLeft<T>(p: seq<T>, q: seq<T>, k: nat)
    requires k <= |p|
    ensures (p + q)[k..] == p[k..] + q
  {
  }

  lemma SliceDrop<T>(s: seq<T>, i: nat, j: nat)
    requires i <= j <= |s|
    ensures s[i..j] == s[i..][..j - i]
  {
  }

  /** The first c of x + w is the head of w when x holds none. */
  lemma CharFirstAt(x: string, c: char, w: string)
    requires c !in x && w != [] && w[0] == c
    ensures IndexOf(x + w, [c]) == Some(|x|)
  {
    var s := x + w;
    HasAtSingle(s, |x|, c);
    forall k | 0 <= k < |x| ensures !HasAt(s, k, [c]) {
      HasAtSingle(s, k, c);
      assert s[k] == x[k];
    }
  }

  lemma EmptyCat<T>(w: seq<T>)
    ensures [] + w == w
  {
  }

  lemma CatEmpty<T>(w: seq<T>)
    ensures w + [] == w
  {
  }
}
