/**
 * `Renderer.escapeHtml` (js/renderer.js:164-168): the text is assigned to a
 * detached element's `textContent` and read back through `innerHTML`. That is
 * the HTML fragment serialisation of a text node ("escaping a string" outside
 * attribute mode, section 13.3 of the WHATWG HTML Living Standard): `&`,
 * U+00A0, `<` and `>` become entities; quotes and every other character stay.
 */
module Escaping {
  import opened Strings

  const NBSP: char := '\U{00A0}'

  function EscapeChar(c: char): (r: string)
    ensures |r| >= 1
  {
    if c == '&' then "&amp;"
    else if c == NBSP then "&nbsp;"
    else if c == '<' then "&lt;"
    else if c == '>' then "&gt;"
    else [c]
  }

  predicate Special(c: char) { c == '&' || c == NBSP || c == '<' || c == '>' }

  function EscapeHtml(s: string): (r: string)
    ensures '<' !in r && '>' !in r && NBSP !in r
    ensures (forall i :: 0 <= i < |s| ==> !Special(s[i])) ==> r == s
    ensures |r| >= |s|
  {
    if s == [] then [] else EscapeChar(s[0]) + EscapeHtml(s[1..])
  }

  lemma {:induction false} EscapeAppend(a: string, b: string)
    ensures EscapeHtml(a + b) == EscapeHtml(a) + EscapeHtml(b)
    decreases |a|
  {
    if a == [] {
      assert a + b == b;
    } else {
      assert (a + b)[0] == a[0] && (a + b)[1..] == a[1..] + b;
      EscapeAppend(a[1..], b);
    }
  }

  /** Quotes are not touched: a quote in the input is the same quote in the output. */
  lemma QuotesUnchanged(a: string, b: string)
    ensures EscapeHtml(a + "\"" + b) == EscapeHtml(a) + "\"" + EscapeHtml(b)
    ensures EscapeHtml(a + "'" + b) == EscapeHtml(a) + "'" + EscapeHtml(b)
  {
    EscapeAppend(a + "\"", b);
    EscapeAppend(a, "\"");
    EscapeAppend(a + "'", b);
    EscapeAppend(a, "'");
  }

  /** Decoding of the four entities the serialisation produces. */
  function UnescapeHtml(s: string): string
    decreases |s|
  {
    if s == [] then []
    else if StartsWith(s, "&amp;") then "&" + UnescapeHtml(s[5..])
    else if StartsWith(s, "&nbsp;") then [NBSP] + UnescapeHtml(s[6..])
    else if StartsWith(s, "&lt;") then "<" + UnescapeHtml(s[4..])
    else if StartsWith(s, "&gt;") then ">" + UnescapeHtml(s[4..])
    else [s[0]] + UnescapeHtml(s[1..])
  }

  /** Whether p + rest starts with an entity q no longer than p is decided by p. */
  lemma StartsWithPrefix(p: string, rest: string, q: string)
    requires |q| <= |p|
    ensures StartsWith(p + rest, q) == StartsWith(p, q)
  {
    assert (p + rest)[..|q|] == p[..|q|];
  }

  lemma StartsWithCharAt(s: string, q: string, i: nat)
    requires i < |q|
    ensures StartsWith(s, q) ==> i < |s| && s[i] == q[i]
  {
    if StartsWith(s, q) { assert s[..|q|][i] == s[i]; }
  }

  /** The entity-decoding step applied to one escaped character. */
  lemma UnescapeStep(c: char, rest: string)
    ensures UnescapeHtml(EscapeChar(c) + rest) == [c] + UnescapeHtml(rest)
  {
    var p := EscapeChar(c);
    var e := p + rest;
    assert e[|p|..] == rest;
    if |p| == 1 {
      assert e[0] == c && e[1..] == rest;
      assert !StartsWith(e, "&amp;") && !StartsWith(e, "&nbsp;") && !StartsWith(e, "&lt;") && !StartsWith(e, "&gt;") by {
        if c == '&' { assert false; }
      }
    } else if c == '&' {
      StartsWithPrefix(p, rest, "&amp;");
    } else if c == NBSP {
      StartsWithCharAt(e, "&amp;", 1);
      assert e[1] == p[1];
      StartsWithPrefix(p, rest, "&nbsp;");
    } else {
      StartsWithPrefix(p, rest, "&lt;");
      StartsWithPrefix(p, rest, "&gt;");
      StartsWithCharAt(e, "&amp;", 1);
      StartsWithCharAt(e, "&nbsp;", 1);
      StartsWithCharAt(e, "&lt;", 1);
      assert e[1] == p[1];
    }
  }

  /** Escaping loses nothing: decoding the entities gives the text back. */
  lemma {:induction false} UnescapeEscape(s: string)
    ensures UnescapeHtml(EscapeHtml(s)) == s
    decreases |s|
  {
    if s != [] {
      UnescapeEscape(s[1..]);
      UnescapeStep(s[0], EscapeHtml(s[1..]));
    }
  }

  /** Escaping is applied once: a raw `<` becomes `&lt;`, and text that is already
      escaped is escaped again (so the pipeline must not call it twice). */
  lemma EscapeOnce()
    ensures EscapeHtml("<") == "&lt;"
    ensures EscapeHtml("&lt;") == "&amp;lt;"
  {
  }

  /** A character that is neither in the text nor in any of the four entities
      is not in the escaped text either. */
  lemma {:induction false} EscapeWithout(s: string, c: char)
    requires c !in s && c != '&' && c != ';' && !IsLower(c)
    ensures c !in EscapeHtml(s)
    decreases |s|
  {
    if s != [] {
      assert s[0] in s;
      assert forall d :: d in s[1..] ==> d in s;
      EscapeCharWithout(s[0], c);
      EscapeWithout(s[1..], c);
      assert EscapeHtml(s) == EscapeChar(s[0]) + EscapeHtml(s[1..]);
    }
  }

  /** The entities are made of `&`, `;` and lower-case letters. */
  lemma EscapeCharWithout(d: char, c: char)
    requires c != d && c != '&' && c != ';' && !IsLower(c)
    ensures c !in EscapeChar(d)
  {
    var e := EscapeChar(d);
    forall i | 0 <= i < |e| ensures e[i] != c {
      if Special(d) {
        assert e[i] == '&' || e[i] == ';' || IsLower(e[i]);
      }
    }
  }
}
