/**
 * The global `String.prototype.replace(regex, replacement)` loop: the pattern is
 * tried at each position from left to right; a match is replaced and the scan
 * resumes after it, a failure keeps the character and moves on by one. A
 * pattern is given as a matcher over the rest of the input; the flag it
 * receives says whether the position starts a line (the start of the input, or
 * just after a line terminator), which is what a multiline `^` tests.
 */
module Scanner {
  import opened Strings

  /** The outcome of trying a pattern at one position: no match, or a match of
      `len` characters to be replaced by `rep`. */
  datatype Step = Miss | Match(len: nat, rep: string)

  type Matcher = (string, bool) -> Step

  /** A step is the match with its length and replacement. */
  lemma MatchOf(st: Step, n: nat, h: string)
    requires st.Match? && st.len == n && st.rep == h
    ensures st == Match(n, h)
  {
  }

  /** Whether a position just after character c starts a line. */
  function After(c: char): bool { IsLineTerminator(c) }

  /** The matched prefix of s when m matches at its start. */
  predicate Hits(s: string, m: Matcher, bol: bool)
  {
    m(s, bol).Match? && 0 < m(s, bol).len <= |s|
  }

  /** The global replace of pattern m over s. */
  function Apply(s: string, m: Matcher, bol: bool): string
    decreases |s|
  {
    if s == [] then []
    else if Hits(s, m, bol) then
      var n := m(s, bol).len;
      m(s, bol).rep + Apply(s[n..], m, After(s[n - 1]))
    else [s[0]] + Apply(s[1..], m, After(s[0]))
  }

  /** The line-start flag at index k of x when x itself was reached with flag bol. */
  function BolAt(x: string, k: nat, bol: bool): bool
    requires k <= |x|
  {
    if k == 0 then bol else After(x[k - 1])
  }

  /** Where the pattern fails at every position of x, x is copied and the scan
      goes on in y with the flag x leaves behind. */
  lemma {:induction false} ApplyMisses(x: string, y: string, m: Matcher, bol: bool)
    requires forall k :: 0 <= k < |x| ==> !Hits((x + y)[k..], m, BolAt(x, k, bol))
    ensures Apply(x + y, m, bol) == x + Apply(y, m, BolAt(x, |x|, bol))
    decreases |x|
  {
    if x != [] {
      var s := x + y;
      assert s[0..] == s;
      assert !Hits(s, m, bol);
      assert s[1..] == x[1..] + y;
      forall k | 0 <= k < |x[1..]| ensures !Hits((x[1..] + y)[k..], m, BolAt(x[1..], k, After(x[0]))) {
        assert (x[1..] + y)[k..] == s[k + 1..];
        assert BolAt(x[1..], k, After(x[0])) == BolAt(x, k + 1, bol);
      }
      ApplyMisses(x[1..], y, m, After(x[0]));
      assert BolAt(x[1..], |x[1..]|, After(x[0])) == BolAt(x, |x|, bol);
    } else {
      assert x + y == y;
    }
  }

  /** Where the pattern fails all through x and then matches the whole of w, x
      is copied, w is replaced and the scan goes on after w. */
  lemma ApplyHitAfter(x: string, w: string, z: string, m: Matcher, bol: bool, h: string)
    requires forall k :: 0 <= k < |x| ==> !Hits((x + (w + z))[k..], m, BolAt(x, k, bol))
    requires w != [] && m(w + z, BolAt(x, |x|, bol)) == Match(|w|, h)
    ensures Apply(x + (w + z), m, bol) == x + h + Apply(z, m, After(w[|w| - 1]))
  {
    ApplyMisses(x, w + z, m, bol);
    var v := w + z;
    assert v[|w|..] == z && v[|w| - 1] == w[|w| - 1];
    assert Apply(v, m, BolAt(x, |x|, bol)) == h + Apply(z, m, After(w[|w| - 1]));
  }

  /** The same for a match of n characters at index i of s. */
  lemma ApplyHitAt(s: string, i: nat, n: nat, m: Matcher, bol: bool, h: string)
    requires 0 < n && i + n <= |s|
    requires forall k :: 0 <= k < i ==> !Hits(s[k..], m, BolAt(s, k, bol))
    requires m(s[i..], BolAt(s, i, bol)) == Match(n, h)
    ensures Apply(s, m, bol) == s[..i] + h + Apply(s[i + n..], m, After(s[i + n - 1]))
  {
    var x, w, z := s[..i], s[i..i + n], s[i + n..];
    assert x + (w + z) == s;
    assert w + z == s[i..];
    forall k | 0 <= k < |x| ensures !Hits((x + (w + z))[k..], m, BolAt(x, k, bol)) {
      assert BolAt(x, k, bol) == BolAt(s, k, bol);
    }
    assert BolAt(x, |x|, bol) == BolAt(s, i, bol);
    ApplyHitAfter(x, w, z, m, bol, h);
    assert w[|w| - 1] == s[i + n - 1];
  }

  /** ApplyMisses on a split of s at index i. */
  lemma ApplyMissesAt(s: string, i: nat, m: Matcher, bol: bool)
    requires i <= |s|
    requires forall k :: 0 <= k < i ==> !Hits(s[k..], m, BolAt(s, k, bol))
    ensures Apply(s, m, bol) == s[..i] + Apply(s[i..], m, BolAt(s, i, bol))
  {
    var x, y := s[..i], s[i..];
    assert x + y == s;
    forall k | 0 <= k < |x| ensures !Hits((x + y)[k..], m, BolAt(x, k, bol)) {
      assert BolAt(x, k, bol) == BolAt(s, k, bol);
    }
    ApplyMisses(x, y, m, bol);
    assert BolAt(x, |x|, bol) == BolAt(s, i, bol);
  }

  /** One step of the scan at a position where the pattern fails. */
  lemma ApplyMissHead(s: string, m: Matcher, bol: bool)
    requires s != [] && !Hits(s, m, bol)
    ensures Apply(s, m, bol) == [s[0]] + Apply(s[1..], m, After(s[0]))
  {
  }

  /** A pattern that can only match at character c fails before the first c. */
  lemma MissesWithout(s: string, i: nat, m: Matcher, bol: bool, c: char)
    requires i <= |s|
    requires forall k :: 0 <= k < i ==> s[k] != c
    requires forall t: string, b: bool :: Hits(t, m, b) ==> t[0] == c
    ensures forall k :: 0 <= k < i ==> !Hits(s[k..], m, BolAt(s, k, bol))
  {
    forall k | 0 <= k < i ensures !Hits(s[k..], m, BolAt(s, k, bol)) {
      assert s[k..][0] == s[k];
    }
  }

  /** A text on which the pattern never matches is left as it is. */
  lemma ApplyNoMatch(s: string, m: Matcher, bol: bool)
    requires forall k :: 0 <= k < |s| ==> !Hits(s[k..], m, BolAt(s, k, bol))
    ensures Apply(s, m, bol) == s
  {
    assert s + [] == s;
    ApplyMisses(s, [], m, bol);
  }

  /** A pattern that can only match at character c leaves a text without c alone. */
  lemma ApplyWithout(s: string, m: Matcher, bol: bool, c: char)
    requires c !in s
    requires forall t: string, b: bool :: Hits(t, m, b) ==> t[0] == c
    ensures Apply(s, m, bol) == s
  {
    forall k | 0 <= k < |s| ensures !Hits(s[k..], m, BolAt(s, k, bol)) {
      assert s[k..][0] == s[k];
    }
    ApplyNoMatch(s, m, bol);
  }

  /** A pattern that can only match at character c, matching the whole of w
      after a stretch a without c: a is copied, w replaced. */
  lemma ApplyHitAfterWithout(a: string, w: string, z: string, m: Matcher, bol: bool, c: char, h: string)
    requires c !in a
    requires forall t: string, b: bool :: Hits(t, m, b) ==> t[0] == c
    requires w != [] && m(w + z, BolAt(a, |a|, bol)) == Match(|w|, h)
    ensures Apply(a + w + z, m, bol) == a + h + Apply(z, m, After(w[|w| - 1]))
  {
    forall k | 0 <= k < |a| ensures !Hits((a + (w + z))[k..], m, BolAt(a, k, bol)) {
      assert (a + (w + z))[k..][0] == a[k];
    }
    ApplyHitAfter(a, w, z, m, bol, h);
    assert a + w + z == a + (w + z);
  }

  /** A pattern that can only match where the text starts with p leaves a text
      without p alone. */
  lemma ApplyWithoutPrefix(s: string, m: Matcher, bol: bool, p: string)
    requires !Contains(s, p)
    requires forall t: string, b: bool :: Hits(t, m, b) ==> StartsWith(t, p)
    ensures Apply(s, m, bol) == s
  {
    forall k | 0 <= k < |s| ensures !StartsWith(s[k..], p) {
      assert !HasAt(s, k, p);
      if k + |p| <= |s| { assert s[k..][..|p|] == s[k..k + |p|]; }
    }
    ApplyNoMatch(s, m, bol);
  }

  // ------------------------------------------------- characters at line starts

  /** No line of s, read with line-start flag bol, begins with c. */
  predicate NeverLeads(s: string, c: char, bol: bool)
    decreases |s|
  {
    s == [] || ((bol ==> s[0] != c) && NeverLeads(s[1..], c, After(s[0])))
  }

  /** A text splits into its two halves, the second read with the flag the first
      leaves behind. */
  lemma {:induction false} NeverLeadsAppend(a: string, b: string, c: char, bol: bool)
    ensures NeverLeads(a + b, c, bol) <==> NeverLeads(a, c, bol) && NeverLeads(b, c, BolAt(a, |a|, bol))
    decreases |a|
  {
    if a != [] {
      assert (a + b)[0] == a[0] && (a + b)[1..] == a[1..] + b;
      NeverLeadsAppend(a[1..], b, c, After(a[0]));
      assert BolAt(a[1..], |a[1..]|, After(a[0])) == BolAt(a, |a|, bol);
    } else {
      assert a + b == b;
    }
  }

  /** A text without c has no line that begins with c. */
  lemma {:induction false} NeverLeadsWithout(s: string, c: char, bol: bool)
    requires c !in s
    ensures NeverLeads(s, c, bol)
    decreases |s|
  {
    if s != [] {
      assert forall d :: d in s[1..] ==> d in s;
      NeverLeadsWithout(s[1..], c, After(s[0]));
    }
  }

  /** A non-empty text without line terminators has no line start but its first
      position, and leaves the flag off. */
  lemma {:induction false} NeverLeadsLine(s: string, c: char, bol: bool)
    requires s != [] && (bol ==> s[0] != c)
    requires forall i :: 0 <= i < |s| ==> !IsLineTerminator(s[i])
    ensures NeverLeads(s, c, bol) && !BolAt(s, |s|, bol)
    decreases |s|
  {
    var t := s[1..];
    forall i | 0 <= i < |t| ensures !IsLineTerminator(t[i]) { assert t[i] == s[i + 1]; }
    assert NeverLeads(t, c, false) by {
      if t != [] {
        NeverLeadsLine(t, c, false);
      }
    }
  }

  /** A stretch of a text, read with the flag it has there. */
  lemma NeverLeadsSlice(s: string, c: char, bol: bool, i: nat, j: nat)
    requires i <= j <= |s| && NeverLeads(s, c, bol)
    ensures NeverLeads(s[i..j], c, BolAt(s, i, bol))
  {
    assert s == s[..i] + s[i..];
    NeverLeadsAppend(s[..i], s[i..], c, bol);
    assert BolAt(s[..i], |s[..i]|, bol) == BolAt(s, i, bol);
    assert s[i..] == s[i..j] + s[j..];
    NeverLeadsAppend(s[i..j], s[j..], c, BolAt(s, i, bol));
  }

  /** What a matcher must do for the scan to keep c off line starts: each
      replacement is non-empty, ends a line's middle, and keeps c off its own
      line starts when the matched text did. */
  ghost predicate KeepsLeads(m: Matcher, c: char)
  {
    forall t: string, b: bool :: Hits(t, m, b) && NeverLeads(t, c, b) ==>
      m(t, b).rep != [] && !IsLineTerminator(m(t, b).rep[|m(t, b).rep| - 1]) && NeverLeads(m(t, b).rep, c, b)
  }

  /** The global replace of such a matcher keeps c off line starts. */
  lemma {:induction false} ApplyNeverLeads(s: string, m: Matcher, c: char, bol: bool)
    requires NeverLeads(s, c, bol) && KeepsLeads(m, c)
    ensures NeverLeads(Apply(s, m, bol), c, bol)
    decreases |s|
  {
    if s == [] {
    } else if Hits(s, m, bol) {
      var n := m(s, bol).len;
      var h := m(s, bol).rep;
      NeverLeadsSlice(s, c, bol, n, |s|);
      assert s[n..|s|] == s[n..];
      ApplyNeverLeads(s[n..], m, c, After(s[n - 1]));
      var r := Apply(s[n..], m, After(s[n - 1]));
      assert NeverLeads(r, c, false);
      assert BolAt(h, |h|, bol) == false;
      NeverLeadsAppend(h, r, c, bol);
    } else {
      ApplyNeverLeads(s[1..], m, c, After(s[0]));
    }
  }
}
