/**
 * `MermaidHandler.processBlocks` (js/libs/mermaid-handler.js:7-17): every
 * "```mermaid" block, up to the first closing fence, becomes a `<div>` with a
 * fresh id and the trimmed diagram text.
 *
 * Line 9 doubles the backslash of `\n` and `\s\S`, which would make the
 * pattern look for a literal backslash; the rule modelled is the one its
 * comment at line 8 describes: "```mermaid", a newline, lazy content of any
 * characters, "```". The id comes from `Math.random().toString(36)`; the model
 * takes the n-th such string as `rand(n)`.
 */
module Mermaid {
  import opened Strings
  import opened CodeBlocks

  const Open: string := "```mermaid\n"

  predicate IsBase36(c: char) { IsDigit(c) || IsLower(c) }

  /** `'mermaid-' + r.substr(2, 9)`: at most nine characters of r from index 2
      on, fewer when r is shorter. */
  function Id(r: string): string
  {
    var a := if |r| < 2 then |r| else 2;
    var b := if |r| < 11 then |r| else 11;
    "mermaid-" + r[a..b]
  }

  /** The id starts with "mermaid-", is at most 17 characters long and, for a
      base-36 string as `toString(36)` produces, continues in base 36. */
  lemma IdShape(r: string)
    ensures StartsWith(Id(r), "mermaid-") && 8 <= |Id(r)| <= 17
    ensures (forall k :: 2 <= k < |r| ==> IsBase36(r[k])) ==> forall k :: 8 <= k < |Id(r)| ==> IsBase36(Id(r)[k])
  {
    var a := if |r| < 2 then |r| else 2;
    var b := if |r| < 11 then |r| else 11;
    PrefixDrop("mermaid-", r[a..b]);
    assert forall k :: 8 <= k < |Id(r)| ==> Id(r)[k] == r[a + k - 8];
  }

  /** The id of a typical `toString(36)` result keeps nine digits. */
  lemma IdExample()
    ensures Id("0.4fzyo82mvyr") == "mermaid-4fzyo82mv"
  {
  }

  /** The markup of js/libs/mermaid-handler.js:13. */
  function Diagram(id: string, content: string): string
  {
    "<div id=\"" + id + "\" class=\"mermaid\">" + Trim(content) + "</div>"
  }

  /** The replace callback: the n-th block gets the n-th random id. */
  function Diagrams(rand: nat -> string): (nat, string) -> string
  {
    (n: nat, content: string) => Diagram(Id(rand(n)), content)
  }

  /** The replace from the n-th diagram on. */
  function ProcessFrom(html: string, rand: nat -> string, n: nat): string
  {
    Rewrite(Fenced(html, Open), Diagrams(rand), n)
  }

  /** js/libs/mermaid-handler.js:7-17. */
  function ProcessBlocks(html: string, rand: nat -> string): string
  {
    ProcessFrom(html, rand, 0)
  }

  /** Without "```mermaid" and a newline the text is unchanged. */
  lemma NoDiagram(html: string, rand: nat -> string)
    requires !Contains(html, Open)
    ensures ProcessBlocks(html, rand) == html
  {
    RewriteNoOpener(html, Open, Diagrams(rand), 0);
  }

  /** A diagram after backtick-free text: the text before it is kept, the block
      ends at the first fence and becomes the n-th diagram, and the scan goes on
      after the fence with the next id. */
  lemma DiagramInText(a: string, x: string, z: string, rand: nat -> string, n: nat)
    requires '`' !in a && ClosedFirst(x)
    ensures ProcessFrom(a + (Open + x + Fence + z), rand, n) ==
      a + Diagram(Id(rand(n)), x) + ProcessFrom(z, rand, n + 1)
  {
    RewriteKeeps(a, Open + x + Fence + z, Open, Diagrams(rand), n);
    RewriteBlock(Open, x, z, Diagrams(rand), n);
  }
}
