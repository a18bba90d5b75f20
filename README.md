# mdp markdown pipeline, in Dafny

This project models the text pipeline of mdp, a browser markdown editor, and proves properties of it. The model covers:

- `Renderer.render` (js/renderer.js):
  - wiki links are processed first;
  - `convertMarkdown` escapes the text and swaps fenced code blocks for `<!--CODE_BLOCK_i-->` tokens;
  - the heading, rule, emphasis, code, link, image, blockquote, list, task and table rules run, and paragraphs are wrapped;
  - the tokens are restored;
  - the mermaid, math, chemistry and SVG handlers run, and the result is wrapped in a `<div>`.
- The extension handlers under js/libs/.
- The undo/redo history and cursor queries of js/editor.js.
- The selection splicing, preview gate and help lookup of js/main.js.

Each regular expression of the source is modelled by its own scanner:

- `Scanner.Apply` is the global, left-to-right replacement loop of `String.prototype.replace` with a `/g` pattern.
- Every rule is a matcher that is tried at each position.
- The `m` flag's `^` is a "the previous character ends a line" flag.

The model is imperative where the source is:

- `convertLists`, the table builder, the `renderFormula` loop, `extractWikiLinks`, the SVG attribute loop, `convertMarkdown`, `render` and the code-block restoration are methods with loops. Each one is proved equal to a specification function.
- The editor, its textarea and the application object are classes whose methods update their fields.

Behaviours of the code as written that the model keeps and proves:

- **Fenced code blocks are never restored.** The italic rule `_(.*?)_` (js/renderer.js:56) always consumes the first underscore of a `<!--CODE_BLOCK_n-->` token, either opening or closing an italic span, so no token survives to the restoration at js/renderer.js:95. For a text that is one block, `Renderer.FenceNotRestored` proves the block is never restored; the general case is not proved (see `Renderer.MarkdownOf` under "## Left out").
- **Mermaid diagrams never reach the mermaid handler.** The extraction takes every fence first. See `Renderer.MermaidNeverRendered`.
- **The blockquote rule is dead.** `escapeHtml` turns every `>` into `&gt;`, and every tag the earlier rules insert puts its `>` inside a line, so no line of the text that reaches the rule starts with `>`. See `Renderer.QuoteDead`.
- **A bullet line inside an ordered list joins that list.** See `Lists.OrderedThenBullet`.
- **Links are rewritten before images.** So only an image without alt text becomes an `<img>`. See `InlineRules.ImageAfterLink` and `InlineRules.EmptyAltImage`.
- **Math inside inline code is still typeset.** See `Renderer.MathInsideCode`.
- **`processWikiLinks` never matches as written.** So it is the identity. See `Wiki.ProcessWikiLinksIdentity`.
- **`isChemFormula` rejects the handler's own listed examples `CO2` and `NaCl`.** See `Chem.ExamplesRejected`.
- **The SVG attribute loop skips the attribute after each one it removes.** See `Svg.SecondHandlerSurvives`.
- **The history index drifts past the end after the 51st addition.** See `Editing.IndexDrifts`.

Where the code does something other than its names or comments suggest, the model follows the code. Examples:

- The separator row of a table is the greedy `\|[-\s|:]+\|\n` (js/renderer.js:144), and `\s` includes the line break. So a body row made only of `-`, `:`, `|` and white space, with a line break after it, is swallowed into the separator and is not a row of the table (`Tables.SwallowedRow`). A row holding any other character stops the separator, so `| -x |` is kept (`Tables.KeptRow`). `Tables.TableRoundTrip` asks for a first body row that holds a character outside that class. This is a sufficient condition: a lone class-only row at the very end of the text is also kept, and that case is not proved.
- `getCurrentLine` on a newline returns `"\n"`, because `substring` swaps reversed arguments.

Several lines of the handlers are written with doubled or misplaced escapes:

- math-handler.js:10 and 15 put a backslash in front of each template literal, outside any literal. That is a syntax error. The patterns at lines 9 and 14 are correct.
- chem-handler.js:14 doubles the backslash before `[`, so `[([A-Za-z0-9()]` is a character class that swallows the opening parenthesis and the `)` after `+` closes no group. That is a syntax error too.
- chem-handler.js:9 and 39, mermaid-handler.js:9 and svg-handler.js:9 parse, but their doubled `\\` matches a literal backslash.

As written, neither math-handler.js nor chem-handler.js loads. `MathHandler` and `ChemHandler` are then undefined, the promise of `Renderer.render` rejects with a `ReferenceError` at js/renderer.js:20 on every input, and `updatePreview` (js/main.js:116) never updates the preview. The model gives each line the reading its adjacent comment describes, and each such function's comment names the line. The wiki pattern at wiki-shortcuts.js:9 is modelled as written, since it is the identity. Its callback is modelled under the clean pattern of wiki-shortcuts.js:43.

Modules, one per file: `Strings` (JavaScript string built-ins), `Scanner`, `Escaping`, `CodeBlocks`, `InlineRules`, `Lists`, `Tables`, `Renderer`, `Wiki`, `MathBlocks`, `Chem`, `Mermaid`, `Svg`, `Editing`, `App`.

## Model

| member | source | states |
|---|---|---|
| Strings.Trim | js/libs/wiki-shortcuts.js:31 | `trim`: the result is a slice of the input, with only white space around it, and it neither starts nor ends with white space |
| Strings.Split | js/renderer.js:81 | `split` on a non-empty separator: at least one part, and no part contains the separator |
| Strings.JoinSplit | js/renderer.js:81-86 | joining the parts of a split with the same separator gives the text back |
| Strings.SplitJoin | js/renderer.js:140 | splitting a join on a character that no part holds gives the parts back |
| Strings.SplitCount | js/editor.js:84 | a split on a character has one part more than the character's occurrences |
| Strings.Substring | js/editor.js:96 | `substring` with both ends in range: the slice between them, with the ends swapped when the first is larger |
| Strings.LastIndexOf | js/editor.js:88 | `lastIndexOf(c, from)`: the largest index at or below `from`, clamped into the string, holding c, or -1 when there is none |
| Strings.IndexOf | js/editor.js:95 | `indexOf`: the first occurrence, and None exactly when the pattern does not occur |
| Strings.ReplaceFirst | js/renderer.js:95 | `replace` with a string pattern: the text is unchanged when the pattern is absent; otherwise the first occurrence is replaced by the `$`-expanded replacement |
| Strings.DollarCollapses | js/renderer.js:95 | a replacement holding `$$` is not inserted verbatim |
| Scanner.ApplyNoMatch | js/renderer.js:44-65 | a global replace whose pattern never matches leaves the text as it is |
| Scanner.NeverLeadsAppend | js/renderer.js:44-68 | no line of a concatenation starts with c exactly when none of either half does, the second read after the first |
| Scanner.ApplyNeverLeads | js/renderer.js:44-65 | a global replace whose replacements keep c off their line starts keeps c off the line starts of the text |
| Scanner.ApplyHitAfterWithout | js/renderer.js:44-65 | a pattern that can only match at one character: the text before its first match is copied, the match replaced, and the scan goes on after it |
| Escaping.EscapeHtml | js/renderer.js:164-168 | no `<`, `>` or NBSP is left; a text without special characters is unchanged |
| Escaping.UnescapeEscape | js/renderer.js:164-168 | decoding the four entities gives the original text back, so escaping loses nothing |
| Escaping.EscapeAppend | js/renderer.js:164-168 | escaping works character by character: the escape of a concatenation is the concatenation of the escapes |
| Escaping.QuotesUnchanged | js/renderer.js:164-168 | both quote characters pass through escaping unchanged |
| Escaping.EscapeOnce | js/renderer.js:34 | `<` becomes `&lt;`, and an already escaped `&lt;` is escaped again |
| Escaping.EscapeWithout | js/renderer.js:164-168 | a character absent from the text and from the entities is absent from the escape |
| CodeBlocks.Fenced | js/renderer.js:38 | the lazy global scan gives back exactly its input, and no block's content holds a fence, so matches do not overlap and each ends at the first closing fence |
| CodeBlocks.FencedScan | js/renderer.js:38 | the scan is eager: no character is left as text where an opener with a later fence starts, and every block ends at the first fence after its opener |
| CodeBlocks.FencedUnique | js/renderer.js:38 | the scan is the only tiling of the text into characters and blocks that is eager and closes each block at its first fence |
| CodeBlocks.NoBacktickClosed | js/renderer.js:38 | a block body without backticks is closed by the fence right after it |
| CodeBlocks.ExtractCodeBlocks | js/renderer.js:37-41 | entry i of `codeBlocks` is the i-th whole match, a fence, block-free content and a fence; there is one entry per block |
| CodeBlocks.Matches | js/renderer.js:39 | the recorded matches are the blocks, in order |
| CodeBlocks.LazyInners | js/renderer.js:38 | no extracted block holds a fence inside it |
| CodeBlocks.UnterminatedFence | js/renderer.js:38 | a fence with no closing fence is left as literal text and nothing is extracted |
| CodeBlocks.LoneFenceIsText | js/renderer.js:38 | a text with at most one fence has no block and lays out as itself |
| CodeBlocks.FencedOpen | js/renderer.js:38 | an opener, a body that holds no fence and does not end in a backtick, and a fence form one block, and the scan resumes after the fence |
| CodeBlocks.CodeHtmlOfBlock | js/renderer.js:90-94 | a block's markup has a `language-` class exactly when an `[a-z]+` tag follows the fence, and holds the trimmed body with no second escaping |
| CodeBlocks.LangOfBlock | js/renderer.js:90 | the language is the run of lower-case letters after the opening fence |
| CodeBlocks.ContentOfBlock | js/renderer.js:91 | the content is the block without its tag, one leading newline and the closing fence |
| CodeBlocks.ContentWhen | js/renderer.js:91 | after the tag, exactly one leading newline is dropped |
| CodeBlocks.RestoreCodeBlocks | js/renderer.js:89-96 | the `forEach` loop replaces the first occurrence of each token in turn, as `RestoreUpTo` says |
| CodeBlocks.RestoreWithoutTokens | js/renderer.js:95 | restoration silently changes nothing when no token is left in the text |
| CodeBlocks.RestoreLayout | js/renderer.js:89-96 | restoring the first n tokens puts the markup of blocks 0..n-1 in their places and leaves the other tokens |
| CodeBlocks.ExtractThenRestore | js/renderer.js:37-96 | on a text without `<` or `$`, extraction followed by restoration puts each block's markup where the block was and keeps all other text |
| CodeBlocks.ReplaceAfterSafe | js/renderer.js:95 | a token placed after text that cannot hold `<!` is replaced there and nowhere else |
| CodeBlocks.CodeHtmlSafe | js/renderer.js:92-94 | a block without `<` produces markup without `<!`, so restoring it cannot create a token earlier in the text |
| CodeBlocks.RewriteNoOpener | js/libs/mermaid-handler.js:9-15 | a text in which the opener never occurs is unchanged by a fence replace |
| CodeBlocks.RewriteKeeps | js/libs/svg-handler.js:9-12 | backtick-free text in front of the rest is copied unchanged by a fence replace |
| CodeBlocks.RewriteBlock | js/libs/svg-handler.js:9-12 | an opener, a body that holds no fence and does not end in a backtick, and a fence become the callback's markup, and the scan goes on after the fence |
| InlineRules.LineEnd | js/renderer.js:44 | `.*` stops at the first line terminator |
| InlineRules.AnchoredLine | js/renderer.js:44-49 | an anchored `gm` rule rewrites the line in front of a line boundary as `OnLine` says and goes on after it |
| InlineRules.AnchoredLines | js/renderer.js:44-49 | an anchored rule works line by line: a line, its terminator, then the rest |
| InlineRules.UnanchoredLines | js/renderer.js:74-75 | the task rules rewrite each line from its first `- [ ] ` or `- [x] ` to the end of that line |
| InlineRules.UnanchoredHit | js/renderer.js:74-75 | on a line holding the prefix, the text before it is kept and the rest of the line becomes the label |
| InlineRules.UnanchoredMiss | js/renderer.js:74-75 | a line without the prefix is kept |
| InlineRules.PassLine | js/renderer.js:44-49 | on a one-line text an anchored rule yields `OnLine` |
| InlineRules.OnLineMiss | js/renderer.js:44-49 | a line that differs from the rule's prefix is not rewritten |
| InlineRules.HeadingOne | js/renderer.js:44-46 | `# x` becomes `<h1>x</h1>` after the three heading rules |
| InlineRules.HeadingThree | js/renderer.js:44-46 | `### x` becomes `<h3>x</h3>`, which the later heading rules leave alone |
| InlineRules.HeadingFour | js/renderer.js:44-46 | `#### x` is no heading: only one to three `#` and a space count |
| InlineRules.DelimSpan | js/renderer.js:52-56 | a delimiter pair on one line, around text without the delimiter's character, becomes the element wrapping the text between |
| InlineRules.DelimWhole | js/renderer.js:52-56 | a text that is one such pair becomes exactly the element |
| InlineRules.DelimKeeps | js/renderer.js:52-56 | a text without the delimiter's first character is unchanged |
| InlineRules.DelimAbsent | js/renderer.js:52-56 | a text without the delimiter is unchanged |
| InlineRules.DelimUnclosed | js/renderer.js:52-56 | a delimiter of one repeated character, without a partner, is left alone |
| InlineRules.DelimHitsPrefix | js/renderer.js:52-56 | a delimiter rule matches only where its delimiter starts |
| InlineRules.CodeSpan | js/renderer.js:59 | a non-empty backtick-free span is wrapped in `<code>`, even across lines |
| InlineRules.CodeEmpty | js/renderer.js:59 | an empty span is not code: both backticks stay |
| InlineRules.LinkSpan | js/renderer.js:62 | `[x](u)` with non-empty x and u becomes an anchor with href u and text x |
| InlineRules.LinkMatchOf | js/renderer.js:62 | the link's text and target are the first `]`-free and `)`-free runs |
| InlineRules.ImageSpan | js/renderer.js:65 | `![x](u)` with non-empty u becomes an image, with a possibly empty alt |
| InlineRules.ImageMatchOf | js/renderer.js:65 | the image's alt and source are the first `]`-free and `)`-free runs |
| InlineRules.ImageAfterLink | js/renderer.js:62-65 | an image with alt text is read as a link first, leaving `!` in front of an anchor |
| InlineRules.AnchorSkipped | js/renderer.js:65 | an anchor after `!` is not read as an image |
| InlineRules.EmptyAltImage | js/renderer.js:62-65 | only an image with empty alt text survives the link rule as an `<img>` |
| InlineRules.EmptyLinkText | js/renderer.js:62 | `![](u)` passes the link rule unchanged |
| InlineRules.QuoteNeedsGt | js/renderer.js:68 | on a text with no `>` at a line start the blockquote rule changes nothing |
| InlineRules.LineKeepsLeads | js/renderer.js:44-49 | a line rule whose tags are one line and do not start with c never puts c at a line start |
| InlineRules.DelimKeepsLeads | js/renderer.js:52-56 | the same for a delimiter rule |
| InlineRules.CodeKeepsLeads | js/renderer.js:59 | the code span rule never puts a character other than `<` at a line start |
| InlineRules.LinkKeepsLeads | js/renderer.js:62 | the link rule never puts a character other than `<` or `"` at a line start |
| InlineRules.ImageKeepsLeads | js/renderer.js:65 | the same for the image rule |
| Lists.BulletMarkerSpec | js/renderer.js:109-116 | the bullet marker is found exactly when `^\s*[-*+]\s` matches, and it starts after all leading spaces |
| Lists.OrderedMarkerSpec | js/renderer.js:118-125 | the ordered marker is found exactly when `^\s*\d+\.\s` matches, covering the spaces and the whole digit run |
| Lists.ClassifySpec | js/renderer.js:109-127 | a line is a bullet iff the bullet pattern matches, ordered iff only the ordered one does; an item holds the trimmed rest |
| Lists.ConvertLists | js/renderer.js:101-141 | the loop, the final closer and the join give `ListsOf`, the events of the lines as HTML |
| Lists.ForEachLine | js/renderer.js:108-134 | after the `forEach`, `result` holds the pushes of every line and the flags are the state the lines leave |
| Lists.PushLine | js/renderer.js:109-133 | one line pushes what `StepEvents` says and moves `inList`/`listType` as `StepState` says |
| Lists.RunNests | js/renderer.js:108-134 | replaying the pushes never opens a list inside another and closes each list by its own kind |
| Lists.ListsBalanced | js/renderer.js:108-138 | every list opened is closed by its own closer, and none is left open after the last line |
| Lists.ListContents | js/renderer.js:115-133 | non-list lines are copied verbatim and in order, and each list line gives one item with its stripped, trimmed text |
| Lists.BulletThenOrdered | js/renderer.js:119-123 | an ordered line after a bullet list closes the `<ul>` and opens an `<ol>` |
| Lists.OrderedThenBullet | js/renderer.js:110 | a bullet line after an ordered list is appended to the `<ol>` |
| Lists.NoListsUnchanged | js/renderer.js:101-141 | a text without list lines comes back unchanged |
| Lists.IndentedBullet | js/renderer.js:109-116 | indentation is ignored and the content trimmed |
| Lists.NumberedItem | js/renderer.js:118-125 | a number, a dot and a space start an ordered item |
| Lists.MarkerNeedsSpace | js/renderer.js:109 | a marker without a following space is no item |
| Lists.ClassifyPlainHead | js/renderer.js:109-118 | a line starting with neither space, marker nor digit is plain |
| Tables.Rows | js/renderer.js:147-149 | one row per line of the trimmed body, each the cells of that line |
| Tables.CellsClean | js/renderer.js:146-148 | every cell is non-empty, trimmed and pipe-free, and every non-blank piece is kept |
| Tables.BlankBody | js/renderer.js:147 | a blank body is one row without cells |
| Tables.BuildTable | js/renderer.js:145-160 | the `+=` loops build `TableHtml` of the header's cells and the body's rows |
| Tables.AddHeaders | js/renderer.js:152 | one `<th>` per header cell, in order |
| Tables.AddRows | js/renderer.js:154-158 | one `<tr>` per row, in order |
| Tables.AddRow | js/renderer.js:155-157 | `<tr>`, one `<td>` per cell, `</tr>` |
| Tables.RowsNotPadded | js/renderer.js:154-158 | a one-cell row gives one data cell whatever the header holds |
| Tables.BlankBodyRow | js/renderer.js:147-158 | an empty or blank body still yields one `<tr></tr>` |
| Tables.LastPipeNewline | js/renderer.js:144 | the greedy separator class is followed by the last `\|\n` in its reach |
| Tables.BodyEnd | js/renderer.js:144 | the lazy body ends at the first blank line or the end of the text |
| Tables.NoPipeNoTable | js/renderer.js:143-162 | a text without `\|` is unchanged |
| Tables.TableAt | js/renderer.js:144-160 | a header row, a separator and a body at the start of a text are one match whose markup is built from exactly those cells and rows |
| Tables.CellsOfRow | js/renderer.js:146 | a formatted row reads back as its cells |
| Tables.RowsOfBody | js/renderer.js:147-149 | a formatted body reads back as its rows |
| Tables.TableRoundTrip | js/renderer.js:144-160 | a markdown table whose first body row holds a character outside `[-\s\|:]` is recognised as one match and replaced by the markup of exactly its cells and rows |
| Tables.SwallowedRow | js/renderer.js:144 | a first body row of separator characters followed by a line break is taken into the separator, and the body starts on the next line |
| Tables.KeptRow | js/renderer.js:144 | a first body row holding another character stops the separator, and the body starts at that row |
| Tables.TableInText | js/renderer.js:143-162 | in a text, the first table after pipe-free text is replaced and the scan goes on after it |
| Renderer.BreaksJoin | js/renderer.js:83 | splitting a chunk on newlines and joining with `<br>` turns each newline into `<br>` |
| Renderer.Breaks | js/renderer.js:83 | a chunk without newlines is unchanged, and the output has no newline |
| Renderer.ParagraphOf | js/renderer.js:82-85 | a chunk starting with `<` is kept; any other is wrapped in `<p>` with its newlines as `<br>` |
| Renderer.Paras | js/renderer.js:81-86 | one paragraph per chunk |
| Renderer.ParagraphsSingle | js/renderer.js:81-86 | a text without a blank line is one paragraph chunk |
| Renderer.ParagraphsCons | js/renderer.js:81-86 | the text before the first blank line is one paragraph, joined to the rest by a single newline |
| Renderer.BlocksFenced | js/renderer.js:39 | every entry of `codeBlocks` starts with a fence |
| Renderer.ConvertMarkdown | js/renderer.js:32-99 | the pass-by-pass method returns `MarkdownOf`: escape, extract, the rules from headings to paragraphs, restore |
| Renderer.TokenMangled | js/renderer.js:56 | the italic rule turns token i into `<!--CODE<em>BLOCK</em>i-->` |
| Renderer.TokenThroughPasses | js/renderer.js:43-86 | between extraction and restoration, a token alone becomes the mangled token |
| Renderer.BlockPassesKeep | js/renderer.js:71-86 | a one-line chunk starting with `<` and holding no `[` or `\|` passes the list, task, table and paragraph passes unchanged |
| Renderer.ExtractOne | js/renderer.js:38-41 | one fenced block is extracted as token 0 |
| Renderer.FenceNotRestored | js/renderer.js:56-95 | a text that is one fenced block converts to the mangled token whatever it holds: the block is never restored |
| Renderer.Render | js/renderer.js:7-30 | the stage-by-stage method returns `RenderOf`: wiki links, the conversion, the four handlers and the wrapper |
| Renderer.RenderIsMarkdown | js/renderer.js:11 | the wiki stage changes nothing, so the conversion sees the text as written |
| Renderer.HandlersKeep | js/renderer.js:17-26 | text without a backtick, `$` or `[` passes the four handlers unchanged |
| Renderer.MermaidNeverRendered | js/renderer.js:17-38 | a mermaid diagram renders as the wrapped mangled token, never as a diagram |
| Renderer.CodeOfSpan | js/renderer.js:59 | a backticked span becomes `<code>` around its text |
| Renderer.MathOnCode | js/libs/math-handler.js:14-15 | the math handler marks a formula inside a `<code>` element |
| Renderer.MathInsideCode | js/renderer.js:20-59 | `` `$c$` `` becomes `<code>` around the inline math marker of c |
| Renderer.EmphasisBoldItalic | js/renderer.js:52-56 | `***x***` becomes `<strong><em>x</em></strong>` after the five emphasis passes in order |
| Renderer.EmphasisBold | js/renderer.js:52-56 | `**x**` with x non-empty becomes `<strong>x</strong>` after the five passes |
| Renderer.EmphasisBoldUnderscore | js/renderer.js:52-56 | `__x__` becomes `<strong>x</strong>` after the five passes |
| Renderer.ExtractKeepsGt | js/renderer.js:37-41 | extraction of a text without `>` leaves no `>` at a line start, since every token starts with `<` |
| Renderer.LinesKeepGt | js/renderer.js:44-49 | the heading and rule passes put no `>` at a line start |
| Renderer.EmphasisKeepsGt | js/renderer.js:52-56 | nor do the five emphasis passes |
| Renderer.SpansKeepGt | js/renderer.js:59-65 | nor do the code span, link and image passes |
| Renderer.QuoteDead | js/renderer.js:34-68 | for every markdown text, the blockquote rule leaves the text it receives unchanged |
| Wiki.Keep | js/libs/wiki-shortcuts.js:32 | every character left belongs to the class `[\w\s-[]` |
| Wiki.KeepMembers | js/libs/wiki-shortcuts.js:32 | removal keeps exactly the characters of the input that belong to the class, `[` among them |
| Wiki.Squeeze | js/libs/wiki-shortcuts.js:33-34 | each run of class characters becomes one replacement character, and no two replacements are adjacent |
| Wiki.SlugChars | js/libs/wiki-shortcuts.js:29-34 | a slug has no upper-case letter, no white space, only kept characters and no two dashes in a row |
| Wiki.SlugifyIdempotent | js/libs/wiki-shortcuts.js:28-35 | `slugify` of a slug is the slug |
| Wiki.SlugWords | js/libs/wiki-shortcuts.js:28-35 | words separated by single spaces slugify to their lower-case forms joined by dashes |
| Wiki.SlugExampleGuide | js/libs/wiki-shortcuts.js:72 | `slugify("Getting Started Guide") == "getting-started-guide"` |
| Wiki.SlugExampleApi | js/libs/wiki-shortcuts.js:68 | `slugify("API Documentation") == "api-documentation"` |
| Wiki.TrailingDash | js/libs/wiki-shortcuts.js:31-32 | trimming before removal lets a slug end with a dash |
| Wiki.SlugExampleTrailing | js/libs/wiki-shortcuts.js:28-35 | `slugify("a !") == "a-"` |
| Wiki.LinkAt | js/libs/wiki-shortcuts.js:43 | a match at p spans `[[`, a non-empty group and `]]` |
| Wiki.LinkAtShape | js/libs/wiki-shortcuts.js:43 | a match's group holds no `]` |
| Wiki.LinkOf | js/libs/wiki-shortcuts.js:49-54 | the record's original is the whole match and its slug is the page's slug |
| Wiki.Exec | js/libs/wiki-shortcuts.js:46 | `exec` finds the first match at or after `lastIndex`, or reports that none is left |
| Wiki.ExtractWikiLinks | js/libs/wiki-shortcuts.js:41-58 | the `exec` loop pushes one link per match of the global scan, in order |
| Wiki.GroupsStep | js/libs/wiki-shortcuts.js:46-55 | the scan records the match `exec` finds and resumes after it, so matches do not overlap |
| Wiki.GroupsInText | js/libs/wiki-shortcuts.js:43-56 | every recorded group is non-empty, holds no `]` and appears between `[[` and `]]` in the text |
| Wiki.LinkPlain | js/libs/wiki-shortcuts.js:51-52 | a group without `\|` is both page and display, trimmed |
| Wiki.LinkWithDisplay | js/libs/wiki-shortcuts.js:48-52 | for `P\|D`, the page is the trimmed P; the display is the trimmed D when D is non-empty, else the page |
| Wiki.LinkIgnoresRest | js/libs/wiki-shortcuts.js:48-52 | parts after the second `\|` are ignored |
| Wiki.LinkBlankDisplay | js/libs/wiki-shortcuts.js:52 | the emptiness test precedes the trim, so a blank D shows an empty text |
| Wiki.RewriteDisplay | js/libs/wiki-shortcuts.js:10-14 | the callback maps `P\|D` to `[[D]](slugify(P))`, with P and D trimmed |
| Wiki.ProcessWikiLinksIdentity | js/libs/wiki-shortcuts.js:7-18 | the pattern as written never matches, so `processWikiLinks` leaves every text unchanged |
| Wiki.WikiLinkInText | js/libs/wiki-shortcuts.js:9-14 | with the pattern fixed, `[[P\|D]]` in a text becomes `[[D]](slugify(P))` |
| Wiki.RewriteExampleApi | js/libs/wiki-shortcuts.js:68 | the callback maps `API Documentation\|API` to `[[API]](api-documentation)` |
| MathBlocks.EscapeAttrIsMap | js/libs/math-handler.js:55 | `escapeAttr` replaces each `"` by `&quot;` and each `'` by `&#39;` and keeps every other character |
| MathBlocks.EscapeAttrNoQuotes | js/libs/math-handler.js:55 | no quote of either kind survives |
| MathBlocks.EscapeAttrPlain | js/libs/math-handler.js:55 | a quote-free text is its own escape |
| MathBlocks.EscapeAttrIdempotent | js/libs/math-handler.js:55 | escaping twice is escaping once |
| MathBlocks.DisplayAt | js/libs/math-handler.js:9 | a display match has a non-empty group and fits in the text |
| MathBlocks.DisplayShape | js/libs/math-handler.js:9 | a display match is `$$`, a `$`-free group, `$$` |
| MathBlocks.DisplayInText | js/libs/math-handler.js:9-11 | `$$c$$` after `$`-free text becomes the display marker, whose attribute is the escaped c and whose body is `$$c$$` |
| MathBlocks.InlineShape | js/libs/math-handler.js:14 | an inline group is non-empty and holds no `$` or newline; what follows it is the end or not `$` |
| MathBlocks.InlineInText | js/libs/math-handler.js:14-15 | `x$c$y` after `$`-free text becomes x, the inline marker of c and y |
| MathBlocks.SecondNotMarked | js/libs/math-handler.js:14 | in `$a$ $b$` only the first formula is marked, since the separating character is consumed |
| MathBlocks.DisplaySurvivesInline | js/libs/math-handler.js:9-16 | the inline rule, which runs second, finds nothing in a display marker |
| MathBlocks.DisplayNoPair | js/libs/math-handler.js:9 | without two `$` in a row the display rule changes nothing |
| MathBlocks.NoDollarUnchanged | js/libs/math-handler.js:7-19 | a text without `$` is unchanged by both rules |
| Chem.ChemIff | js/libs/chem-handler.js:34 | `isChemFormula` holds exactly for texts that start with an upper-case letter, in which every letter is a symbol start after a digit or a lower-case letter after an upper-case one |
| Chem.WaterIsFormula | js/libs/chem-handler.js:34 | `H2O`, the handler's own example, is accepted |
| Chem.HomeIsNotFormula | js/libs/chem-handler.js:34 | `Home` is rejected |
| Chem.ExamplesRejected | js/libs/chem-handler.js:34 | `CO2` and `NaCl`, listed among the handler's examples, are rejected, since every symbol after the first needs digits before it |
| Chem.RenderFormula | js/libs/chem-handler.js:42-77 | the loop builds `RenderFrom(formula, 0)`, piece by piece; it ends because `i` grows every round |
| Chem.DigitRun | js/libs/chem-handler.js:61-65 | the inner loop collects the maximal digit run and stops after it |
| Chem.RenderRoundTrip | js/libs/chem-handler.js:44-76 | removing the `<sub>` tags from the rendering of a formula without `<` gives the formula back |
| Chem.RenderNoDigits | js/libs/chem-handler.js:44-76 | a formula without digits is rendered as it is |
| Chem.RenderNoSymbols | js/libs/chem-handler.js:70-73 | without upper-case letters digits are copied too |
| Chem.RenderSymbol | js/libs/chem-handler.js:50-69 | a symbol is copied and the maximal digit run after it wrapped in one `<sub>` |
| Chem.FormatRun | js/libs/chem-handler.js:39 | `formatFormula` wraps each maximal digit run whole |
| Chem.FormatNoDigits | js/libs/chem-handler.js:39 | a formula without digits is left as it is by `formatFormula` |
| Chem.FormatAndRenderDiffer | js/libs/chem-handler.js:39-73 | `formatFormula` wraps a digit after no symbol, which `renderFormula` copies |
| Chem.CloseChem | js/libs/chem-handler.js:9 | the lazy group ends at the first closing tag, and no line terminator comes before it |
| Chem.BlockAt | js/libs/chem-handler.js:9-11 | `[CHEM]c[/CHEM]`, in any letter case, becomes the block marker of c |
| Chem.BracketInText | js/libs/chem-handler.js:14-19 | bare `[c]` is replaced by the span only when c is a formula; otherwise the match is put back |
| Chem.NoBracketUnchanged | js/libs/chem-handler.js:7-22 | a text without `[` is unchanged by both rules |
| Mermaid.IdShape | js/libs/mermaid-handler.js:12 | the id is `mermaid-` followed by at most nine characters, base 36 when the random string is |
| Mermaid.IdExample | js/libs/mermaid-handler.js:12 | a typical `toString(36)` result keeps nine characters |
| Mermaid.NoDiagram | js/libs/mermaid-handler.js:7-17 | without "```mermaid" and a newline the text is unchanged |
| Mermaid.DiagramInText | js/libs/mermaid-handler.js:9-14 | after backtick-free text, a block whose body does not end in a backtick ends at the first fence and becomes `<div id="ID" class="mermaid">` with its trimmed content; the next block gets the next id |
| Svg.ProcessFromAny | js/libs/svg-handler.js:10-12 | the replacement does not depend on the blocks before it |
| Svg.NoSvgBlock | js/libs/svg-handler.js:7-15 | without "```svg" and a newline the text is unchanged |
| Svg.SvgBlockInText | js/libs/svg-handler.js:9-12 | a block after backtick-free text, whose body does not end in a backtick, becomes the container of its trimmed content, and the rest is processed alike |
| Svg.RemoveDangerous | js/libs/svg-handler.js:46-50 | the loop over the live list leaves `LiveFrom(attrs, 0)` |
| Svg.RemoveSelects | js/libs/svg-handler.js:46-50 | the loop keeps exactly the attributes that `Removed` does not mark |
| Svg.RemovedIff | js/libs/svg-handler.js:46-49 | an attribute is removed iff it is dangerous and the one before it was not removed |
| Svg.RemovedWithoutPairs | js/libs/svg-handler.js:42-49 | without two adjacent dangerous attributes, an attribute is removed iff its lower-cased name contains a listed word |
| Svg.SecondHandlerSurvives | js/libs/svg-handler.js:46-49 | of `onclick` then `onload`, the first is removed and the second stays |
| Svg.RemovedOnlyDangerous | js/libs/svg-handler.js:47 | only dangerous attributes are removed |
| Svg.RemovalKeepsHarmless | js/libs/svg-handler.js:46-50 | the loop only removes, and every harmless attribute stays |
| Svg.Walk | js/libs/svg-handler.js:43-57 | the walk keeps each node's kind and tag |
| Svg.WalkNode | js/libs/svg-handler.js:43-57 | the recursive method with its two loops computes `Walk` |
| Svg.WalkKeepsShape | js/libs/svg-handler.js:43-57 | no node is removed: tags, styles, text and tree shape stay |
| Svg.ScriptChildSurvives | js/libs/svg-handler.js:53-55 | a `<script>` child is still there after the walk |
| Svg.WalkCleans | js/libs/svg-handler.js:43-57 | when no element has two adjacent dangerous attributes, no dangerous attribute is left anywhere |
| Svg.FindSound | js/libs/svg-handler.js:38 | the search finds an `svg` element exactly when the tree holds one |
| Svg.SanitizeInvalid | js/libs/svg-handler.js:38-39 | the result is `<p>Invalid SVG</p>` exactly when the fragment holds no `svg` element |
| Svg.SanitizeRoot | js/libs/svg-handler.js:59-67 | otherwise it is the first `svg` element, with its attributes filtered and its children walked |
| Svg.StyledKeeps | js/libs/svg-handler.js:62-65 | the four style properties get their values and every other style entry stays |
| Editing.SliceTo | js/editor.js:49 | `slice(0, k)` is the prefix, clamped at the length |
| Editing.AddedBounded | js/editor.js:47-56 | from at most 50 entries, an addition leaves at most 50 and at least one |
| Editing.AddedOnTop | js/editor.js:48-50 | below the limit, an addition keeps the entries up to the index, appends the text and makes it current, with nothing to redo |
| Editing.AddedAtLimit | js/editor.js:53-55 | at the limit, the shift drops the oldest entry but the index now points past the end |
| Editing.AddedAllShape | js/editor.js:47-56 | after n additions the index is n - 1 and the length is n, capped at 50 |
| Editing.IndexDrifts | js/editor.js:48-55 | after 51 or more additions the index is outside the history, and after 52 or more an undo reads `undefined` |
| Editing.UndoThenRedo | js/editor.js:58-74 | undo then redo returns to the same state while the index is in range |
| Editing.RedoThenUndo | js/editor.js:58-74 | redo then undo returns to the same state |
| Editing.UndoRedoStop | js/editor.js:58-74 | undo at the start and redo at the end change nothing, and an empty history allows neither |
| Editing.LineNumberCounts | js/editor.js:83-85 | the line number is one more than the newlines before the cursor |
| Editing.ColumnOf | js/editor.js:87-90 | the column is -1 on a newline; elsewhere it counts back to the line's start |
| Editing.CurrentLineOf | js/editor.js:92-97 | away from a newline, the current line is the newline-free slice around the cursor |
| Editing.CurrentLineOnNewline | js/editor.js:94-96 | on a newline the current line is `"\n"`, since `substring` swaps its arguments |
| Editing.ReplacedLineOf | js/editor.js:99-105 | a result exists iff the line number is in range; then the line count is kept, that line is replaced and the others are kept |
| Editing.TextArea.SetValue | js/editor.js:34 | a new value puts the caret at its end; the same value keeps the selection |
| Editing.TextArea.SetSelectionStart | js/main.js:181 | setting the start clamps it and pushes the end along |
| Editing.TextArea.SetSelectionEnd | js/main.js:182 | setting the end clamps it and pulls the start back |
| Editing.Editor.constructor | js/editor.js:7-12 | a new editor has an empty history at index -1 |
| Editing.Editor.GetText | js/editor.js:29-31 | the textarea's value |
| Editing.Editor.AddToHistory | js/editor.js:47-56 | the history moves as `Added` says |
| Editing.Editor.SetText | js/editor.js:33-36 | the value is the text and the text is added to the history; the selection is where assigning the value leaves it |
| Editing.Editor.InsertText | js/editor.js:38-45 | the text goes in at the given position, or at the selection start when none is given; the selection is where assigning the value leaves it |
| Editing.Editor.Undo | js/editor.js:58-65 | returns whether undo was possible; if so the index goes back and the value is the entry there, otherwise nothing changes; the selection is where assigning the value leaves it |
| Editing.Editor.Redo | js/editor.js:67-74 | returns whether redo was possible; if so the index goes forward and the value is the entry there, otherwise nothing changes; the selection is where assigning the value leaves it |
| Editing.Editor.GetSelectedText | js/editor.js:76-81 | the text between the selection ends |
| Editing.Editor.GetLineNumber | js/editor.js:83-85 | the line number at the selection start |
| Editing.Editor.GetColumnNumber | js/editor.js:87-90 | the column at the selection start |
| Editing.Editor.GetCurrentLine | js/editor.js:92-97 | the current line at the selection start |
| Editing.Editor.ReplaceLine | js/editor.js:99-105 | out of range nothing changes; in range the value is the new text and it is added to the history; the selection is where assigning the value leaves it |
| Editing.Editor.Clear | js/editor.js:107-111 | the value is empty and the history is empty at index -1; the selection is where assigning the value leaves it |
| Editing.Editor.SetCursorPosition | js/editor.js:126-130 | the start is set, then the end, which falls back to the start when it is missing or 0 |
| App.HelpKey | js/main.js:324 | a known help type is its own entry; any other falls back to `markdown` |
| App.UnknownHelpIsMarkdown | js/main.js:324 | an unknown help type shows the Markdown Syntax title |
| App.HelpTitlesDistinct | js/main.js:225-322 | the six entries have distinct titles |
| App.WrappedSelects | js/main.js:173-182 | in the new text, the span from start + \|before\| has the selection or the placeholder, with before, after and the text outside the selection around it |
| App.WrapTwice | js/main.js:170-185 | wrapping a bold selection again adds more markers |
| App.Tabbed | js/main.js:106 | the selection is replaced by one tab, and the text on both sides is kept |
| App.TabAgainstInsert | js/main.js:104-106 | with no selection Tab inserts a tab as `insertMarkdown` (js/main.js:170-185) with an empty placeholder would; with a selection it drops the selected text |
| App.Mdp.constructor | js/main.js:7-13 | the preview starts hidden and the file name is `untitled.md` |
| App.Mdp.UpdatePreview | js/main.js:112-122 | the preview holds the render of the editor's text |
| App.Mdp.OnEditorChange | js/main.js:94-98 | the preview is re-rendered only while preview mode is on |
| App.Mdp.TogglePreview | js/main.js:160-168 | the mode is set, and showing re-renders the preview |
| App.Mdp.OnEditorKeydown | js/main.js:100-110 | Tab replaces the selection by a tab and puts the caret after it; other keys change nothing |
| App.Mdp.Splice | js/main.js:171-182 | the value is the wrapped text, and the selection covers the chosen text right after the prefix |
| App.Mdp.InsertTab | js/main.js:104-107 | the selection is replaced by a tab and the caret sits right after it |
| App.Mdp.InsertMarkdown | js/main.js:170-185 | the value is the wrapped text, and the new selection spans exactly the selection or the placeholder |
| App.Mdp.NewDocument | js/main.js:187-194 | a non-empty document is kept, with its selection, file name and preview, unless the discard is confirmed; otherwise the value is empty, the file name is reset and the selection is where assigning the value leaves it |
| App.Mdp.ShowSyntaxHelp | js/main.js:324-325 | the modal title is the title of the chosen help entry |

## Left out

- DOM, UI and event wiring (js/ui/, main.js listeners, modal visibility, `focus()`, `classList`): no logic beyond the effects modelled as fields. js/ui/ is not part of this model.
- `processPreviewContent` and the backend sweeps (`MathHandler.renderMath`, `ChemHandler.render`, `SVGHandler.render`, `MermaidHandler.render`, highlight.js): foreign libraries and DOM queries.
- js/libs/syntax-highlighter.js is not part of this model: it only wraps highlight.js.
- `Math.random` is the parameter `rand: nat -> string`: the n-th diagram's random string is `rand(n)`. Uniqueness of ids is probabilistic and is not stated.
- File I/O in main.js (`FileReader`, `Blob`, downloads) and the `async` scheduling of `Renderer.render` (js/renderer.js:7, which returns a promise) and of `updatePreview`, which awaits it: I/O and timing. `Renderer.Render` returns the HTML the promise resolves to.
- `confirm` in `newDocument` is the parameter `confirmed`.
- `getCursorPosition` (js/editor.js:117-124) is not modelled. It only bundles `GetLineNumber` and `GetColumnNumber`.
- `syncScroll`, `setupEditor` and `focus` of js/editor.js: empty or UI.
- `processWikiSyntax` and `isWikiLink` (js/libs/wiki-shortcuts.js:20-26, 37-39): unused, and their garbled patterns have no clear reading.
- `getExamples` tables: data only. Some entries appear as concrete lemmas.
- Help content text in `showSyntaxHelp`: only the titles and the fallback are modelled. A type naming an `Object.prototype` member (such as `constructor`) would find an inherited value in JavaScript; the model treats it as unknown.
- The parsing and serialisation inside `sanitizeSVG` (`innerHTML`, `outerHTML`): the walk runs over an abstract tree of elements and other nodes.
- Unicode case mapping and Unicode `\w`: case mapping and `\w` are ASCII. `\s` is the full JavaScript set of white space and line terminators (`Strings.IsSpace`).
- The normalisation of line breaks when a textarea's value is set: values are stored as given.
- The load failure of js/libs/math-handler.js and js/libs/chem-handler.js (syntax errors at math-handler.js:10 and 15 and chem-handler.js:14): the model never reaches the `ReferenceError` at js/renderer.js:20. It renders with the intended reading of those lines, so `Renderer.Render` and `App.Mdp.UpdatePreview` describe the pipeline the handlers were written to give.
- Chem.ProcessBlocks: `ChemHandler` calls `this.escapeAttr`, which it does not define (js/libs/chem-handler.js:10). The model uses `MathHandler.escapeAttr` (js/libs/math-handler.js:55). In the source the call would throw.
- CodeBlocks.RestoreCodeBlocks: the `$` patterns of the replacement (js/renderer.js:95) are modelled by `Strings.ReplaceFirst`. The restoration lemmas assume blocks without `$`, and `<` in the case of `ExtractThenRestore`.
- Mermaid.ProcessBlocks: uses the reading of mermaid-handler.js:9 that the comment at line 8 describes. As written, the pattern parses, but it needs a literal backslash and `n` after the opener, and its class `[\\s\\S]` holds only `\`, `s` and `S`, so it matches no ordinary fenced block.
- Svg.ProcessBlocks: the same for svg-handler.js:9 and its comment at line 8.
- Renderer.MarkdownOf: the properties of the whole conversion are proved for particular shapes of input (one block, code spans, plain chunks), not for every text.
- Wiki.WikiLinkPass: the callback is proved under the pattern of js/libs/wiki-shortcuts.js:43, because line 9 as written never matches.
