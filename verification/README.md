# markdown2html in Dafny

A model of `markdown2html.py`, a script that converts a Markdown file into an HTML
file line by line. It covers:

- `remove_c`, which deletes every `c` and `C`;
- the line transformer `markdown_to_html_line`. It first applies four non-greedy regex
  substitutions in a fixed order: `**x**` to `<b>x</b>`, `__x__` to `<em>x</em>`,
  `[[x]]` to the MD5 digest of `x`, and `((x))` to `x` without `c`/`C`. It then applies
  the block rules: headings `#` to `######`, `- ` unordered items, `* ` ordered items, a
  blank line, and paragraph text. These rules are driven by three flags: in an unordered
  list, in an ordered list, in a paragraph. Each substitution sees the output of the one
  before it, so `[[**x**]]` is digested as `<b>x</b>`, not as `**x**`;
- the conversion loop of the main block. It strips each line, converts it with the
  flags left by the previous line, keeps the non-empty fragments, appends the closing
  tag of whatever is still open, and joins the fragments with newlines.

Files:

- `pystr.dfy` (module `PyStr`) holds the Python string built-ins used: `startswith`,
  `strip` (with Python's exact `isspace` set) and `join`.
- `scanner.dfy` (module `Scanner`) holds `Rewrite`, a left-to-right scanner with the
  semantics of `re.sub(o + '(.*?)' + c, f, s)` for two-character delimiters. At each
  position it looks for the shortest match. `.` does not match a newline. Unmatched
  delimiters stay literal. Scanning resumes after each replaced span.
- `markdown.dfy` (module `Markdown`) holds `remove_c`, the four rewrites and the block
  rules, with lemmas on each branch. It also has a `Block` datatype as an alternative view of the
  three flags, proved equivalent on every state where at most one flag is set.
- `driver.dfy` (module `Driver`) holds the conversion loop. It is written as a
  `method` whose loop invariant ties the loop state to the pure fold `FoldFrom`. That
  fold takes the per-line converter as a parameter, and `Document` applies it to
  `markdown_to_html_line`. Lemmas on the fold show that exactly the non-empty
  fragments reach `html_content`, in line order, and what whole runs of paragraph
  lines and of list lines become.

## Model

| member | source | states |
|---|---|---|
| `Markdown.RemoveC` | markdown2html.py:29-31 | no `c` or `C` is left in the result, and it is no longer than the input |
| `Markdown.RemoveCKeepsOthers` | markdown2html.py:29-31 | every character other than `c`/`C` occurs exactly as often as in the input |
| `Markdown.RemoveCAppend` | markdown2html.py:29-31 | deletion works piecewise, `remove_c(a + b) == remove_c(a) + remove_c(b)`, so the kept characters stay in their order |
| `Markdown.RemoveCKeepsClean` | markdown2html.py:29-31 | a string with no `c`/`C` comes back unchanged |
| `Markdown.RemoveCIdempotent` | markdown2html.py:29-31 | `remove_c(remove_c(s)) == remove_c(s)` |
| `Scanner.Matches` | markdown2html.py:65 | the match relation of the regex `o(.*)c`: the opener at `i`, the closer at some `j >= i + 2`, and no newline in between; the scanner is proved against it |
| `Scanner.FindClose` | markdown2html.py:65 | the lazy `(.*?)` search returns the first index where the closing delimiter occurs with no newline before it, and none is returned only if every closing delimiter has a newline before it |
| `Scanner.MatchesShift` | markdown2html.py:65 | dropping `d` leading characters moves every regex match `d` places left |
| `Scanner.MatchAtStart` | markdown2html.py:65 | an opener at 0 either closes at the index the search returns or matches nowhere |
| `Scanner.Step` | markdown2html.py:65 | one scanning step consumes at least one character and no more than remain: a whole shortest match at 0, or else one copied character |
| `Scanner.Rewrite` | markdown2html.py:65-74 | `re.sub(o + '(.*?)' + c, f, s)`; its behaviour is stated against `Matches` by `RewriteFirstMatch` and `RewriteNoMatch` and completed by the round trip `RewriteRewrapWith` |
| `Scanner.RewriteSkip` | markdown2html.py:65 | where no match starts at 0, the first character is copied and scanning goes on at 1 |
| `Scanner.RewriteNoMatch` | markdown2html.py:65-74 | where the pattern matches nowhere, `re.sub` returns its input unchanged |
| `Scanner.RewriteMatchAtStart` | markdown2html.py:65 | a shortest match at 0 is replaced by `f` of the enclosed text, then scanning resumes after it |
| `Scanner.RewriteCopyPrefix` | markdown2html.py:65 | text before the first position where a match starts is copied unchanged |
| `Scanner.RewriteMatchAt` | markdown2html.py:65 | scanning from the start of a shortest match replaces it |
| `Scanner.RewriteFirstMatch` | markdown2html.py:65-74 | leftmost, then shortest: the prefix before the first match is copied, the enclosed text goes through `f`, and the rest after the closing delimiter is rewritten in turn |
| `Scanner.RewriteSpan` | markdown2html.py:65-74 | a leading span `o x c` whose `x` has no newline and no first character of `c` becomes `f(x)` followed by the rewritten rest |
| `Scanner.RewriteLiteralPrefix` | markdown2html.py:65-74 | text without the opener's first character is copied verbatim |
| `Scanner.RewriteRewrapWith` | markdown2html.py:65-74 | if `f` puts the delimiters back, the result is the input: no text outside the replaced spans is lost or reordered |
| `Scanner.RewriteRewrap` | markdown2html.py:65-74 | the same statement, for the re-wrapping lambda itself |
| `Markdown.Bold` | markdown2html.py:65 | the first substitution, `**x**` to `<b>x</b>`, an instance of `Rewrite`; `BoldSpan` states its effect |
| `Markdown.Emphasis` | markdown2html.py:68 | the second substitution, `__x__` to `<em>x</em>`; `EmphasisSpan` states its effect |
| `Markdown.Digest` | markdown2html.py:71 | the third substitution, `[[x]]` to the digest of `x`; `DigestSpan` states its effect |
| `Markdown.StripC` | markdown2html.py:74 | the fourth substitution, `((x))` to `remove_c(x)`; `StripCSpan` states its effect |
| `Markdown.InlineRewrite` | markdown2html.py:64-74 | the four substitutions in source order, each applied to the result of the one before; `PlainLineUnchanged` and `DigestSeesBoldMarkup` state its effect |
| `Markdown.BoldSpan` | markdown2html.py:65 | `**x**` followed by `rest` becomes `<b>x</b>` followed by the rewritten rest |
| `Markdown.EmphasisSpan` | markdown2html.py:68 | `__x__` followed by `rest` becomes `<em>x</em>` followed by the rewritten rest |
| `Markdown.DigestSpan` | markdown2html.py:71 | `[[x]]` followed by `rest` becomes `md5(x)` followed by the rewritten rest |
| `Markdown.StripCSpan` | markdown2html.py:74 | `((x))` followed by `rest` becomes `remove_c(x)` followed by the rewritten rest |
| `Markdown.PlainLineUnchanged` | markdown2html.py:64-74 | a line without `*`, `_`, `[` or `(` passes all four substitutions unchanged |
| `Markdown.BoldInsideBrackets` | markdown2html.py:65 | `[[**x**]]` becomes `[[<b>x</b>]]` after the first substitution |
| `Markdown.DigestSeesBoldMarkup` | markdown2html.py:64-71 | the substitutions run in order, so `[[**x**]]` is digested as `md5("<b>x</b>")` |
| `Markdown.Hashes` | markdown2html.py:78 | `'#' * n` has length `n` and only `#` characters |
| `Markdown.MarkerChars` | markdown2html.py:78 | under the marker `'#' * level + ' '`, the first `level` characters are `#` and the next one is a space |
| `Markdown.HeadingMarkerUnique` | markdown2html.py:77-79 | at most one heading level's marker starts a line, so the descending loop order does not affect the result |
| `Markdown.HeadingLevelFrom` | markdown2html.py:77-79 | the level found is the largest level not above 6 whose marker starts the line, or 0 when no level's marker does |
| `Markdown.HeadingHtml` | markdown2html.py:55-62 | the `heading_levels` template of a level from 1 to 6, `<hL>text</hL>`; `HeadingLine` states where it is used |
| `Markdown.ListItem` | markdown2html.py:83 | the list item `<li>` + the stripped remainder + `</li>`, built the same way at line 91 |
| `Markdown.BlockRules` | markdown2html.py:76-111 | at most one flag is set on every return path, and the fragment is empty exactly for an empty line with no block open |
| `Markdown.MarkdownToHtmlLine` | markdown2html.py:34-111 | at most one flag is set after every line, and the fragment is empty exactly when the rewritten line is empty and no block was open |
| `Markdown.HeadingLine` | markdown2html.py:76-79 | a line with marker `L` (1 to 6) becomes `<hL>` of the stripped rest, and all flags are cleared |
| `Markdown.TooDeepHeadingIsText` | markdown2html.py:76-111 | seven or more `#` before the space is no heading, and the line becomes paragraph text |
| `Markdown.NoHashNoHeading` | markdown2html.py:76-79 | a line that does not start with `#` is no heading |
| `Markdown.UnorderedItemLine` | markdown2html.py:81-87 | a `- x` line gives `<li>strip(x)</li>`, preceded by `<ul>` and a newline exactly when no unordered list was open, and leaves only that list open |
| `Markdown.OrderedItemLine` | markdown2html.py:89-95 | a `* x` line gives `<li>strip(x)</li>`, preceded by `<ol>` and a newline exactly when no ordered list was open, and leaves only that list open |
| `Markdown.BlankLine` | markdown2html.py:97-105 | an empty line closes, in priority order, an unordered list, then an ordered list, then a paragraph; with nothing open it gives `""`; all flags are cleared after it |
| `Markdown.TextLine` | markdown2html.py:107-111 | any other line opens a paragraph, or continues the open one after `<br />`; it emits no list closing tag and leaves only the paragraph open |
| `Markdown.PlainTextLine` | markdown2html.py:64-111 | non-empty text that starts with neither `#` nor `-` and holds no `*`, `_`, `[` or `(` comes through the whole line transformer unchanged as paragraph text, opening or continuing the paragraph |
| `Markdown.BoldSkipsOrderedMarker` | markdown2html.py:65 | the `* ` of an ordered item opens no bold span, so `* x` with no `*` in `x` passes the bold substitution unchanged |
| `Markdown.PlainOrderedItem` | markdown2html.py:64-95 | `* x` with no `*`, `_`, `[` or `(` in `x` comes through the whole line transformer as the item `<li>strip(x)</li>`, with `<ol>` and a newline first exactly when no ordered list was open |
| `Markdown.PlainUnorderedItem` | markdown2html.py:64-87 | `- x` with no `*`, `_`, `[` or `(` in `x` comes through the whole line transformer as the item `<li>strip(x)</li>`, with `<ul>` and a newline first exactly when no unordered list was open |
| `Markdown.FlagsOf` | markdown2html.py:136-138 | every block maps to flags with at most one set, and only "no block" maps to all-clear |
| `Markdown.BlockFlagsRoundTrip` | markdown2html.py:136-138 | blocks and flags with at most one set correspond one to one |
| `Markdown.BlockStep` | markdown2html.py:76-111 | the block rules over one block value; the fragment is empty exactly for an empty line with no block open |
| `Markdown.BlockStepMatchesFlags` | markdown2html.py:76-111 | on every state with at most one flag set, the three-flag rules and the block-value rules give the same fragment and the same next state |
| `PyStr.StartsWith` | markdown2html.py:78 | `str.startswith`: the prefix is no longer than the string and equals its leading slice |
| `PyStr.StartsWithCharwise` | markdown2html.py:78 | `startswith` holds exactly when every character of the prefix equals the string's character at the same index |
| `PyStr.IsSpace` | markdown2html.py:141 | `str.isspace` on one character: the Unicode whitespace set that argument-less `strip` removes |
| `PyStr.TrimLeft` | markdown2html.py:141 | the result is a suffix of the input, all of the removed prefix is whitespace, and the result does not start with whitespace |
| `PyStr.TrimRight` | markdown2html.py:141 | the result is a prefix of the input, all of the removed suffix is whitespace, and the result does not end with whitespace |
| `PyStr.Strip` | markdown2html.py:141 | `line.strip()` is the slice left after removing whitespace from both ends, and neither of its ends is whitespace |
| `PyStr.StripIdempotent` | markdown2html.py:141 | stripping twice is stripping once |
| `PyStr.Join` | markdown2html.py:155 | no parts join to `""`, one part joins to itself, and the joined text starts with the first part and ends with the last |
| `PyStr.JoinSnoc` | markdown2html.py:155 | appending a part appends the separator and then that part, so `"\n".join` puts exactly one newline between consecutive fragments and none at the end |
| `Driver.Convert` | markdown2html.py:140-141 | the call `markdown_to_html_line(line.strip(), ...)` the loop makes, as a converter from a line and the flags to a fragment and the flags; `ConvertKeepsAtMostOne` states its invariant |
| `Driver.ConvertKeepsAtMostOne` | markdown2html.py:139-141 | the converter used by the loop never leaves two flags set |
| `Driver.LineOut` | markdown2html.py:139-143 | one loop iteration keeps at most one fragment, never an empty one, and passes on the converter's flags |
| `Driver.FoldFrom` | markdown2html.py:139-143 | the collected fragments are all non-empty, there are no more of them than lines, and the at-most-one-flag invariant is kept |
| `Driver.FoldAppend` | markdown2html.py:139-143 | converting `a + b` gives the fragments of `a` followed by those of `b` converted from the flags `a` left: fragments follow line order |
| `Driver.Fragments` | markdown2html.py:139-141 | the fragment of every line, empty ones included, with the flags threaded from one line to the next: one fragment per line |
| `Driver.NonEmpty` | markdown2html.py:142-143 | the `if html_line` filter: every entry kept is non-empty, every non-empty fragment is kept, there are no more entries than fragments, and nothing is dropped when no fragment is empty |
| `Driver.FoldKeepsEveryFragment` | markdown2html.py:139-143 | the loop collects exactly the non-empty fragments of the lines, in line order: nothing else is added and none is lost |
| `Driver.ClosingTags` | markdown2html.py:145-151 | the three independent `if`s that close what is still open; `ClosingTagsOfBlock` states what they append |
| `Driver.ClosingTagsOfBlock` | markdown2html.py:145-151 | with at most one flag set, the three end-of-document `if`s append exactly the tag of the open block, or nothing |
| `Driver.Document` | markdown2html.py:134-151 | `html_content` is the loop's fragments plus at most one closing tag, the one matching the block still open; it has no empty entries and at most one more entry than there are lines |
| `Driver.BlankLastLineClosesAll` | markdown2html.py:139-151 | if the last line is blank once stripped, no block is open at the end and no closing tag is appended |
| `Driver.DocumentOfRun` | markdown2html.py:134-151 | when the first line opens a block and every later line continues it, `html_content` is one fragment per line followed by that block's closing tag |
| `Driver.ParagraphRun` | markdown2html.py:134-151 | consecutive plain-text lines become `<p>` and a newline before the first, `<br />` and a newline before each later one, and a final `</p>` |
| `Driver.UnorderedListRun` | markdown2html.py:134-151 | consecutive `- x` lines become `<ul>` and a newline before the first `<li>` item, one `<li>` item per line, and a final `</ul>` |
| `Driver.OrderedListRun` | markdown2html.py:134-151 | consecutive `* x` lines become `<ol>` and a newline before the first `<li>` item, one `<li>` item per line, and a final `</ol>` |
| `Driver.ConvertLines` | markdown2html.py:134-155 | the loop builds exactly `Document(lines)`, and the text written out is those fragments joined by `"\n"` |

## Left out

- `md5_hash` (`hashlib.md5(...).hexdigest()`, lines 24-26) is not modelled. The digest function is the parameter `md5`, so the model states where a digest goes, not what it is.
- `Scanner.Rewrite` handles two-character literal delimiters only, which is all the four patterns use. General `re` semantics is not modelled.
- The `__main__` block's argument check, file-existence check, file reading and writing, exception handler and exit codes (lines 114-133, 154 and 157-163) are I/O and are left out. `Driver.ConvertLines` takes the lines `readlines()` would return and returns the text that would be written.
- Characters are Unicode scalar values. The encoding step in `md5_hash` (`content.encode()`) belongs to the digest, which is left out.
