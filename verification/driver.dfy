/**
 * The conversion loop of markdown2html.py's main block, without the file
 * handling: each line is stripped and converted with the flags the previous
 * line left, non-empty fragments are collected in order, the tag of a block
 * still open at the end is appended, and the fragments are joined with
 * newlines.
 */
module Driver {
  import opened PyStr
  import opened Markdown

  /** A per-line converter as the loop calls it: the stripped line and the
      flags in, a fragment (possibly empty) and the flags out. */
  type Converter = (string, Flags) -> (string, Flags)

  /** `markdown_to_html_line`, with the digest function fixed. */
  function Convert(md5: string -> string): Converter
  {
    (line, st) => MarkdownToHtmlLine(line, st, md5)
  }

  /** The converter never leaves more than one block open. */
  ghost predicate KeepsAtMostOne(convert: Converter)
  {
    forall line, st :: AtMostOne(convert(line, st).1)
  }

  lemma ConvertKeepsAtMostOne(md5: string -> string)
    ensures KeepsAtMostOne(Convert(md5))
  {
    forall line, st ensures AtMostOne(Convert(md5)(line, st).1) {
      var r := MarkdownToHtmlLine(line, st, md5);
      assert Convert(md5)(line, st) == r;
    }
  }

  /** One iteration of the loop: the line is stripped and converted with the
      flags `st`; its fragment is kept only when non-empty (`if html_line`). */
  function LineOut(convert: Converter, st: Flags, line: string): (r: (seq<string>, Flags))
    ensures |r.0| <= 1 && forall k :: 0 <= k < |r.0| ==> r.0[k] != ""
    ensures r.1 == convert(Strip(line), st).1
  {
    var step := convert(Strip(line), st);
    (if step.0 != "" then [step.0] else [], step.1)
  }

  /** The loop over `lines` from flags `st`: the fragments collected, in
      line order, and the flags after the last line. */
  function FoldFrom(convert: Converter, st: Flags, lines: seq<string>): (r: (seq<string>, Flags))
    ensures KeepsAtMostOne(convert) && AtMostOne(st) ==> AtMostOne(r.1)
    ensures forall k :: 0 <= k < |r.0| ==> r.0[k] != ""
    ensures |r.0| <= |lines|
    decreases |lines|
  {
    if |lines| == 0 then ([], st)
    else
      var prev := FoldFrom(convert, st, lines[..|lines| - 1]);
      var out := LineOut(convert, prev.1, lines[|lines| - 1]);
      (prev.0 + out.0, out.1)
  }

  /** The three independent `if`s after the loop that close what is still open. */
  function ClosingTags(st: Flags): seq<string>
  {
    (if st.inUnorderedList then ["</ul>"] else []) +
    (if st.inOrderedList then ["</ol>"] else []) +
    (if st.inParagraph then ["</p>"] else [])
  }

  /** With at most one flag set, exactly the tag of the open block is
      appended, or nothing when no block is open. */
  lemma ClosingTagsOfBlock(st: Flags)
    requires AtMostOne(st)
    ensures ClosingTags(st) == if BlockOf(st) == NoBlock then [] else [CloseTag(BlockOf(st))]
  {
    BlockFlagsRoundTrip(BlockOf(st), st);
    match BlockOf(st)
    case NoBlock =>
    case UnorderedList =>
    case OrderedList =>
    case Paragraph =>
  }

  /** The list `html_content` the program writes out, before joining. */
  function Document(lines: seq<string>, md5: string -> string): (r: seq<string>)
    ensures var f := FoldFrom(Convert(md5), AllClear, lines);
            r == f.0 + (if BlockOf(f.1) == NoBlock then [] else [CloseTag(BlockOf(f.1))])
    ensures forall k :: 0 <= k < |r| ==> r[k] != ""
    ensures |r| <= |lines| + 1
  {
    var f := FoldFrom(Convert(md5), AllClear, lines);
    ConvertKeepsAtMostOne(md5);
    ClosingTagsOfBlock(f.1);
    f.0 + ClosingTags(f.1)
  }

  /** The loop unrolled by one line: the fold over `lines[..i + 1]` is the
      fold over `lines[..i]` followed by line `i`. */
  lemma FoldSnoc(convert: Converter, st: Flags, lines: seq<string>, i: nat)
    requires i < |lines|
    ensures var prev := FoldFrom(convert, st, lines[..i]);
            var out := LineOut(convert, prev.1, lines[i]);
            FoldFrom(convert, st, lines[..i + 1]) == (prev.0 + out.0, out.1)
  {
    var l := lines[..i + 1];
    assert l[..|l| - 1] == lines[..i];
    assert l[|l| - 1] == lines[i];
  }

  /** The fold over a non-empty `lines` ends with its last line. */
  lemma FoldLast(convert: Converter, st: Flags, lines: seq<string>)
    requires |lines| > 0
    ensures var prev := FoldFrom(convert, st, lines[..|lines| - 1]);
            var out := LineOut(convert, prev.1, lines[|lines| - 1]);
            FoldFrom(convert, st, lines) == (prev.0 + out.0, out.1)
  {
  }

  /** Converting `a + b` is converting `a`, then `b` from the flags `a` left:
      the fragments of earlier lines come first, in order. */
  lemma {:induction false} FoldAppend(convert: Converter, st: Flags, a: seq<string>, b: seq<string>)
    ensures var fa := FoldFrom(convert, st, a);
            var fb := FoldFrom(convert, fa.1, b);
            FoldFrom(convert, st, a + b) == (fa.0 + fb.0, fb.1)
    decreases |b|
  {
    var fa := FoldFrom(convert, st, a);
    if |b| == 0 {
      assert a + b == a;
      assert fa.0 + [] == fa.0;
    } else {
      var ab := a + b;
      var b', last := b[..|b| - 1], b[|b| - 1];
      var ab' := ab[..|ab| - 1];
      assert ab' == a + b';
      assert ab[|ab| - 1] == last;
      FoldAppend(convert, st, a, b');
      var fb' := FoldFrom(convert, fa.1, b');
      var prev := FoldFrom(convert, st, ab');
      assert prev == (fa.0 + fb'.0, fb'.1);
      var out := LineOut(convert, fb'.1, last);
      FoldLast(convert, st, ab);
      assert FoldFrom(convert, st, ab) == (prev.0 + out.0, out.1);
      FoldLast(convert, fa.1, b);
      assert FoldFrom(convert, fa.1, b) == (fb'.0 + out.0, out.1);
      ConcatAssoc(fa.0, fb'.0, out.0);
    }
  }

  /** The fragment `convert` gives each line, empty ones included, threading
      the flags from the first line on. */
  function Fragments(convert: Converter, st: Flags, lines: seq<string>): (r: seq<string>)
    ensures |r| == |lines|
    decreases |lines|
  {
    if |lines| == 0 then []
    else
      var step := convert(Strip(lines[0]), st);
      [step.0] + Fragments(convert, step.1, lines[1..])
  }

  /** The non-empty entries of `frags`, in their order. */
  function NonEmpty(frags: seq<string>): (r: seq<string>)
    ensures forall k :: 0 <= k < |r| ==> r[k] != ""
    ensures forall k :: 0 <= k < |frags| && frags[k] != "" ==> frags[k] in r
    ensures |r| <= |frags|
    ensures (forall k :: 0 <= k < |frags| ==> frags[k] != "") ==> r == frags
    decreases |frags|
  {
    if |frags| == 0 then []
    else
      assert frags == [frags[0]] + frags[1..];
      (if frags[0] == "" then [] else [frags[0]]) + NonEmpty(frags[1..])
  }

  /** Every line's non-empty fragment reaches `html_content`, in line order,
      and nothing else does. */
  lemma {:induction false} FoldKeepsEveryFragment(convert: Converter, st: Flags, lines: seq<string>)
    ensures FoldFrom(convert, st, lines).0 == NonEmpty(Fragments(convert, st, lines))
    decreases |lines|
  {
    if |lines| > 0 {
      var l, t := lines[0], lines[1..];
      assert lines == [l] + t;
      var step := convert(Strip(l), st);
      var rest := Fragments(convert, step.1, t);
      assert Fragments(convert, st, lines) == [step.0] + rest;
      assert ([step.0] + rest)[1..] == rest;
      FoldOne(convert, st, l);
      FoldAppend(convert, st, [l], t);
      FoldKeepsEveryFragment(convert, step.1, t);
    }
  }

  /** The fold over a single line is that line's step. */
  lemma FoldOne(convert: Converter, st: Flags, l: string)
    ensures FoldFrom(convert, st, [l]) == LineOut(convert, st, l)
  {
    assert [l][..0] == [];
    FoldLast(convert, st, [l]);
    var out := LineOut(convert, st, l);
    assert [] + out.0 == out.0;
  }

  /** Line `line`, converted with no block open, gives the non-empty fragment
      `frag` and leaves `b` open. */
  ghost predicate Opens(convert: Converter, b: Flags, line: string, frag: string)
  {
    convert(Strip(line), AllClear) == (frag, b) && frag != ""
  }

  /** Line `line`, converted while block `b` is open, gives the non-empty
      fragment `frag` and leaves `b` open. */
  ghost predicate Continues(convert: Converter, b: Flags, line: string, frag: string)
  {
    convert(Strip(line), b) == (frag, b) && frag != ""
  }

  /** A run of lines that all belong to one block `b`: the first opens it and
      every later one continues it. The fold keeps one fragment per line, in
      order, and leaves `b` open. */
  lemma {:induction false} OneBlockRun(convert: Converter, lines: seq<string>, n: nat, b: Flags,
                                       first: string, next: seq<string>)
    requires 1 <= n <= |lines| && |next| == |lines|
    requires Opens(convert, b, lines[0], first)
    requires forall k {:trigger Continues(convert, b, lines[k], next[k])} ::
               1 <= k < |lines| ==> Continues(convert, b, lines[k], next[k])
    ensures FoldFrom(convert, AllClear, lines[..n]) == ([first] + next[1..n], b)
    decreases n
  {
    if n > 1 {
      OneBlockRun(convert, lines, n - 1, b, first, next);
      RunStep(convert, lines, n, b, first, next);
    } else {
      RunStart(convert, lines, b, first, next);
    }
  }

  lemma RunStart(convert: Converter, lines: seq<string>, b: Flags, first: string, next: seq<string>)
    requires 1 <= |lines| && 1 <= |next|
    requires Opens(convert, b, lines[0], first)
    ensures FoldFrom(convert, AllClear, lines[..1]) == ([first] + next[1..1], b)
  {
    assert lines[..1] == [lines[0]];
    FoldOne(convert, AllClear, lines[0]);
    assert LineOut(convert, AllClear, lines[0]) == ([first], b);
    assert [first] + next[1..1] == [first];
  }

  lemma RunStep(convert: Converter, lines: seq<string>, n: nat, b: Flags, first: string, next: seq<string>)
    requires 2 <= n <= |lines| && |next| == |lines|
    requires FoldFrom(convert, AllClear, lines[..n - 1]) == ([first] + next[1..n - 1], b)
    requires Continues(convert, b, lines[n - 1], next[n - 1])
    ensures FoldFrom(convert, AllClear, lines[..n]) == ([first] + next[1..n], b)
  {
    FoldSnoc(convert, AllClear, lines, n - 1);
    var out := LineOut(convert, b, lines[n - 1]);
    assert out == ([next[n - 1]], b);
    SliceSnoc(next, 1, n - 1);
    ConcatAssoc([first], next[1..n - 1], [next[n - 1]]);
  }

  lemma SliceSnoc(s: seq<string>, i: nat, j: nat)
    requires i <= j < |s|
    ensures s[i..j + 1] == s[i..j] + [s[j]]
  {
  }

  /** The fold over a whole run of one block `b`. */
  lemma FoldOfRun(convert: Converter, lines: seq<string>, b: Flags, first: string, next: seq<string>)
    requires |lines| > 0 && |next| == |lines|
    requires Opens(convert, b, lines[0], first)
    requires forall k {:trigger Continues(convert, b, lines[k], next[k])} ::
               1 <= k < |lines| ==> Continues(convert, b, lines[k], next[k])
    ensures FoldFrom(convert, AllClear, lines) == ([first] + next[1..], b)
  {
    OneBlockRun(convert, lines, |lines|, b, first, next);
    assert lines[..|lines|] == lines;
    SliceToEnd(next, 1);
  }

  lemma SliceToEnd(s: seq<string>, i: nat)
    requires i <= |s|
    ensures s[i..|s|] == s[i..]
  {
  }

  /** A document whose loop leaves block `b` open ends with `b`'s closing tag. */
  lemma DocumentEndsOpen(lines: seq<string>, md5: string -> string, body: seq<string>, b: Flags)
    requires FoldFrom(Convert(md5), AllClear, lines) == (body, b) && b != AllClear
    ensures Document(lines, md5) == body + [CloseTag(BlockOf(b))]
  {
    assert BlockOf(b) != NoBlock;
  }

  /** The document of a run of lines that all belong to one block `b`: one
      fragment per line, then the tag that closes `b`. */
  lemma DocumentOfRun(lines: seq<string>, md5: string -> string, b: Flags, first: string, next: seq<string>)
    requires |lines| > 0 && |next| == |lines| && b != AllClear
    requires Opens(Convert(md5), b, lines[0], first)
    requires forall k {:trigger Continues(Convert(md5), b, lines[k], next[k])} ::
               1 <= k < |lines| ==> Continues(Convert(md5), b, lines[k], next[k])
    ensures var r := Document(lines, md5);
            && |r| == |lines| + 1
            && r[0] == first
            && (forall k :: 1 <= k < |lines| ==> r[k] == next[k])
            && r[|lines|] == CloseTag(BlockOf(b))
  {
    FoldOfRun(Convert(md5), lines, b, first, next);
    DocumentEndsOpen(lines, md5, [first] + next[1..], b);
    RunShape(Document(lines, md5), first, next, CloseTag(BlockOf(b)));
  }

  lemma RunCloseTags()
    ensures CloseTag(BlockOf(Flags(false, false, true))) == "</p>"
    ensures CloseTag(BlockOf(Flags(true, false, false))) == "</ul>"
    ensures CloseTag(BlockOf(Flags(false, true, false))) == "</ol>"
  {
  }

  lemma RunShape(r: seq<string>, first: string, next: seq<string>, close: string)
    requires |next| >= 1 && r == [first] + next[1..] + [close]
    ensures |r| == |next| + 1 && r[0] == first && r[|next|] == close
    ensures forall k :: 1 <= k < |next| ==> r[k] == next[k]
  {
  }

  lemma TextOpens(line: string, md5: string -> string)
    requires PlainText(Strip(line))
    ensures Opens(Convert(md5), Flags(false, false, true), line, "<p>\n    " + Strip(line))
  {
    PlainTextLine(Strip(line), AllClear, md5);
    assert Convert(md5)(Strip(line), AllClear) == MarkdownToHtmlLine(Strip(line), AllClear, md5);
  }

  lemma TextContinues(line: string, md5: string -> string)
    requires PlainText(Strip(line))
    ensures Continues(Convert(md5), Flags(false, false, true), line, "    <br />\n    " + Strip(line))
  {
    var b := Flags(false, false, true);
    PlainTextLine(Strip(line), b, md5);
    assert Convert(md5)(Strip(line), b) == MarkdownToHtmlLine(Strip(line), b, md5);
  }

  lemma ItemOpens(line: string, item: string, md5: string -> string)
    requires Strip(line) == "- " + item && NoInlineMarkup(item)
    ensures Opens(Convert(md5), Flags(true, false, false), line, "<ul>\n" + ListItem(item))
  {
    PlainUnorderedItem(item, AllClear, md5);
    assert Convert(md5)(Strip(line), AllClear) == MarkdownToHtmlLine("- " + item, AllClear, md5);
  }

  lemma ItemContinues(line: string, item: string, md5: string -> string)
    requires Strip(line) == "- " + item && NoInlineMarkup(item)
    ensures Continues(Convert(md5), Flags(true, false, false), line, ListItem(item))
  {
    var b := Flags(true, false, false);
    PlainUnorderedItem(item, b, md5);
    assert Convert(md5)(Strip(line), b) == MarkdownToHtmlLine("- " + item, b, md5);
    assert "" + ListItem(item) == ListItem(item);
  }

  /** `p` put before every entry of `texts`. */
  function Prefixed(p: string, texts: seq<string>): (r: seq<string>)
    ensures |r| == |texts| && forall k :: 0 <= k < |texts| ==> r[k] == p + texts[k]
  {
    if texts == [] then [] else [p + texts[0]] + Prefixed(p, texts[1..])
  }

  lemma OrderedOpens(line: string, item: string, md5: string -> string)
    requires Strip(line) == "* " + item && NoInlineMarkup(item)
    ensures Opens(Convert(md5), Flags(false, true, false), line, "<ol>\n" + ListItem(item))
  {
    PlainOrderedItem(item, AllClear, md5);
    assert Convert(md5)(Strip(line), AllClear) == MarkdownToHtmlLine("* " + item, AllClear, md5);
  }

  lemma OrderedContinues(line: string, item: string, md5: string -> string)
    requires Strip(line) == "* " + item && NoInlineMarkup(item)
    ensures Continues(Convert(md5), Flags(false, true, false), line, ListItem(item))
  {
    var b := Flags(false, true, false);
    PlainOrderedItem(item, b, md5);
    assert Convert(md5)(Strip(line), b) == MarkdownToHtmlLine("* " + item, b, md5);
    assert "" + ListItem(item) == ListItem(item);
  }

  /** Consecutive lines that are plain text `texts[k]` once stripped
      (non-blank, not starting with `#` or `-`, with no `*`, `_`, `[` or `(`)
      form one paragraph: `<p>` before the first, `<br />` before each later
      one, and `</p>` at the end of the document. */
  lemma ParagraphRun(lines: seq<string>, texts: seq<string>, md5: string -> string)
    requires |lines| > 0 && |texts| == |lines|
    requires forall k {:trigger Strip(lines[k])} ::
               0 <= k < |lines| ==> Strip(lines[k]) == texts[k] && PlainText(texts[k])
    ensures var r := Document(lines, md5);
            && |r| == |lines| + 1
            && r[0] == "<p>\n    " + texts[0]
            && (forall k :: 1 <= k < |lines| ==> r[k] == "    <br />\n    " + texts[k])
            && r[|lines|] == "</p>"
  {
    var convert := Convert(md5);
    var b := Flags(false, false, true);
    var first := "<p>\n    " + texts[0];
    var next := Prefixed("    <br />\n    ", texts);
    assert Strip(lines[0]) == texts[0];
    TextOpens(lines[0], md5);
    forall k | 1 <= k < |lines|
      ensures Continues(convert, b, lines[k], next[k])
    {
      assert Strip(lines[k]) == texts[k];
      TextContinues(lines[k], md5);
    }
    RunCloseTags();
    DocumentOfRun(lines, md5, b, first, next);
  }

  /** Consecutive lines that are `- items[k]` once stripped (with no `*`,
      `_`, `[` or `(` in the items) form one unordered list: `<ul>` and a
      newline before the first item, one `<li>` item per line, and `</ul>` at
      the end of the document. */
  lemma UnorderedListRun(lines: seq<string>, items: seq<string>, md5: string -> string)
    requires |lines| > 0 && |items| == |lines|
    requires forall k {:trigger Strip(lines[k])} ::
               0 <= k < |lines| ==> Strip(lines[k]) == "- " + items[k] && NoInlineMarkup(items[k])
    ensures var r := Document(lines, md5);
            && |r| == |lines| + 1
            && r[0] == "<ul>\n" + ListItem(items[0])
            && (forall k :: 1 <= k < |lines| ==> r[k] == ListItem(items[k]))
            && r[|lines|] == "</ul>"
  {
    var convert := Convert(md5);
    var b := Flags(true, false, false);
    var first := "<ul>\n" + ListItem(items[0]);
    var next := seq(|lines|, k requires 0 <= k < |lines| => ListItem(items[k]));
    assert Strip(lines[0]) == "- " + items[0];
    ItemOpens(lines[0], items[0], md5);
    forall k | 1 <= k < |lines|
      ensures Continues(convert, b, lines[k], next[k])
    {
      assert Strip(lines[k]) == "- " + items[k];
      ItemContinues(lines[k], items[k], md5);
    }
    RunCloseTags();
    DocumentOfRun(lines, md5, b, first, next);
  }

  /** Consecutive lines that are `* items[k]` once stripped (with no `*`,
      `_`, `[` or `(` in the items) form one ordered list: `<ol>` and a
      newline before the first item, one `<li>` item per line, and `</ol>` at
      the end of the document. */
  lemma OrderedListRun(lines: seq<string>, items: seq<string>, md5: string -> string)
    requires |lines| > 0 && |items| == |lines|
    requires forall k {:trigger Strip(lines[k])} ::
               0 <= k < |lines| ==> Strip(lines[k]) == "* " + items[k] && NoInlineMarkup(items[k])
    ensures var r := Document(lines, md5);
            && |r| == |lines| + 1
            && r[0] == "<ol>\n" + ListItem(items[0])
            && (forall k :: 1 <= k < |lines| ==> r[k] == ListItem(items[k]))
            && r[|lines|] == "</ol>"
  {
    var convert := Convert(md5);
    var b := Flags(false, true, false);
    var first := "<ol>\n" + ListItem(items[0]);
    var next := seq(|lines|, k requires 0 <= k < |lines| => ListItem(items[k]));
    assert Strip(lines[0]) == "* " + items[0];
    OrderedOpens(lines[0], items[0], md5);
    forall k | 1 <= k < |lines|
      ensures Continues(convert, b, lines[k], next[k])
    {
      assert Strip(lines[k]) == "* " + items[k];
      OrderedContinues(lines[k], items[k], md5);
    }
    RunCloseTags();
    DocumentOfRun(lines, md5, b, first, next);
  }

  /** A last line that is blank once stripped closes whatever was open, so
      the end of the document appends no closing tag. */
  lemma BlankLastLineClosesAll(lines: seq<string>, md5: string -> string)
    requires |lines| > 0 && Strip(lines[|lines| - 1]) == ""
    ensures FoldFrom(Convert(md5), AllClear, lines).1 == AllClear
    ensures Document(lines, md5) == FoldFrom(Convert(md5), AllClear, lines).0
  {
    var prev := FoldFrom(Convert(md5), AllClear, lines[..|lines| - 1]);
    assert InlineRewrite("", md5) == "";
    BlankLine(prev.1);
    assert MarkdownToHtmlLine("", prev.1, md5).1 == AllClear;
    assert LineOut(Convert(md5), prev.1, lines[|lines| - 1]).1 == AllClear;
  }

  /** The main block's conversion loop: `html_content` and the text written
      to the output file, `"\n".join(html_content)`. */
  method ConvertLines(lines: seq<string>, md5: string -> string) returns (htmlContent: seq<string>, html: string)
    ensures htmlContent == Document(lines, md5)
    ensures html == Join(htmlContent, "\n")
  {
    htmlContent := [];
    var inUnorderedList, inOrderedList, inParagraph := false, false, false;
    for i := 0 to |lines|
      invariant (htmlContent, Flags(inUnorderedList, inOrderedList, inParagraph))
                == FoldFrom(Convert(md5), AllClear, lines[..i])
    {
      FoldSnoc(Convert(md5), AllClear, lines, i);
      var st := Flags(inUnorderedList, inOrderedList, inParagraph);
      var r := MarkdownToHtmlLine(Strip(lines[i]), st, md5);
      var htmlLine := r.0;
      ghost var out := LineOut(Convert(md5), st, lines[i]);
      assert Convert(md5)(Strip(lines[i]), st) == r;
      assert out == (if htmlLine != "" then [htmlLine] else [], r.1);
      inUnorderedList, inOrderedList, inParagraph := r.1.inUnorderedList, r.1.inOrderedList, r.1.inParagraph;
      assert Flags(inUnorderedList, inOrderedList, inParagraph) == out.1;
      if htmlLine != "" {
        htmlContent := htmlContent + [htmlLine];
      } else {
        assert htmlContent + out.0 == htmlContent;
      }
    }
    assert lines[..|lines|] == lines;
    ghost var body, st := htmlContent, Flags(inUnorderedList, inOrderedList, inParagraph);
    ghost var ul: seq<string> := if inUnorderedList then ["</ul>"] else [];
    ghost var ol: seq<string> := if inOrderedList then ["</ol>"] else [];
    ghost var p: seq<string> := if inParagraph then ["</p>"] else [];
    if inUnorderedList {
      htmlContent := htmlContent + ["</ul>"];
    }
    assert htmlContent == body + ul;
    if inOrderedList {
      htmlContent := htmlContent + ["</ol>"];
    }
    ConcatAssoc(body, ul, ol);
    assert htmlContent == body + (ul + ol);
    if inParagraph {
      htmlContent := htmlContent + ["</p>"];
    }
    ConcatAssoc(body, ul + ol, p);
    assert htmlContent == body + ClosingTags(st);
    html := Join(htmlContent, "\n");
  }
}
