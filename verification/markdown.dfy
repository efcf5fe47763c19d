/**
 * The line transformer of markdown2html.py: `remove_c`, the four inline
 * rewrites and the block state machine of `markdown_to_html_line`.
 *
 * The MD5 digest (`md5_hash`, a call into hashlib) is not modelled; it is the
 * parameter `md5`, and the model states only where its result is placed.
 */
module Markdown {
  import opened PyStr
  import opened Scanner

  // ---------------------------------------------------------------- remove_c

  predicate IsC(ch: char)
  {
    ch == 'c' || ch == 'C'
  }

  /** `remove_c`: every `c` and `C` deleted, every other character kept. */
  function RemoveC(content: string): (r: string)
    ensures forall k :: 0 <= k < |r| ==> !IsC(r[k])
    ensures |r| <= |content|
    decreases |content|
  {
    if content == [] then []
    else (if IsC(content[0]) then [] else [content[0]]) + RemoveC(content[1..])
  }

  /** Occurrences of `ch` in a concatenation add up. */
  lemma CountConcat(a: string, b: string, ch: char)
    ensures multiset(a + b)[ch] == multiset(a)[ch] + multiset(b)[ch]
  {
  }

  /** Every character other than `c` and `C` keeps its number of occurrences. */
  lemma {:induction false} RemoveCKeepsOthers(content: string, ch: char)
    requires !IsC(ch)
    ensures multiset(RemoveC(content))[ch] == multiset(content)[ch]
    decreases |content|
  {
    if content != [] {
      var x, t := content[0], content[1..];
      assert content == [x] + t;
      CountConcat([x], t, ch);
      RemoveCKeepsOthers(t, ch);
      var h := if IsC(x) then [] else [x];
      var r := RemoveC(t);
      assert RemoveC(content) == h + r;
      CountConcat(h, r, ch);
      if IsC(x) {
        assert x != ch;
        assert multiset([x])[ch] == 0;
      }
    }
  }

  /** Deletion works piecewise, so the kept characters stay in their order. */
  lemma {:induction false} RemoveCAppend(a: string, b: string)
    ensures RemoveC(a + b) == RemoveC(a) + RemoveC(b)
    decreases |a|
  {
    if a != [] {
      var ab := a + b;
      assert ab[0] == a[0] && ab[1..] == a[1..] + b;
      var h := if IsC(a[0]) then [] else [a[0]];
      assert RemoveC(ab) == h + RemoveC(a[1..] + b);
      RemoveCAppend(a[1..], b);
      assert RemoveC(a) == h + RemoveC(a[1..]);
      ConcatAssoc(h, RemoveC(a[1..]), RemoveC(b));
    } else {
      assert a + b == b;
    }
  }

  /** A string without `c` or `C` is left as it is. */
  lemma {:induction false} RemoveCKeepsClean(s: string)
    requires forall k :: 0 <= k < |s| ==> !IsC(s[k])
    ensures RemoveC(s) == s
    decreases |s|
  {
    if s != [] {
      RemoveCKeepsClean(s[1..]);
    }
  }

  /** `remove_c` is idempotent. */
  lemma RemoveCIdempotent(s: string)
    ensures RemoveC(RemoveC(s)) == RemoveC(s)
  {
    RemoveCKeepsClean(RemoveC(s));
  }

  // ---------------------------------------------------------- inline rewrites

  function BoldTag(x: string): string
  {
    "<b>" + x + "</b>"
  }

  function EmTag(x: string): string
  {
    "<em>" + x + "</em>"
  }

  /** `**x**` becomes `<b>x</b>`. */
  function Bold(line: string): string
  {
    Rewrite(line, Delim('*', '*'), Delim('*', '*'), BoldTag)
  }

  /** `__x__` becomes `<em>x</em>`. */
  function Emphasis(line: string): string
  {
    Rewrite(line, Delim('_', '_'), Delim('_', '_'), EmTag)
  }

  /** `[[x]]` becomes the MD5 hex digest of `x`. */
  function Digest(line: string, md5: string -> string): string
  {
    Rewrite(line, Delim('[', '['), Delim(']', ']'), md5)
  }

  /** `((x))` becomes `x` without its `c` and `C`. */
  function StripC(line: string): string
  {
    Rewrite(line, Delim('(', '('), Delim(')', ')'), RemoveC)
  }

  /** The four substitutions, each applied to the result of the one before. */
  function InlineRewrite(line: string, md5: string -> string): string
  {
    StripC(Digest(Emphasis(Bold(line)), md5))
  }

  /** `x` holds neither `ch` nor a newline. */
  predicate Free(x: string, ch: char)
  {
    forall n :: 0 <= n < |x| ==> x[n] != ch && x[n] != '\n'
  }

  lemma FreeConcat(a: string, b: string, ch: char)
    requires Free(a, ch) && Free(b, ch)
    ensures Free(a + b, ch)
  {
    assert forall n :: |a| <= n < |a + b| ==> (a + b)[n] == b[n - |a|];
  }

  /** A bold span `**x**` is replaced by `<b>x</b>` and the rest is rewritten on. */
  lemma BoldSpan(x: string, rest: string)
    requires Free(x, '*')
    ensures Bold("**" + x + "**" + rest) == "<b>" + x + "</b>" + Bold(rest)
  {
    RewriteSpan(Delim('*', '*'), Delim('*', '*'), BoldTag, x, rest);
  }

  /** An emphasis span `__x__` is replaced by `<em>x</em>`. */
  lemma EmphasisSpan(x: string, rest: string)
    requires Free(x, '_')
    ensures Emphasis("__" + x + "__" + rest) == "<em>" + x + "</em>" + Emphasis(rest)
  {
    RewriteSpan(Delim('_', '_'), Delim('_', '_'), EmTag, x, rest);
  }

  /** A span `[[x]]` is replaced by the digest of `x`. */
  lemma DigestSpan(x: string, rest: string, md5: string -> string)
    requires Free(x, ']')
    ensures Digest("[[" + x + "]]" + rest, md5) == md5(x) + Digest(rest, md5)
  {
    RewriteSpan(Delim('[', '['), Delim(']', ']'), md5, x, rest);
  }

  /** A span `((x))` is replaced by `x` without its `c` and `C`. */
  lemma StripCSpan(x: string, rest: string)
    requires Free(x, ')')
    ensures StripC("((" + x + "))" + rest) == RemoveC(x) + StripC(rest)
  {
    RewriteSpan(Delim('(', '('), Delim(')', ')'), RemoveC, x, rest);
  }

  /** No character of `line` can open an inline span. */
  predicate NoInlineMarkup(line: string)
  {
    forall n :: 0 <= n < |line| ==> line[n] !in "*_[("
  }

  /** A line without `*`, `_`, `[` or `(` passes the inline rewrites unchanged:
      only an opening delimiter can start a replacement. */
  lemma PlainLineUnchanged(line: string, md5: string -> string)
    requires NoInlineMarkup(line)
    ensures InlineRewrite(line, md5) == line
  {
    assert line + [] == line;
    RewriteLiteralPrefix(line, [], Delim('*', '*'), Delim('*', '*'), BoldTag);
    RewriteLiteralPrefix(line, [], Delim('_', '_'), Delim('_', '_'), EmTag);
    RewriteLiteralPrefix(line, [], Delim('[', '['), Delim(']', ']'), md5);
    RewriteLiteralPrefix(line, [], Delim('(', '('), Delim(')', ')'), RemoveC);
  }

  /** Bold markup inside a digest span is rewritten first. */
  lemma BoldInsideBrackets(x: string)
    requires Free(x, '*')
    ensures Bold("[[**" + x + "**]]") == "[[" + ("<b>" + x + "</b>") + "]]"
  {
    var inner := "**" + x + "**" + "]]";
    assert "[[**" + x + "**]]" == "[[" + inner;
    assert "]]" + [] == "]]";
    RewriteLiteralPrefix("]]", [], Delim('*', '*'), Delim('*', '*'), BoldTag);
    BoldSpan(x, "]]");
    RewriteLiteralPrefix("[[", inner, Delim('*', '*'), Delim('*', '*'), BoldTag);
    ConcatAssoc("[[", "<b>" + x + "</b>", "]]");
  }

  /** The rewrites run in sequence, so a later one sees the output of an
      earlier one: `[[**x**]]` is digested as `<b>x</b>`, not as `**x**`. */
  lemma DigestSeesBoldMarkup(x: string, md5: string -> string)
    requires Free(x, '*') && Free(x, '_') && Free(x, ']')
    ensures Digest(Emphasis(Bold("[[**" + x + "**]]")), md5) == md5("<b>" + x + "</b>")
  {
    var b := "<b>" + x + "</b>";
    var y := "[[" + b + "]]";
    assert Free("<b>", '_') && Free("</b>", '_') && Free("[[", '_') && Free("]]", '_');
    assert Free("<b>", ']') && Free("</b>", ']');
    FreeConcat("<b>", x, '_');
    FreeConcat("<b>" + x, "</b>", '_');
    FreeConcat("[[", b, '_');
    FreeConcat("[[" + b, "]]", '_');
    FreeConcat("<b>", x, ']');
    FreeConcat("<b>" + x, "</b>", ']');
    BoldInsideBrackets(x);
    assert y + [] == y;
    RewriteLiteralPrefix(y, [], Delim('_', '_'), Delim('_', '_'), EmTag);
    DigestSpan(b, [], md5);
    assert md5(b) + [] == md5(b);
  }

  // ------------------------------------------------------------------ headings

  /** `'#' * n` */
  function Hashes(n: nat): (r: string)
    ensures |r| == n && forall k :: 0 <= k < n ==> r[k] == '#'
  {
    if n == 0 then "" else "#" + Hashes(n - 1)
  }

  /** The line starts with the level-`level` heading marker, `'#' * level + ' '`. */
  predicate HeadingMarker(line: string, level: nat)
  {
    StartsWith(line, Hashes(level) + " ")
  }

  /** A line starts with at most one heading marker: the character after the
      `#`s of the shorter one would have to be both a space and a `#`. */
  lemma HeadingMarkerUnique(line: string, l1: nat, l2: nat)
    requires HeadingMarker(line, l1) && HeadingMarker(line, l2)
    ensures l1 == l2
  {
    if l1 < l2 {
      MarkerChars(line, l1, l1);
      MarkerChars(line, l2, l1);
      assert false;
    } else if l2 < l1 {
      MarkerChars(line, l2, l2);
      MarkerChars(line, l1, l2);
      assert false;
    }
  }

  /** Under a marker `'#' * level + ' '`, the first `level` characters are
      `#` and the next is a space. */
  lemma MarkerChars(line: string, level: nat, k: nat)
    requires StartsWith(line, Hashes(level) + " ") && k <= level
    ensures line[k] == if k < level then '#' else ' '
  {
    assert line[k] == line[..level + 1][k] == (Hashes(level) + " ")[k];
  }

  /** The loop `for level in range(top, 0, -1)` of markdown_to_html_line: the
      largest level not above `top` whose marker starts the line, 0 if none. */
  function HeadingLevelFrom(line: string, top: nat): (r: nat)
    ensures r <= top
    ensures r > 0 ==> HeadingMarker(line, r)
    ensures forall l :: r < l <= top ==> !HeadingMarker(line, l)
    decreases top
  {
    if top == 0 then 0
    else if HeadingMarker(line, top) then top
    else HeadingLevelFrom(line, top - 1)
  }

  /** The `heading_levels` template for `level`, filled with `text`. */
  function HeadingHtml(level: nat, text: string): string
    requires 1 <= level <= 6
  {
    var d := [('0' as int + level) as char];
    "<h" + d + ">" + text + "</h" + d + ">"
  }

  /** The `<li>` element of a list line's remainder, stripped. */
  function ListItem(rest: string): string
  {
    "<li>" + Strip(rest) + "</li>"
  }

  // --------------------------------------------------------------- block state

  /** The flags `in_unordered_list`, `in_ordered_list`, `in_paragraph`. */
  datatype Flags = Flags(inUnorderedList: bool, inOrderedList: bool, inParagraph: bool)

  const AllClear := Flags(false, false, false)

  /** The scan-state invariant: at most one block is open. */
  predicate AtMostOne(st: Flags)
  {
    && (st.inUnorderedList ==> !st.inOrderedList && !st.inParagraph)
    && (st.inOrderedList ==> !st.inParagraph)
  }

  /** `markdown_to_html_line`: one line (already stripped by the caller) and the
      three flags in, one HTML fragment (possibly empty) and the flags out.
      The inline rewrites come first; the block rules then see their result. */
  function MarkdownToHtmlLine(line: string, st: Flags, md5: string -> string): (r: (string, Flags))
    ensures AtMostOne(r.1)
    ensures r.0 == "" <==> InlineRewrite(line, md5) == "" && st == AllClear
  {
    BlockRules(InlineRewrite(line, md5), st)
  }

  /** The block rules of markdown_to_html_line, applied to the rewritten line. */
  function BlockRules(line: string, st: Flags): (r: (string, Flags))
    ensures AtMostOne(r.1)
    ensures r.0 == "" <==> line == "" && st == AllClear
  {
    var level := HeadingLevelFrom(line, 6);
    if level > 0 then
      (HeadingHtml(level, Strip(line[level + 1..])), AllClear)
    else if StartsWith(line, "- ") then
      var item := ListItem(line[2..]);
      if !st.inUnorderedList then ("<ul>\n" + item, Flags(true, false, false))
      else (item, Flags(true, false, false))
    else if StartsWith(line, "* ") then
      var item := ListItem(line[2..]);
      if !st.inOrderedList then ("<ol>\n" + item, Flags(false, true, false))
      else (item, Flags(false, true, false))
    else if line == "" then
      if st.inUnorderedList then ("</ul>", AllClear)
      else if st.inOrderedList then ("</ol>", AllClear)
      else if st.inParagraph then ("</p>", AllClear)
      else ("", AllClear)
    else if !st.inParagraph then ("<p>\n    " + line, Flags(false, false, true))
    else ("    <br />\n    " + line, Flags(false, false, true))
  }

  // ---------------------------------------------- properties of the block rules

  /** A line that starts with `L` `#`s and a space (1 <= L <= 6) becomes an
      `<hL>` heading of the stripped remainder, and leaves no block open. */
  lemma HeadingLine(line: string, st: Flags, level: nat)
    requires 1 <= level <= 6
    requires HeadingMarker(line, level)
    ensures BlockRules(line, st) == (HeadingHtml(level, Strip(line[level + 1..])), AllClear)
  {
    var found := HeadingLevelFrom(line, 6);
    if found != level && found > 0 {
      HeadingMarkerUnique(line, found, level);
    }
  }

  /** Seven or more `#`s before the space are no heading marker: such a line
      falls through to the paragraph rule. */
  lemma TooDeepHeadingIsText(line: string, st: Flags, n: nat)
    requires n >= 7
    requires StartsWith(line, Hashes(n) + " ")
    ensures BlockRules(line, st) ==
              ((if st.inParagraph then "    <br />\n    " else "<p>\n    ") + line, Flags(false, false, true))
  {
    forall level | 1 <= level <= 6 ensures !HeadingMarker(line, level) {
      MarkerChars(line, n, level);
    }
    MarkerChars(line, n, 0);
    assert line[0] == '#';
    assert line[..2][0] == '#';
    TextLine(line, st);
  }

  /** A line that does not start with `#` has no heading marker. */
  lemma NoHashNoHeading(line: string)
    requires line == [] || line[0] != '#'
    ensures HeadingLevelFrom(line, 6) == 0
  {
    var found := HeadingLevelFrom(line, 6);
    if found > 0 {
      MarkerChars(line, found, 0);
      assert false;
    }
  }

  /** `- x` is an unordered item `<li>strip(x)</li>`, preceded by `<ul>` and a
      newline exactly when no unordered list was open; only that list is open after. */
  lemma UnorderedItemLine(line: string, st: Flags)
    requires StartsWith(line, "- ")
    ensures BlockRules(line, st) ==
              ((if st.inUnorderedList then "" else "<ul>\n") + ListItem(line[2..]), Flags(true, false, false))
  {
    assert line[0] == line[..2][0] == '-';
    NoHashNoHeading(line);
    assert "" + ListItem(line[2..]) == ListItem(line[2..]);
  }

  /** `* x` is an ordered item `<li>strip(x)</li>`, preceded by `<ol>` and a
      newline exactly when no ordered list was open; only that list is open after. */
  lemma OrderedItemLine(line: string, st: Flags)
    requires StartsWith(line, "* ")
    ensures BlockRules(line, st) ==
              ((if st.inOrderedList then "" else "<ol>\n") + ListItem(line[2..]), Flags(false, true, false))
  {
    assert line[0] == line[..2][0] == '*';
    NoHashNoHeading(line);
    assert !StartsWith(line, "- ");
    assert "" + ListItem(line[2..]) == ListItem(line[2..]);
  }

  /** An empty line closes the first open block in the order unordered list,
      ordered list, paragraph, or yields the empty fragment; no block is open after. */
  lemma BlankLine(st: Flags)
    ensures BlockRules("", st) ==
              (if st.inUnorderedList then "</ul>"
               else if st.inOrderedList then "</ol>"
               else if st.inParagraph then "</p>"
               else "", AllClear)
  {
    NoHashNoHeading("");
  }

  /** Any other line is paragraph text: it opens a paragraph, or continues the
      open one after a line break; no list is closed, and only the paragraph is open after. */
  lemma TextLine(line: string, st: Flags)
    requires line != ""
    requires forall level :: 1 <= level <= 6 ==> !HeadingMarker(line, level)
    requires !StartsWith(line, "- ") && !StartsWith(line, "* ")
    ensures BlockRules(line, st) ==
              ((if st.inParagraph then "    <br />\n    " else "<p>\n    ") + line, Flags(false, false, true))
  {
  }

  /** Paragraph text none of the rules treats specially: not empty, not
      starting with `#` or `-`, and no `*`, `_`, `[` or `(` anywhere. */
  predicate PlainText(line: string)
  {
    line != "" && line[0] !in "#-" && NoInlineMarkup(line)
  }

  /** Plain text is paragraph text of `markdown_to_html_line`: no substitution
      touches it, and it opens a paragraph or continues the open one. */
  lemma PlainTextLine(line: string, st: Flags, md5: string -> string)
    requires PlainText(line)
    ensures MarkdownToHtmlLine(line, st, md5) ==
              ((if st.inParagraph then "    <br />\n    " else "<p>\n    ") + line, Flags(false, false, true))
  {
    PlainLineUnchanged(line, md5);
    NoHashNoHeading(line);
    assert !StartsWith(line, "- ") by { if |line| >= 2 { assert line[..2][0] == line[0]; } }
    assert !StartsWith(line, "* ") by { if |line| >= 2 { assert line[..2][0] == line[0] != '*'; } }
    TextLine(line, st);
  }

  /** `- x` with no `*`, `_`, `[` or `(` in `x` is an unordered list item of
      `markdown_to_html_line`: `<ul>` and a newline come first exactly when no
      unordered list was open. */
  lemma PlainUnorderedItem(x: string, st: Flags, md5: string -> string)
    requires NoInlineMarkup(x)
    ensures MarkdownToHtmlLine("- " + x, st, md5) ==
              ((if st.inUnorderedList then "" else "<ul>\n") + ListItem(x), Flags(true, false, false))
  {
    var line := "- " + x;
    assert forall n :: 2 <= n < |line| ==> line[n] == x[n - 2];
    PlainLineUnchanged(line, md5);
    assert line[..2] == "- " && line[2..] == x;
    UnorderedItemLine(line, st);
  }

  /** The ordered-list marker `* ` is no bold span: its `*` is followed by a
      space, so the bold substitution leaves `* x` alone when `x` has no `*`. */
  lemma BoldSkipsOrderedMarker(x: string)
    requires forall n :: 0 <= n < |x| ==> x[n] != '*'
    ensures Bold("* " + x) == "* " + x
  {
    var s := "* " + x;
    var o := Delim('*', '*');
    assert s[1] == ' ';
    assert !OccursAt(s, o, 0);
    RewriteSkip(s, o, o, BoldTag);
    var t := " " + x;
    assert s[1..] == t && s == [s[0]] + t;
    assert t + [] == t;
    RewriteLiteralPrefix(t, [], o, o, BoldTag);
  }

  /** `* x` with no `*`, `_`, `[` or `(` in `x` is an ordered list item of
      `markdown_to_html_line`: `<ol>` and a newline come first exactly when no
      ordered list was open. */
  lemma PlainOrderedItem(x: string, st: Flags, md5: string -> string)
    requires NoInlineMarkup(x)
    ensures MarkdownToHtmlLine("* " + x, st, md5) ==
              ((if st.inOrderedList then "" else "<ol>\n") + ListItem(x), Flags(false, true, false))
  {
    var line := "* " + x;
    assert forall n :: 2 <= n < |line| ==> line[n] == x[n - 2];
    assert forall n :: 0 <= n < |line| ==> line[n] !in "_[(";
    BoldSkipsOrderedMarker(x);
    assert line + [] == line;
    RewriteLiteralPrefix(line, [], Delim('_', '_'), Delim('_', '_'), EmTag);
    RewriteLiteralPrefix(line, [], Delim('[', '['), Delim(']', ']'), md5);
    RewriteLiteralPrefix(line, [], Delim('(', '('), Delim(')', ')'), RemoveC);
    assert InlineRewrite(line, md5) == line;
    assert line[..2] == "* " && line[2..] == x;
    OrderedItemLine(line, st);
  }

  // ------------------------------------------------- the block-variant view

  /** The three flags under their invariant, as one value. */
  datatype Block = NoBlock | UnorderedList | OrderedList | Paragraph

  function FlagsOf(b: Block): (st: Flags)
    ensures AtMostOne(st)
    ensures st == AllClear <==> b == NoBlock
  {
    match b
    case NoBlock => AllClear
    case UnorderedList => Flags(true, false, false)
    case OrderedList => Flags(false, true, false)
    case Paragraph => Flags(false, false, true)
  }

  /** The open block, read from the flags in the priority the blank-line rule
      and the end-of-document code use: unordered list, ordered list, paragraph. */
  function BlockOf(st: Flags): Block
  {
    if st.inUnorderedList then UnorderedList
    else if st.inOrderedList then OrderedList
    else if st.inParagraph then Paragraph
    else NoBlock
  }

  /** Blocks and flags satisfying the invariant are in one-to-one correspondence. */
  lemma BlockFlagsRoundTrip(b: Block, st: Flags)
    ensures BlockOf(FlagsOf(b)) == b
    ensures AtMostOne(st) <==> FlagsOf(BlockOf(st)) == st
  {
  }

  /** The tag that closes block `b`, empty when none is open. */
  function CloseTag(b: Block): string
  {
    match b
    case NoBlock => ""
    case UnorderedList => "</ul>"
    case OrderedList => "</ol>"
    case Paragraph => "</p>"
  }

  /** The block rules over a single block state instead of three flags. */
  function BlockStep(line: string, b: Block): (r: (string, Block))
    ensures r.0 == "" <==> line == "" && b == NoBlock
  {
    var level := HeadingLevelFrom(line, 6);
    if level > 0 then (HeadingHtml(level, Strip(line[level + 1..])), NoBlock)
    else if StartsWith(line, "- ") then
      (if b == UnorderedList then ListItem(line[2..]) else "<ul>\n" + ListItem(line[2..]), UnorderedList)
    else if StartsWith(line, "* ") then
      (if b == OrderedList then ListItem(line[2..]) else "<ol>\n" + ListItem(line[2..]), OrderedList)
    else if line == "" then (CloseTag(b), NoBlock)
    else ((if b == Paragraph then "    <br />\n    " else "<p>\n    ") + line, Paragraph)
  }

  /** On states that satisfy the invariant, the three-flag rules and the
      block rules produce the same fragment and the same next state. */
  lemma BlockStepMatchesFlags(line: string, b: Block)
    ensures var r := BlockRules(line, FlagsOf(b));
            var s := BlockStep(line, b);
            r.0 == s.0 && r.1 == FlagsOf(s.1)
  {
    var st := FlagsOf(b);
    assert st.inUnorderedList <==> b == UnorderedList;
    assert st.inOrderedList <==> b == OrderedList;
    assert st.inParagraph <==> b == Paragraph;
    var level := HeadingLevelFrom(line, 6);
    if level > 0 {
      HeadingLine(line, st, level);
    } else if StartsWith(line, "- ") {
      UnorderedItemLine(line, st);
    } else if StartsWith(line, "* ") {
      OrderedItemLine(line, st);
    } else if line == "" {
      BlankLine(st);
      match b
      case NoBlock =>
      case UnorderedList =>
      case OrderedList =>
      case Paragraph =>
    } else {
      TextLine(line, st);
    }
  }
}
