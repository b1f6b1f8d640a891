/**
 * The preview renderer of components/MarkdownPreview.tsx: the content is split on '\n' and
 * each line is classified on its own, first match winning, into a heading, a one-item list,
 * a break or a paragraph; every payload goes through `createMarkup`.
 */
module MarkdownPreview {
  import opened Types
  import opened JsString
  import opened InlineMarkup

  /** One rendered line: the element it becomes and the markup placed inside it. */
  datatype Block =
    | H3(html: string)
    | H2(html: string)
    | H1(html: string)
    | ListItem(html: string)
    | Break
    | Para(html: string)

  /** What the component shows: the placeholder for empty content, or one block per line. */
  datatype Preview = Placeholder | Blocks(blocks: seq<Block>)

  // ---------------------------------------------------------------------------
  // The list-item prefix `^\s*[-*] `

  predicate IsListBullet(c: char) {
    c == '-' || c == '*'
  }

  /** The regex `^\s*[-*] ` matches exactly `line[..n]`. */
  ghost predicate ListPrefixAt(line: string, n: int) {
    2 <= n <= |line| && AllSpace(line[..n - 2]) && IsListBullet(line[n - 2]) && line[n - 1] == ' '
  }

  /** The regex `^\s*[-*] ` matches somewhere at the start of `line`. */
  ghost predicate IsListLine(line: string) {
    exists n :: ListPrefixAt(line, n)
  }

  /** A bullet is not white space, so the `\s*` of any match is the whole leading white space. */
  lemma ListPrefixFollowsLeadingSpace(line: string)
    ensures forall n :: ListPrefixAt(line, n) ==> n == LeadingSpace(line) + 2
  {
    var k := LeadingSpace(line);
    forall n | 2 <= n <= |line|
      ensures ListPrefixAt(line, n) ==> n == k + 2
    {
      if n - 2 < k {
        assert line[..k][n - 2] == line[n - 2];
      } else if n - 2 > k {
        assert line[..n - 2][k] == line[k];
      }
    }
  }

  /**
   * Where `line.replace(/^\s*[-*] /, '')` cuts: the length of the one match of the prefix,
   * when there is one. The match is unique.
   */
  function ListMarker(line: string): (r: Option<nat>)
    ensures r.Some? ==> ListPrefixAt(line, r.value)
    ensures r.Some? ==> forall n :: ListPrefixAt(line, n) ==> n == r.value
    ensures r.None? <==> !IsListLine(line)
  {
    ListPrefixFollowsLeadingSpace(line);
    var k := LeadingSpace(line);
    if k + 1 < |line| && IsListBullet(line[k]) && line[k + 1] == ' ' then
      assert line[..k + 2][..k] == line[..k];
      assert ListPrefixAt(line, k + 2);
      Some(k + 2)
    else
      None
  }

  // ---------------------------------------------------------------------------
  // Classifying one line

  /** The element one line becomes: the four tests in order, first match winning. */
  function ClassifyLine(line: string): Block {
    if "### " <= line then H3(CreateMarkup(line[4..]))
    else if "## " <= line then H2(CreateMarkup(line[3..]))
    else if "# " <= line then H1(CreateMarkup(line[2..]))
    else match ListMarker(line)
      case Some(n) => ListItem(CreateMarkup(line[n..]))
      case None =>
        if Trim(line) == [] then Break
        else Para(CreateMarkup(line))
  }

  /**
   * What each line becomes. The four tests are checked in order, but no line passes two of
   * them: a heading starts with `#`, which is neither white space nor a bullet, and a blank
   * line has neither. So each kind is characterised by its own test alone, and the payload
   * is the line without the prefix that test matched.
   */
  lemma LineKinds(line: string)
    ensures ClassifyLine(line).H3? <==> "### " <= line
    ensures ClassifyLine(line).H2? <==> "## " <= line
    ensures ClassifyLine(line).H1? <==> "# " <= line
    ensures ClassifyLine(line).ListItem? <==> IsListLine(line)
    ensures ClassifyLine(line).Break? <==> AllSpace(line)
    ensures ClassifyLine(line).Para? <==>
              !("# " <= line || "## " <= line || "### " <= line || IsListLine(line) || AllSpace(line))
    ensures ClassifyLine(line).H3? ==> ClassifyLine(line).html == CreateMarkup(line[4..])
    ensures ClassifyLine(line).H2? ==> ClassifyLine(line).html == CreateMarkup(line[3..])
    ensures ClassifyLine(line).H1? ==> ClassifyLine(line).html == CreateMarkup(line[2..])
    ensures ClassifyLine(line).ListItem? ==>
              exists n :: ListPrefixAt(line, n) && ClassifyLine(line).html == CreateMarkup(line[n..])
    ensures ClassifyLine(line).Para? ==> ClassifyLine(line).html == CreateMarkup(line)
  {
    HeadingIsNotListOrBlank(line);
  }

  /** The tests are exclusive: heading prefixes differ at their first space, and `#` starts no list or blank line. */
  lemma HeadingIsNotListOrBlank(line: string)
    ensures "### " <= line ==> !("## " <= line) && !("# " <= line)
    ensures "## " <= line ==> !("# " <= line)
    ensures "# " <= line || "## " <= line || "### " <= line ==> !IsListLine(line) && !AllSpace(line)
    ensures IsListLine(line) ==> !AllSpace(line)
  {
    ListPrefixFollowsLeadingSpace(line);
    assert "### " <= line ==> line[1] == '#' && line[2] == '#';
    assert "## " <= line ==> line[1] == '#' && line[2] == ' ';
    assert "# " <= line ==> line[1] == ' ';
    if line != [] && line[0] == '#' {
      assert LeadingSpace(line) == 0;
    }
    if m :| ListPrefixAt(line, m) {
      assert !IsSpace(line[m - 2]);
    }
  }

  // ---------------------------------------------------------------------------
  // Rendering the content

  /** JavaScript's `Array.prototype.map`: `f` applied to each element, in order. */
  function Map<A, B>(f: A -> B, xs: seq<A>): (ys: seq<B>)
    ensures |ys| == |xs|
    ensures forall i :: 0 <= i < |xs| ==> ys[i] == f(xs[i])
  {
    seq(|xs|, i requires 0 <= i < |xs| => f(xs[i]))
  }

  /** The blocks of every line of `content` (`content.split('\n').map(...)`). */
  function RenderLines(content: string): (blocks: seq<Block>)
    ensures |blocks| == Count(content, '\n') + 1
  {
    Map(ClassifyLine, Split(content, '\n'))
  }

  /** The component: the placeholder when `content` is empty, the lines' blocks otherwise. */
  function Render(content: string): (p: Preview)
    ensures p.Placeholder? <==> content == ""
    ensures p.Blocks? ==> |p.blocks| == Count(content, '\n') + 1 && p.blocks != []
    ensures p.Blocks? ==> p.blocks == RenderLines(content)
  {
    if content == "" then Placeholder else Blocks(RenderLines(content))
  }

  /** Lines render independently: the blocks of `a + "\n" + b` are those of `a` then those of `b`. */
  lemma RenderLinesAround(a: string, b: string)
    ensures RenderLines(a + "\n" + b) == RenderLines(a) + RenderLines(b)
  {
    SplitAround(a, b, '\n');
    MapConcat(ClassifyLine, Split(a, '\n'), Split(b, '\n'));
  }

  lemma MapConcat<A, B>(f: A -> B, xs: seq<A>, ys: seq<A>)
    ensures Map(f, xs + ys) == Map(f, xs) + Map(f, ys)
  {
    forall i | 0 <= i < |xs + ys|
      ensures Map(f, xs + ys)[i] == (Map(f, xs) + Map(f, ys))[i]
    {
      if i >= |xs| {
        assert (xs + ys)[i] == ys[i - |xs|];
      }
    }
  }

  /** A line without '\n' renders as the one block its classification gives. */
  lemma RenderOneLine(line: string)
    requires '\n' !in line
    ensures RenderLines(line) == [ClassifyLine(line)]
  {
    SplitNoSeparator(line, '\n');
  }

  /** Lines joined with '\n' render as their classifications, one block per line in order. */
  lemma RenderJoinedLines(lines: seq<string>)
    requires lines != []
    requires forall i :: 0 <= i < |lines| ==> '\n' !in lines[i]
    ensures RenderLines(Join(lines, '\n')) == Map(ClassifyLine, lines)
  {
    SplitJoin(lines, '\n');
  }

  /** Every angle bracket of every rendered block belongs to an inserted tag. */
  lemma RenderedMarkupIsTagSafe(content: string)
    ensures forall b :: b in RenderLines(content) && !b.Break? ==> TagSafe(b.html)
  {
    forall b | b in RenderLines(content) && !b.Break?
      ensures TagSafe(b.html)
    {
      var lines := Split(content, '\n');
      var i :| 0 <= i < |lines| && b == ClassifyLine(lines[i]);
      var line := lines[i];
      LineKinds(line);
      if b.H3? {
        MarkupAngleBracketsAreTags(line[4..]);
      } else if b.H2? {
        MarkupAngleBracketsAreTags(line[3..]);
      } else if b.H1? {
        MarkupAngleBracketsAreTags(line[2..]);
      } else if b.ListItem? {
        var n :| ListPrefixAt(line, n) && b.html == CreateMarkup(line[n..]);
        MarkupAngleBracketsAreTags(line[n..]);
      } else {
        MarkupAngleBracketsAreTags(line);
      }
    }
  }

  // ---------------------------------------------------------------------------
  // Worked examples

  /** Four hashes are not a heading, and neither is a hash without its space. */
  lemma NotHeadings()
    ensures ClassifyLine("#### x") == Para(CreateMarkup("#### x"))
    ensures ClassifyLine("#x") == Para(CreateMarkup("#x"))
  {
    HeadingIsNotListOrBlank("#### x");
    HeadingIsNotListOrBlank("#x");
    assert "#### x"[1] == '#' && "#### x"[2] == '#' && "#### x"[3] == '#';
    assert !AllSpace("#### x") by { assert !IsSpace("#### x"[0]); }
    assert !("# " <= "#x") && !("## " <= "#x") && !("### " <= "#x");
    assert !AllSpace("#x") by { assert !IsSpace("#x"[0]); }
    ListPrefixFollowsLeadingSpace("#### x");
    ListPrefixFollowsLeadingSpace("#x");
  }

  /** Only one list prefix is removed: `- - x` is an item whose text is `- x`. */
  lemma OnePrefixRemoved()
    ensures ClassifyLine("- - x") == ListItem(CreateMarkup("- x"))
  {
    var line := "- - x";
    assert LeadingSpace(line) == 0;
    assert ListMarker(line) == Some(2);
    assert !("# " <= line) && !("## " <= line) && !("### " <= line);
    assert line[2..] == "- x";
  }
}
