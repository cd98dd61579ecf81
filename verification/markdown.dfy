/**
 * The rendering side of the pipeline: the table of contents derived from a post's raw
 * markdown, and the processed post that pairs it with the rendered HTML. The HTML
 * renderer itself (a chain of markdown-to-HTML plugins) is a parameter `render`.
 */
module Markdown {

  import opened Results
  import opened Js
  import opened HeadingScan
  import opened BlogTypes
  import opened BlogPosts

  // ---------------------------------------------------------------------------
  // Anchor slugs

  predicate IsSlugChar(c: char)
  {
    'a' <= c <= 'z' || '0' <= c <= '9'
  }

  /** A url fragment body: lower-case letters, digits and single hyphens. */
  predicate IsAnchorSlug(r: string)
  {
    && (forall i | 0 <= i < |r| :: IsSlugChar(r[i]) || r[i] == '-')
    && (forall i | 0 <= i < |r| - 1 :: !(r[i] == '-' && r[i + 1] == '-'))
  }

  /** The letters and digits of `t`, in order. */
  function SlugChars(t: string): string
  {
    if t == [] then [] else (if IsSlugChar(t[0]) then [t[0]] else []) + SlugChars(t[1..])
  }

  /** End of the run of characters outside `[a-z0-9]` that starts at `i`. */
  function NonSlugRunEnd(t: string, i: nat): (j: nat)
    requires i <= |t|
    ensures i <= j <= |t|
    ensures forall k | i <= k < j :: !IsSlugChar(t[k])
    ensures j < |t| ==> IsSlugChar(t[j])
    decreases |t| - i
  {
    if i < |t| && !IsSlugChar(t[i]) then NonSlugRunEnd(t, i + 1) else i
  }

  /** `t.replace(/[^a-z0-9]+/g, '-')`: each maximal run outside `[a-z0-9]` becomes one hyphen. */
  function CollapseRuns(t: string): (r: string)
    ensures |r| <= |t|
    ensures forall i | 0 <= i < |r| :: IsSlugChar(r[i]) || r[i] == '-'
    decreases |t|
  {
    if t == [] then []
    else if IsSlugChar(t[0]) then [t[0]] + CollapseRuns(t[1..])
    else "-" + CollapseRuns(t[NonSlugRunEnd(t, 0)..])
  }

  /**
   * The collapsed text is an anchor slug that keeps every letter and digit of the input
   * in order, and starts with a hyphen exactly when the input starts outside `[a-z0-9]`.
   */
  lemma {:induction false} CollapseRunsShape(t: string)
    ensures IsAnchorSlug(CollapseRuns(t))
    ensures SlugChars(CollapseRuns(t)) == SlugChars(t)
    ensures CollapseRuns(t) == [] <==> t == []
    ensures t != [] ==> (CollapseRuns(t)[0] == '-' <==> !IsSlugChar(t[0]))
    decreases |t|
  {
    if t == [] {
    } else if IsSlugChar(t[0]) {
      CollapseRunsShape(t[1..]);
      assert t == [t[0]] + t[1..];
      var r := CollapseRuns(t);
      assert r[1..] == CollapseRuns(t[1..]);
      assert SlugChars(r) == [t[0]] + SlugChars(r[1..]);
    } else {
      var k := NonSlugRunEnd(t, 0);
      CollapseRunsShape(t[k..]);
      SlugCharsSkipRun(t, k);
      var r := CollapseRuns(t);
      assert r[1..] == CollapseRuns(t[k..]);
      assert SlugChars(r) == SlugChars(r[1..]);
    }
  }

  lemma {:induction false} SlugCharsSkipRun(t: string, k: nat)
    requires k <= |t|
    requires forall i | 0 <= i < k :: !IsSlugChar(t[i])
    ensures SlugChars(t) == SlugChars(t[k..])
    decreases k
  {
    if k > 0 {
      SlugCharsSkipRun(t[1..], k - 1);
      assert t[1..][k - 1..] == t[k..];
    }
  }

  /** The anchor slug of a heading title: lower-case it, then collapse the other runs. */
  function Slugify(title: string): (r: string)
    ensures IsAnchorSlug(r)
    ensures SlugChars(r) == SlugChars(ToLowerAscii(title))
    ensures r == [] <==> title == []
  {
    CollapseRunsShape(ToLowerAscii(title));
    CollapseRuns(ToLowerAscii(title))
  }

  /** An anchor slug is left unchanged by collapsing. */
  lemma {:induction false} CollapseFixesSlugs(r: string)
    requires IsAnchorSlug(r)
    ensures CollapseRuns(r) == r
    decreases |r|
  {
    if r != [] {
      assert IsAnchorSlug(r[1..]);
      CollapseFixesSlugs(r[1..]);
      if !IsSlugChar(r[0]) {
        assert NonSlugRunEnd(r, 0) == 1;
      }
    }
  }

  /** Slugging is idempotent: the slug of a slug is itself. */
  lemma SlugifyIdempotent(title: string)
    ensures Slugify(Slugify(title)) == Slugify(title)
  {
    var r := Slugify(title);
    CollapseRunsShape(ToLowerAscii(title));
    assert ToLowerAscii(r) == r;
    CollapseFixesSlugs(r);
  }

  /** Leading and trailing hyphens are kept: `Hello, World!` becomes `hello-world-`. */
  lemma SlugifyKeepsEdgeHyphens(title: string)
    requires title == "Hello, World!"
    ensures Slugify(title) == "hello-world-"
  {
    LowerHelloWorld(title);
    CollapseWord("world", "!" + "");
    CollapseRun("!", "");
    CollapseRun(", ", "world" + ("!" + ""));
    CollapseWord("hello", ", " + ("world" + ("!" + "")));
  }

  lemma LowerHelloWorld(title: string)
    requires title == "Hello, World!"
    ensures ToLowerAscii(title) == "hello" + (", " + ("world" + ("!" + "")))
  {
  }

  lemma {:induction false} CollapseWord(w: string, t: string)
    requires forall i | 0 <= i < |w| :: IsSlugChar(w[i])
    ensures CollapseRuns(w + t) == w + CollapseRuns(t)
    decreases |w|
  {
    if w != [] {
      assert (w + t)[1..] == w[1..] + t;
      CollapseWord(w[1..], t);
      assert w == [w[0]] + w[1..];
    } else {
      assert w + t == t;
    }
  }

  lemma CollapseRun(u: string, t: string)
    requires u != [] && forall i | 0 <= i < |u| :: !IsSlugChar(u[i])
    requires t == [] || IsSlugChar(t[0])
    ensures CollapseRuns(u + t) == "-" + CollapseRuns(t)
  {
    NonSlugRunEndAt(u + t, 0, |u|);
    assert (u + t)[|u|..] == t;
  }

  lemma NonSlugRunEndAt(t: string, i: nat, j: nat)
    requires i <= j <= |t|
    requires forall k | i <= k < j :: !IsSlugChar(t[k])
    requires j == |t| || IsSlugChar(t[j])
    ensures NonSlugRunEnd(t, i) == j
  {
  }

  // ---------------------------------------------------------------------------
  // Table of contents

  /** `heading.match(/^#+/)?.[0].length || 1`. */
  function HeadingLevel(heading: string): nat
  {
    var c := HashRunEnd(heading, 0);
    if c == 0 then 1 else c
  }

  /** `heading.replace(/^#+\s+/, '')`. */
  function HeadingTitle(heading: string): string
  {
    var c := HashRunEnd(heading, 0);
    if c > 0 && c < |heading| && IsSpace(heading[c]) then heading[SpaceRunEnd(heading, c)..] else heading
  }

  /** The entry of one matched heading. */
  function TocEntry(heading: string): TocItem
  {
    var title := HeadingTitle(heading);
    TocItem(title, "#" + Slugify(title), HeadingLevel(heading), None)
  }

  /** The matched headings of the content, in document order. */
  function Headings(content: string): (hs: seq<string>)
    ensures |hs| == |Scan(content)|
    ensures forall i | 0 <= i < |hs| :: hs[i] == content[Scan(content)[i].start..Scan(content)[i].end]
  {
    var spans := Scan(content);
    seq(|spans|, i requires 0 <= i < |spans| => content[spans[i].start..spans[i].end])
  }

  /** `generateToc`: one flat entry per heading match, in document order. */
  function GenerateToc(content: string): (toc: TableOfContents)
    ensures |toc.items| == |Scan(content)|
    ensures forall i | 0 <= i < |toc.items| :: toc.items[i] == TocEntry(Headings(content)[i])
  {
    var hs := Headings(content);
    TableOfContents(seq(|hs|, i requires 0 <= i < |hs| => TocEntry(hs[i])))
  }

  /**
   * The entry of a match: its level is the number of leading `#` (1 to 3), its title is the
   * match without those and the whitespace after them and holds no line terminator, and its
   * url is `#` followed by an anchor slug.
   */
  lemma TocEntryShape(heading: string)
    requires IsHeadingMatch(heading)
    ensures var item := TocEntry(heading);
      && 1 <= item.level <= 3
      && item.level == HashRunEnd(heading, 0)
      && item.title == heading[SpaceRunEnd(heading, item.level)..]
      && NoBreak(item.title)
      && (item.title == [] || !IsSpace(item.title[0]))
      && item.url == "#" + Slugify(item.title)
      && |item.url| >= 1 && item.url[0] == '#' && IsAnchorSlug(item.url[1..])
      && item.items.None?
  {
    assert heading[0..|heading|] == heading;
    var n, m := MatchParts(heading, 0, |heading|);
    var j := SpaceRunEnd(heading, n);
    assert m <= j;
    var item := TocEntry(heading);
    assert item.url[1..] == Slugify(item.title);
    CollapseRunsShape(ToLowerAscii(item.title));
    forall k | 0 <= k < |item.title| ensures !IsLineTerminator(item.title[k]) {
      assert item.title[k] == heading[j + k];
    }
  }

  /** Every entry of the table of contents has the shape of `TocEntryShape`. */
  lemma GenerateTocShape(content: string)
    ensures forall item | item in GenerateToc(content).items ::
      && 1 <= item.level <= 3
      && NoBreak(item.title)
      && |item.url| >= 1 && item.url[0] == '#' && IsAnchorSlug(item.url[1..])
  {
    var toc := GenerateToc(content);
    ScanMatches(content);
    forall item | item in toc.items
      ensures 1 <= item.level <= 3 && NoBreak(item.title)
      ensures |item.url| >= 1 && item.url[0] == '#' && IsAnchorSlug(item.url[1..])
    {
      var i :| 0 <= i < |toc.items| && toc.items[i] == item;
      TocEntryShape(Headings(content)[i]);
    }
  }

  /**
   * `\s+` crosses line breaks: the title of `#\nfoo` is `foo`, taken from the next line,
   * and the title of `#  ` at the end of the text is empty.
   */
  lemma HeadingTitleExamples(a: string, b: string)
    requires a == "#\nfoo" && b == "#  "
    ensures HeadingTitle(a) == "foo" && HeadingLevel(a) == 1
    ensures HeadingTitle(b) == [] && HeadingLevel(b) == 1
  {
    HashRunEndAt(a, 0, 1);
    SpaceRunEndAt(a, 1, 2);
    HashRunEndAt(b, 0, 1);
    SpaceRunEndAt(b, 1, 3);
  }

  /** Content without `#` has an empty table of contents. */
  lemma NoHashEmptyToc(content: string)
    requires forall i | 0 <= i < |content| :: content[i] != '#'
    ensures GenerateToc(content).items == []
  {
    NoHashNoMatch(content);
  }

  /** A heading `#...# title` whose title is a lower-case word gets that word as its anchor. */
  lemma {:induction false} EntryOfSimpleHeading(heading: string, n: nat, word: string, lowerWord: string)
    requires 1 <= n < |heading| && heading[n] == ' '
    requires forall k | 0 <= k < n :: heading[k] == '#'
    requires heading[n + 1..] == word && word != [] && !IsSpace(word[0])
    requires ToLowerAscii(word) == lowerWord && forall k | 0 <= k < |lowerWord| :: IsSlugChar(lowerWord[k])
    ensures TocEntry(heading) == TocItem(word, "#" + lowerWord, n, None)
  {
    HashRunEndAt(heading, 0, n);
    SpaceRunEndAt(heading, n, n + 1);
    assert lowerWord + [] == lowerWord;
    CollapseWord(lowerWord, []);
  }

  lemma EntryOfA(heading: string)
    requires heading == "# A"
    ensures TocEntry(heading) == TocItem("A", "#a", 1, None)
  {
    assert ToLowerAscii("A") == "a";
    EntryOfSimpleHeading(heading, 1, "A", "a");
  }

  lemma EntryOfB(heading: string)
    requires heading == "## B"
    ensures TocEntry(heading) == TocItem("B", "#b", 2, None)
  {
    assert ToLowerAscii("B") == "b";
    EntryOfSimpleHeading(heading, 2, "B", "b");
  }

  /** Headings follow document order, one entry per match. */
  lemma TocOfTwoHeadings(content: string)
    requires content == "# A\n## B"
    ensures GenerateToc(content).items == [TocItem("A", "#a", 1, None), TocItem("B", "#b", 2, None)]
  {
    ScanOfTwoHeadings(content);
    TocOfTwoSpans(content, Span(0, 3), Span(4, 8));
    EntryOfA(content[0..3]);
    EntryOfB(content[4..8]);
  }

  lemma IntroParts(h: string)
    requires h == "# Intro"
    ensures h[0] == '#' && h[1] == ' ' && h[2..] == "Intro"
  {
  }

  lemma LowerIntro(w: string, lw: string)
    requires w == "Intro" && lw == "intro"
    ensures ToLowerAscii(w) == lw && (forall k | 0 <= k < |lw| :: IsSlugChar(lw[k])) && !IsSpace(w[0])
    ensures "#" + lw == "#intro"
  {
    ToLowerAsciiIs(w, lw);
  }

  lemma EntryOfIntro(heading: string)
    requires heading == "# Intro"
    ensures TocEntry(heading) == TocItem("Intro", "#intro", 1, None)
  {
    IntroParts(heading);
    LowerIntro("Intro", "intro");
    EntryOfSimpleHeading(heading, 1, "Intro", "intro");
  }

  lemma DetailsParts(h: string)
    requires h == "## Details"
    ensures h[0] == '#' && h[1] == '#' && h[2] == ' ' && h[3..] == "Details"
  {
  }

  lemma LowerDetails(w: string, lw: string)
    requires w == "Details" && lw == "details"
    ensures ToLowerAscii(w) == lw && (forall k | 0 <= k < |lw| :: IsSlugChar(lw[k])) && !IsSpace(w[0])
    ensures "#" + lw == "#details"
  {
    ToLowerAsciiIs(w, lw);
  }

  lemma EntryOfDetails(heading: string)
    requires heading == "## Details"
    ensures TocEntry(heading) == TocItem("Details", "#details", 2, None)
  {
    DetailsParts(heading);
    LowerDetails("Details", "details");
    EntryOfSimpleHeading(heading, 2, "Details", "details");
  }

  lemma IntroDetailsHeadings(content: string)
    requires content == "# Intro\n\nText\n\n## Details\n"
    ensures content[0..7] == "# Intro" && content[15..25] == "## Details"
  {
  }

  /** A scan with two spans gives the two entries of their matches, in order. */
  lemma TocOfTwoSpans(content: string, a: Span, b: Span)
    requires Scan(content) == [a, b]
    ensures a.start <= a.end <= |content| && b.start <= b.end <= |content|
    ensures GenerateToc(content).items ==
      [TocEntry(content[a.start..a.end]), TocEntry(content[b.start..b.end])]
  {
    var spans := Scan(content);
    assert spans[0] == a && spans[1] == b;
    var items := GenerateToc(content).items;
    assert items[0] == TocEntry(Headings(content)[0]);
    assert items[1] == TocEntry(Headings(content)[1]);
  }

  /** A scan with one span gives the one entry of its match. */
  lemma TocOfOneSpan(content: string, a: Span)
    requires Scan(content) == [a]
    ensures a.start <= a.end <= |content|
    ensures GenerateToc(content).items == [TocEntry(content[a.start..a.end])]
  {
    assert Scan(content)[0] == a;
    assert GenerateToc(content).items[0] == TocEntry(Headings(content)[0]);
  }

  /** The example of a post body with two headings, a paragraph between them and a final newline. */
  lemma TocOfIntroDetails(content: string)
    requires content == "# Intro\n\nText\n\n## Details\n"
    ensures GenerateToc(content).items ==
      [TocItem("Intro", "#intro", 1, None), TocItem("Details", "#details", 2, None)]
  {
    ScanOfIntroDetails(content);
    TocOfTwoSpans(content, Span(0, 7), Span(15, 25));
    IntroDetailsHeadings(content);
    EntryOfIntro(content[0..7]);
    EntryOfDetails(content[15..25]);
  }

  lemma EntryOfX(heading: string)
    requires heading == "### X"
    ensures TocEntry(heading) == TocItem("X", "#x", 3, None)
  {
    assert ToLowerAscii("X") == "x";
    EntryOfSimpleHeading(heading, 3, "X", "x");
  }

  /** A run of four `#` still yields a heading, of level 3. */
  lemma TocOfFourHashes(content: string)
    requires content == "#### X"
    ensures GenerateToc(content).items == [TocItem("X", "#x", 3, None)]
  {
    ScanOfFourHashes(content);
    TocOfOneSpan(content, Span(1, 6));
    EntryOfX(content[1..6]);
  }

  /** A `#` in the middle of a line starts a heading too. */
  lemma TocOfMidLineHash(content: string)
    requires content == "C# A"
    ensures GenerateToc(content).items == [TocItem("A", "#a", 1, None)]
  {
    ScanOfMidLineHash(content);
    TocOfOneSpan(content, Span(1, 4));
    EntryOfA(content[1..4]);
  }

  // ---------------------------------------------------------------------------
  // Processed post

  /**
   * `getProcessedBlogPost`: `null` exactly when the lookup is; otherwise the post with its
   * content rendered and a table of contents taken from the raw markdown of the file.
   */
  function GetProcessedBlogPost(src: PostSource, slug: string, render: string -> string): (r: Option<BlogPost>)
    ensures r.None? <==> GetBlogPost(src, slug).None?
    ensures r.Some? ==>
      var raw := ReadPost(src, slug).value.content;
      && r.value.meta == GetBlogPost(src, slug).value.meta
      && r.value.meta.readingTime == Some(CalculateReadingTime(raw))
      && r.value.content == render(raw)
      && r.value.toc == Some(GenerateToc(raw))
  {
    match GetBlogPost(src, slug)
    case None => None
    case Some(post) => Some(post.(content := render(post.content), toc := Some(GenerateToc(post.content))))
  }

}
