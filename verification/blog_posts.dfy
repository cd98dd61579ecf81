/**
 * The post repository: lists the markdown files of the content directory, validates and
 * normalises their frontmatter, sorts them newest first, looks single posts up and filters
 * the listing by the featured flag or by tag.
 *
 * The filesystem and the frontmatter parser are an input value (`PostSource`): an optional
 * directory listing whose entries carry the parsed file, or nothing when reading or parsing
 * that file fails; `new Date(v).toISOString()` is the source's `toIso` function.
 */
module BlogPosts {

  import opened Results
  import opened Js
  import opened Sequences
  import opened Sorting
  import opened BlogTypes

  const WordsPerMinute: nat := 200

  /** What reading a content file yields: its frontmatter and its markdown body. */
  datatype ParsedFile = ParsedFile(data: Frontmatter, content: string)

  /** One directory entry; `file` is `None` when reading or parsing the file throws. */
  datatype FileEntry = FileEntry(name: string, file: Option<ParsedFile>)

  /** The content directory (`None` when it does not exist) and the date normaliser. */
  datatype PostSource = PostSource(directory: Option<seq<FileEntry>>, toIso: Value -> Option<string>)

  /** What the repository throws. */
  datatype LoadError =
    | MissingFields(slug: string)  // Error: required frontmatter missing
    | InvalidTime                  // RangeError from toISOString on an invalid date
    | ReadFailed(fileName: string) // readFileSync or the frontmatter parser threw
  {
    function Message(): string
      requires MissingFields?
    {
      "Missing required fields in " + slug
    }
  }

  // ---------------------------------------------------------------------------
  // Reading time

  /** `Math.ceil(words / WORDS_PER_MINUTE)`. */
  function ReadingMinutes(words: nat): (m: nat)
    ensures m * WordsPerMinute >= words
    ensures m * WordsPerMinute < words + WordsPerMinute
  {
    (words + WordsPerMinute - 1) / WordsPerMinute
  }

  /**
   * `calculateReadingTime`: "<m> min read" where m is the word count of the trimmed body
   * divided by 200, rounded up; a body without words still counts as one word.
   */
  function CalculateReadingTime(content: string): (r: string)
    ensures |r| > 9 && r[|r| - 9..] == " min read"
    ensures forall i | 0 <= i < |r| - 9 :: '0' <= r[i] <= '9'
    ensures var m := DigitsValue(r[..|r| - 9]);
      && m >= 1
      && (m - 1) * WordsPerMinute < WordCount(content) <= m * WordsPerMinute
  {
    var m := ReadingMinutes(WordCount(content));
    var digits := NatToString(m);
    NatToStringRoundTrip(m);
    assert (digits + " min read")[..|digits|] == digits;
    digits + " min read"
  }

  /** The reading time is the one whole number of minutes that fits the word count. */
  lemma ReadingTimeIs(content: string, m: nat)
    requires m >= 1 && (m - 1) * WordsPerMinute < WordCount(content) <= m * WordsPerMinute
    ensures CalculateReadingTime(content) == NatToString(m) + " min read"
  {
    assert ReadingMinutes(WordCount(content)) == m;
  }

  /** The texts of the first three reading times. */
  lemma MinReadTexts()
    ensures NatToString(1) + " min read" == "1 min read"
    ensures NatToString(2) + " min read" == "2 min read"
    ensures NatToString(3) + " min read" == "3 min read"
  {
    assert NatToString(1) == "1" && NatToString(2) == "2" && NatToString(3) == "3";
  }

  /** 400 words read in 2 minutes, 401 in 3, and a body with one word or none in 1. */
  lemma ReadingTimeExamples(content: string)
    ensures |Words(content)| == 400 ==> CalculateReadingTime(content) == "2 min read"
    ensures |Words(content)| == 401 ==> CalculateReadingTime(content) == "3 min read"
    ensures |Words(content)| <= 1 ==> CalculateReadingTime(content) == "1 min read"
  {
    MinReadTexts();
    var w := WordCount(content);
    if w == 400 {
      ReadingTimeIs(content, 2);
    } else if w == 401 {
      ReadingTimeIs(content, 3);
    } else if w <= 1 {
      ReadingTimeIs(content, 1);
    }
  }

  // ---------------------------------------------------------------------------
  // Metadata validation

  predicate HasRequiredFields(data: Frontmatter)
    ensures HasRequiredFields(data) ==> "title" in data && "date" in data && "excerpt" in data
    ensures !HasRequiredFields(data) <==> exists k | k in ["title", "date", "excerpt"] :: !Truthy(Get(data, k))
  {
    Truthy(Get(data, "title")) && Truthy(Get(data, "date")) && Truthy(Get(data, "excerpt"))
  }

  /** `processPostMetadata`: validate the required fields, then build the record with defaults. */
  function ProcessPostMetadata(slug: string, data: Frontmatter, toIso: Value -> Option<string>)
    : (r: Result<BlogMeta, LoadError>)
    ensures r == Failure(MissingFields(slug)) <==> !HasRequiredFields(data)
    ensures r == Failure(InvalidTime) <==> HasRequiredFields(data) && toIso(Get(data, "date")).None?
    ensures r.Success? <==> HasRequiredFields(data) && toIso(Get(data, "date")).Some?
    ensures r.Failure? && r.error.MissingFields? ==> r.error.Message() == "Missing required fields in " + slug
    ensures r.Success? ==>
      && r.value.slug == slug
      && r.value.title == ToJsString(Get(data, "title"))
      && r.value.excerpt == ToJsString(Get(data, "excerpt"))
      && toIso(Get(data, "date")) == Some(r.value.date)
      && r.value.readingTime.None?
    ensures r.Success? ==>
      && r.value.author.name == (if Truthy(Get(data, "author")) then ToJsString(Get(data, "author")) else "Anonymous")
      && r.value.author.avatar == Get(data, "authorAvatar")
      && r.value.author.bio == Get(data, "authorBio")
      && r.value.tags == (if Get(data, "tags").Arr? then Get(data, "tags").elems else [])
      && r.value.featured == Truthy(Get(data, "featured"))
      && ("featured" !in data ==> !r.value.featured)
  {
    var title, date, excerpt := Get(data, "title"), Get(data, "date"), Get(data, "excerpt");
    if !Truthy(title) || !Truthy(date) || !Truthy(excerpt) then
      Failure(MissingFields(slug))
    else
      match toIso(date)
      case None => Failure(InvalidTime)
      case Some(iso) =>
        var author := Get(data, "author");
        var tags := Get(data, "tags");
        Success(BlogMeta(
          slug,
          ToJsString(title),
          iso,
          ToJsString(excerpt),
          BlogAuthor(
            ToJsString(if Truthy(author) then author else Str("Anonymous")),
            Get(data, "authorAvatar"),
            Get(data, "authorBio")),
          match tags { case Arr(elems) => elems case _ => [] },
          None,
          Truthy(Get(data, "featured"))))
  }

  /** A validated title is never empty unless the frontmatter gave a list. */
  lemma ValidatedTitleNonEmpty(slug: string, data: Frontmatter, toIso: Value -> Option<string>)
    requires ProcessPostMetadata(slug, data, toIso).Success?
    requires !Get(data, "title").Arr?
    ensures ProcessPostMetadata(slug, data, toIso).value.title != ""
  {
    ToJsStringNonEmpty(Get(data, "title"));
  }

  // ---------------------------------------------------------------------------
  // Listing

  /** `fileName.endsWith('.md')`. */
  predicate IsMarkdownName(name: string)
    ensures IsMarkdownName(name) <==> |name| >= 3 && name[..|name| - 3] + ".md" == name
  {
    |name| >= 3 && name[|name| - 3..] == ".md"
  }

  /** `fileName.replace(/\.md$/, '')`. */
  function SlugOf(name: string): (slug: string)
    requires IsMarkdownName(name)
    ensures slug + ".md" == name
  {
    name[..|name| - 3]
  }

  predicate IsMarkdownEntry(e: FileEntry)
  {
    IsMarkdownName(e.name)
  }

  function MarkdownEntries(entries: seq<FileEntry>): (md: seq<FileEntry>)
    ensures forall e | e in md :: IsMarkdownEntry(e)
  {
    Filter(entries, IsMarkdownEntry)
  }

  /** Read one markdown file and process its metadata. */
  function LoadEntry(e: FileEntry, toIso: Value -> Option<string>): (r: Result<BlogMeta, LoadError>)
    requires IsMarkdownEntry(e)
    ensures r == Failure(ReadFailed(e.name)) <==> e.file.None?
    ensures r.Success? <==>
      e.file.Some? && HasRequiredFields(e.file.value.data) && toIso(Get(e.file.value.data, "date")).Some?
    ensures r == Failure(MissingFields(SlugOf(e.name))) <==> e.file.Some? && !HasRequiredFields(e.file.value.data)
    ensures r.Success? ==> r.value.slug + ".md" == e.name
    ensures e.file.Some? ==> r == ProcessPostMetadata(SlugOf(e.name), e.file.value.data, toIso)
  {
    match e.file
    case None => Failure(ReadFailed(e.name))
    case Some(f) => ProcessPostMetadata(SlugOf(e.name), f.data, toIso)
  }

  /** A `map` whose callback may throw: the first element that fails aborts the whole map. */
  function MapOrFail<A, B, E>(xs: seq<A>, f: A -> Result<B, E>): (r: Result<seq<B>, E>)
    ensures r.Success? <==> forall i | 0 <= i < |xs| :: f(xs[i]).Success?
    ensures r.Success? ==> |r.value| == |xs| && forall i | 0 <= i < |xs| :: f(xs[i]) == Success(r.value[i])
    ensures r.Failure? ==>
      exists i | 0 <= i < |xs| ::
        && f(xs[i]) == Failure(r.error)
        && forall j | 0 <= j < i :: f(xs[j]).Success?
  {
    if xs == [] then Success([])
    else
      match f(xs[0])
      case Failure(e) => Failure(e)
      case Success(y) =>
        match MapOrFail(xs[1..], f)
        case Failure(e) =>
          FailureShifts(xs, f, e);
          Failure(e)
        case Success(ys) =>
          SuccessShifts(xs, f, y, ys);
          Success([y] + ys)
  }

  /** A failure in the tail is a failure in the whole, one index further on. */
  lemma FailureShifts<A, B, E>(xs: seq<A>, f: A -> Result<B, E>, e: E)
    requires xs != [] && f(xs[0]).Success?
    requires exists i | 0 <= i < |xs| - 1 :: f(xs[1..][i]) == Failure(e) && forall j | 0 <= j < i :: f(xs[1..][j]).Success?
    ensures exists i | 0 <= i < |xs| :: f(xs[i]) == Failure(e) && forall j | 0 <= j < i :: f(xs[j]).Success?
  {
    var i :| 0 <= i < |xs| - 1 && f(xs[1..][i]) == Failure(e) && forall j | 0 <= j < i :: f(xs[1..][j]).Success?;
    assert f(xs[i + 1]) == Failure(e);
    forall j | 0 <= j < i + 1
      ensures f(xs[j]).Success?
    {
      if j > 0 {
        assert xs[j] == xs[1..][j - 1];
      }
    }
  }

  /** Results for the head and for the tail make the results for the whole. */
  lemma SuccessShifts<A, B, E>(xs: seq<A>, f: A -> Result<B, E>, y: B, ys: seq<B>)
    requires xs != [] && f(xs[0]) == Success(y)
    requires |ys| == |xs| - 1 && forall i | 0 <= i < |xs| - 1 :: f(xs[1..][i]) == Success(ys[i])
    ensures forall i | 0 <= i < |xs| :: f(xs[i]) == Success(([y] + ys)[i])
  {
    forall i | 0 <= i < |xs|
      ensures f(xs[i]) == Success(([y] + ys)[i])
    {
      if i > 0 {
        assert xs[i] == xs[1..][i - 1];
      }
    }
  }

  /** The map's callback: read one file and process its metadata. */
  function Loader(toIso: Value -> Option<string>): FileEntry -> Result<BlogMeta, LoadError>
  {
    (e: FileEntry) => if IsMarkdownEntry(e) then LoadEntry(e, toIso) else Failure(ReadFailed(e.name))
  }

  /** The `map` over the markdown files: the first file that throws aborts the whole map. */
  function LoadAll(entries: seq<FileEntry>, toIso: Value -> Option<string>): (r: Result<seq<BlogMeta>, LoadError>)
    requires forall e | e in entries :: IsMarkdownEntry(e)
    ensures r.Success? <==> forall i | 0 <= i < |entries| :: LoadEntry(entries[i], toIso).Success?
    ensures r.Success? ==>
      |r.value| == |entries| && forall i | 0 <= i < |entries| :: LoadEntry(entries[i], toIso) == Success(r.value[i])
    ensures r.Failure? ==>
      exists i | 0 <= i < |entries| ::
        && LoadEntry(entries[i], toIso) == Failure(r.error)
        && forall j | 0 <= j < i :: LoadEntry(entries[j], toIso).Success?
  {
    var f := Loader(toIso);
    assert forall i | 0 <= i < |entries| :: f(entries[i]) == LoadEntry(entries[i], toIso);
    MapOrFail(entries, f)
  }

  function DateOf(m: BlogMeta): string
  {
    m.date
  }

  /** `getAllBlogPosts`. */
  function GetAllBlogPosts(src: PostSource): (r: Result<seq<BlogMeta>, LoadError>)
    ensures src.directory.None? ==> r == Success([])
  {
    match src.directory
    case None => Success([])
    case Some(entries) =>
      match LoadAll(MarkdownEntries(entries), src.toIso)
      case Failure(e) => Failure(e)
      case Success(posts) => Success(SortByKeyDesc(posts, DateOf))
  }

  /**
   * The listing holds one post per markdown file, sorted newest first, as a stable
   * permutation of the files' scan order; or it fails with the error of the first bad file.
   */
  lemma ListingContents(src: PostSource, entries: seq<FileEntry>)
    requires src.directory == Some(entries)
    ensures var md := MarkdownEntries(entries);
      GetAllBlogPosts(src).Success? <==> forall i | 0 <= i < |md| :: LoadEntry(md[i], src.toIso).Success?
    ensures var md := MarkdownEntries(entries);
      GetAllBlogPosts(src).Success? ==>
        var posts := GetAllBlogPosts(src).value;
        var loaded := LoadAll(md, src.toIso).value;
        && |posts| == |md|
        && multiset(posts) == multiset(loaded)
        && SortedDesc(posts, DateOf)
        && (forall d :: WithKey(posts, DateOf, d) == WithKey(loaded, DateOf, d))
    ensures var md := MarkdownEntries(entries);
      GetAllBlogPosts(src).Failure? ==>
        exists i | 0 <= i < |md| ::
          && LoadEntry(md[i], src.toIso) == Failure(GetAllBlogPosts(src).error)
          && forall j | 0 <= j < i :: LoadEntry(md[j], src.toIso).Success?
  {
    var md := MarkdownEntries(entries);
    var loaded := LoadAll(md, src.toIso);
    if loaded.Success? {
      SortIsSortedPermutation(loaded.value, DateOf);
      forall d ensures WithKey(GetAllBlogPosts(src).value, DateOf, d) == WithKey(loaded.value, DateOf, d) {
        SortIsStable(loaded.value, DateOf, d);
      }
    }
  }

  /** The listing, when it succeeds, is the sorted list of the loaded markdown files. */
  lemma ListingIsSortedLoad(src: PostSource, entries: seq<FileEntry>)
    requires src.directory == Some(entries)
    requires GetAllBlogPosts(src).Success?
    ensures LoadAll(MarkdownEntries(entries), src.toIso).Success?
    ensures GetAllBlogPosts(src).value == SortByKeyDesc(LoadAll(MarkdownEntries(entries), src.toIso).value, DateOf)
  {
  }

  /** Each listed post is the processed metadata of a markdown file, and its slug is that file's name without `.md`. */
  lemma ListedPostFromFile(src: PostSource, entries: seq<FileEntry>, p: BlogMeta)
    requires src.directory == Some(entries)
    requires GetAllBlogPosts(src).Success? && p in GetAllBlogPosts(src).value
    ensures exists e | e in entries && IsMarkdownEntry(e) :: p.slug == SlugOf(e.name) && LoadEntry(e, src.toIso) == Success(p)
  {
    ListingIsSortedLoad(src, entries);
    var md := MarkdownEntries(entries);
    var loaded := LoadAll(md, src.toIso).value;
    assert p in multiset(GetAllBlogPosts(src).value);
    assert p in loaded by { assert p in multiset(loaded); }
    var e := LoadedFromEntry(md, src.toIso, p);
    assert e in entries;
    assert p.slug == SlugOf(e.name) by {
      assert |p.slug| == |SlugOf(e.name)|;
      assert p.slug == (p.slug + ".md")[..|p.slug|];
    }
  }

  /** A loaded post comes from one of the files loaded. */
  lemma LoadedFromEntry(md: seq<FileEntry>, toIso: Value -> Option<string>, p: BlogMeta) returns (e: FileEntry)
    requires forall e | e in md :: IsMarkdownEntry(e)
    requires LoadAll(md, toIso).Success? && p in LoadAll(md, toIso).value
    ensures e in md && LoadEntry(e, toIso) == Success(p)
  {
    var loaded := LoadAll(md, toIso).value;
    var i :| 0 <= i < |loaded| && loaded[i] == p;
    e := md[i];
  }

  /** Every markdown file of the directory appears in the listing under its slug. */
  lemma FileListedUnderSlug(src: PostSource, entries: seq<FileEntry>, e: FileEntry)
    requires src.directory == Some(entries)
    requires GetAllBlogPosts(src).Success?
    requires e in entries && IsMarkdownEntry(e)
    ensures exists p | p in GetAllBlogPosts(src).value :: p.slug == SlugOf(e.name) && LoadEntry(e, src.toIso) == Success(p)
  {
    ListingIsSortedLoad(src, entries);
    var md := MarkdownEntries(entries);
    var loaded := LoadAll(md, src.toIso).value;
    var posts := GetAllBlogPosts(src).value;
    assert e in md;
    var i :| 0 <= i < |md| && md[i] == e;
    assert LoadEntry(e, src.toIso) == Success(loaded[i]);
    assert loaded[i] in multiset(loaded);
    assert loaded[i] in multiset(posts);
  }

  function NameOf(e: FileEntry): string
  {
    e.name
  }

  function SlugField(m: BlogMeta): string
  {
    m.slug
  }

  /**
   * Slugs are unique within one listing: a directory never holds two entries with the same
   * name, and distinct `.md` names leave distinct slugs.
   */
  lemma ListingSlugsUnique(src: PostSource, entries: seq<FileEntry>)
    requires src.directory == Some(entries)
    requires DistinctBy(entries, NameOf)
    requires GetAllBlogPosts(src).Success?
    ensures DistinctBy(GetAllBlogPosts(src).value, SlugField)
  {
    ListingIsSortedLoad(src, entries);
    var md := MarkdownEntries(entries);
    FilterKeepsDistinct(entries, IsMarkdownEntry, NameOf);
    LoadedSlugsDistinct(md, src.toIso);
    SortKeepsDistinct(LoadAll(md, src.toIso).value, DateOf, SlugField);
  }

  /** Files with distinct names load under distinct slugs. */
  lemma LoadedSlugsDistinct(md: seq<FileEntry>, toIso: Value -> Option<string>)
    requires forall e | e in md :: IsMarkdownEntry(e)
    requires DistinctBy(md, NameOf)
    requires LoadAll(md, toIso).Success?
    ensures DistinctBy(LoadAll(md, toIso).value, SlugField)
  {
    var loaded := LoadAll(md, toIso).value;
    forall i, j | 0 <= i < j < |loaded| ensures loaded[i].slug != loaded[j].slug {
      assert NameOf(md[i]) != NameOf(md[j]);
    }
  }

  // ---------------------------------------------------------------------------
  // Single-post lookup

  /** The first entry with the given name. */
  function FindEntry(entries: seq<FileEntry>, name: string): (r: Option<FileEntry>)
    ensures r.None? <==> forall e | e in entries :: e.name != name
    ensures r.Some? ==>
      exists i | 0 <= i < |entries| :: entries[i] == r.value && r.value.name == name
        && forall j | 0 <= j < i :: entries[j].name != name
  {
    if entries == [] then None
    else if entries[0].name == name then Some(entries[0])
    else
      var r := FindEntry(entries[1..], name);
      assert entries == [entries[0]] + entries[1..];
      assert r.Some? ==> exists i | 1 <= i < |entries| :: entries[i] == r.value;
      r
  }

  /** `readFileSync(join(POSTS_DIRECTORY, slug + '.md'))` followed by the frontmatter parser. */
  function ReadPost(src: PostSource, slug: string): (r: Option<ParsedFile>)
    ensures src.directory.None? ==> r.None?
    ensures src.directory.Some? && (forall e | e in src.directory.value :: e.name != slug + ".md") ==> r.None?
    ensures r.Some? ==>
      src.directory.Some? && exists e | e in src.directory.value :: e.name == slug + ".md" && e.file == r
    ensures src.directory.Some? && FindEntry(src.directory.value, slug + ".md").Some? ==>
      r == FindEntry(src.directory.value, slug + ".md").value.file
  {
    match src.directory
    case None => None
    case Some(entries) =>
      match FindEntry(entries, slug + ".md")
      case None => None
      case Some(e) => e.file
  }

  /** `getBlogPost`: any failure to read or validate becomes `null`. */
  function GetBlogPost(src: PostSource, slug: string): (r: Option<BlogPost>)
    ensures r.None? <==>
      ReadPost(src, slug).None? || ProcessPostMetadata(slug, ReadPost(src, slug).value.data, src.toIso).Failure?
    ensures r.Some? ==>
      var f := ReadPost(src, slug).value;
      && r.value.content == f.content
      && r.value.meta.readingTime == Some(CalculateReadingTime(f.content))
      && Success(r.value.meta.(readingTime := None)) == ProcessPostMetadata(slug, f.data, src.toIso)
      && r.value.toc.None?
  {
    match ReadPost(src, slug)
    case None => None
    case Some(f) =>
      match ProcessPostMetadata(slug, f.data, src.toIso)
      case Failure(_) => None
      case Success(meta) =>
        Some(BlogPost(meta.(readingTime := Some(CalculateReadingTime(f.content))), f.content, None))
  }

  /** A post the listing holds can be looked up by its slug, with the same metadata. */
  lemma LookupAgreesWithListing(src: PostSource, slug: string)
    requires GetAllBlogPosts(src).Success?
    requires src.directory.Some? && exists e | e in src.directory.value :: e.name == slug + ".md"
    ensures GetBlogPost(src, slug).Some?
    ensures GetBlogPost(src, slug).value.meta.(readingTime := None) in GetAllBlogPosts(src).value
  {
    var entries := src.directory.value;
    var e := FindEntry(entries, slug + ".md").value;
    assert IsMarkdownName(slug + ".md") by {
      assert (slug + ".md")[|slug + ".md"| - 3..] == ".md";
    }
    assert SlugOf(e.name) == slug by {
      assert e.name[..|e.name| - 3] == slug;
    }
    FileListedUnderSlug(src, entries, e);
    assert ReadPost(src, slug) == e.file;
  }

  // ---------------------------------------------------------------------------
  // Filters

  predicate IsFeatured(m: BlogMeta)
  {
    m.featured
  }

  /** `getFeaturedPosts`: the listing, restricted to featured posts, order kept. */
  function GetFeaturedPosts(src: PostSource): (r: Result<seq<BlogMeta>, LoadError>)
    ensures r.Failure? <==> GetAllBlogPosts(src).Failure?
    ensures r.Failure? ==> r.error == GetAllBlogPosts(src).error
    ensures r.Success? ==>
      var all := GetAllBlogPosts(src).value;
      && IsSubsequence(r.value, all)
      && (forall p :: p in r.value <==> p in all && p.featured)
      && (forall p :: multiset(r.value)[p] == if p.featured then multiset(all)[p] else 0)
  {
    match GetAllBlogPosts(src)
    case Failure(e) => Failure(e)
    case Success(all) => Success(Filter(all, IsFeatured))
  }

  /** `post.tags.includes(tag.toLowerCase())`: the tags are compared as they are stored. */
  predicate HasTag(m: BlogMeta, tag: string)
    ensures HasTag(m, tag) <==> exists i | 0 <= i < |m.tags| :: m.tags[i].Str? && m.tags[i].s == ToLowerAscii(tag)
    ensures HasTag(m, tag) ==>
      exists i | 0 <= i < |m.tags| :: m.tags[i].Str? && forall k | 0 <= k < |m.tags[i].s| :: !IsUpperAscii(m.tags[i].s[k])
  {
    Str(ToLowerAscii(tag)) in m.tags
  }

  /** `getPostsByTag`: the listing, restricted to posts carrying the lower-cased tag, order kept. */
  function GetPostsByTag(src: PostSource, tag: string): (r: Result<seq<BlogMeta>, LoadError>)
    ensures r.Failure? <==> GetAllBlogPosts(src).Failure?
    ensures r.Failure? ==> r.error == GetAllBlogPosts(src).error
    ensures r.Success? ==>
      var all := GetAllBlogPosts(src).value;
      && IsSubsequence(r.value, all)
      && (forall p :: p in r.value <==> p in all && Str(ToLowerAscii(tag)) in p.tags)
      && (forall p :: multiset(r.value)[p] == if HasTag(p, tag) then multiset(all)[p] else 0)
  {
    match GetAllBlogPosts(src)
    case Failure(e) => Failure(e)
    case Success(all) => Success(Filter(all, (m: BlogMeta) => HasTag(m, tag)))
  }

}
