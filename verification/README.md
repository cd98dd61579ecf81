# Blog content pipeline, modelled in Dafny

This project models the content pipeline of a personal blog built on Next.js. The pipeline has two parts.

The **post repository** (`src/lib/blog-posts.ts`) does the following:
- It lists the `.md` files of the content directory and derives each post's slug from its file name.
- It validates the required frontmatter fields (`title`, `date`, `excerpt`) and fills in defaults: author `Anonymous`, `tags` as `[]` when not an array, and `featured` coerced to a boolean.
- It sorts the posts newest first with a stable sort.
- It looks a single post up. Any failure there becomes `null`.
- It filters the listing by the featured flag or by tag.
- It computes the reading time as `ceil(words / 200)` followed by ` min read`.

The **markdown side** (`src/lib/markdown.ts`) does two things:
- It builds a table of contents by scanning the raw markdown with the global regex `#{1,3}\s+.+`. Each match gives its level, its title and a `#`-prefixed anchor slug.
- It pairs that table with the rendered HTML of a post.

Both files are pure transformations: chains of filter, map and sort plus record construction. The model is therefore made of datatypes, functions and lemmas, with no classes or loops.

Modules:
- `Results`: `Option` and `Result`.
- `Js`: the JavaScript behaviour the code relies on:
  - frontmatter values and truthiness
  - `String(v)`
  - decimal formatting
  - ASCII `toLowerCase`
  - the `\s` whitespace set
  - `trim`
  - `split(/\s+/)`
- `Sequences`: `Array.prototype.filter`, the subsequence relation, and distinctness.
- `Sorting`: string order by code point, and a stable insertion sort, newest first.
- `BlogTypes`: the records of `src/types/blog.ts`. `TocItem` has a `level` field, because `generateToc` emits one.
- `BlogPosts`: the repository.
- `HeadingScan`: the regex scan, written as an explicit matcher and a left-to-right global-match loop.
- `Markdown`: the anchor slug, `generateToc` and `getProcessedBlogPost`.

Frontmatter values are `undefined`, `null`, booleans, integers, strings, arrays, dates (a YAML timestamp, which the parser hands over as a `Date`; the model keeps its time value) and other objects.

The filesystem and the frontmatter parser are an input value, `PostSource`:
- An optional directory. It is `None` when the directory does not exist.
- The directory's entries. Each entry has a name and either the parsed file (frontmatter and body) or `None` when reading or parsing that file throws.
- `new Date(v).toISOString()`, as a function `toIso` that may fail.

The HTML renderer `processMarkdown` is a function parameter `render`.

The code behaves as follows, which may be unexpected; the model does the same:
- Headings are found anywhere in a line, not only at its start. `C# A` yields the entry `A`.
- A run of four or more `#` is not ignored. `#### X` yields a level-3 entry `X`, matched from the second `#`.
- Leading and trailing hyphens of a slug are kept. `Hello, World!` gives `#hello-world-`.
- A title keeps any trailing spaces of its line.
- The whitespace after the `#` may include line breaks. `#\nfoo` yields the entry `foo`, whose title comes from the next line, and `#  ` at the end of the text yields an entry with an empty title.
- A lookup also returns `null` when the file exists but fails validation.

## Model

| member | source | states |
|---|---|---|
| BlogPosts.ReadingMinutes | src/lib/blog-posts.ts:26 | the minutes are the least whole number whose 200-word span covers the word count (ceiling division) |
| BlogPosts.CalculateReadingTime | src/lib/blog-posts.ts:19-28 | the result is decimal digits followed by ` min read`; the number m they spell is at least 1 and satisfies (m-1)·200 < words ≤ m·200, where words is the token count of the trimmed body |
| BlogPosts.ReadingTimeIs | src/lib/blog-posts.ts:24-28 | whenever m ≥ 1 and the word count lies in ((m-1)·200, m·200], the result is exactly m in decimal followed by ` min read` |
| BlogPosts.ReadingTimeExamples | src/lib/blog-posts.ts:24-28 | 400 words give `2 min read`, 401 give `3 min read`, one word or an empty or all-whitespace body give `1 min read` |
| Js.WordCount | src/lib/blog-posts.ts:25 | `content.trim().split(/\s+/).length` is the number of whitespace-separated words, or 1 when there are none |
| Js.SplitOfTrimCountsWords | src/lib/blog-posts.ts:25 | splitting the trimmed text on whitespace runs yields one part per word, and a single empty part when there is no word |
| Js.SplitTrimmedIsWords | src/lib/blog-posts.ts:25 | on text that neither starts nor ends with whitespace, `split(/\s+/)` equals the independent word tokeniser `Words` |
| Js.TrimKeepsWords | src/lib/blog-posts.ts:25 | trimming removes no word |
| Js.Trim | src/lib/blog-posts.ts:25 | `trim` returns a slice of its input with only whitespace cut on both sides, and the slice neither starts nor ends with whitespace |
| Js.SplitOnSpace | src/lib/blog-posts.ts:25 | `split(/\s+/)` always returns at least one part |
| Js.NatToString | src/lib/blog-posts.ts:27 | the template's number is non-empty, all decimal digits, with no leading zero |
| Js.NatToStringRoundTrip | src/lib/blog-posts.ts:27 | reading the printed digits back gives the number printed |
| BlogPosts.ProcessPostMetadata | src/lib/blog-posts.ts:33-52 | fails with `MissingFields(slug)`, whose message is `Missing required fields in <slug>`, exactly when `title`, `date` or `excerpt` is falsy; fails with the date error exactly when the fields are present and the date does not normalise; succeeds exactly when the fields are present and the date normalises, and then has the given slug, the stringified title and excerpt, the normalised date, author name `Anonymous` when `author` is falsy, avatar and bio copied unchanged, tags the array when `tags` is one and `[]` otherwise, `featured` its truthiness (false when absent), and no reading time |
| BlogPosts.ValidatedTitleNonEmpty | src/lib/blog-posts.ts:35-41 | a title that passed validation stringifies to a non-empty string unless it is an array |
| Js.ToJsStringNonEmpty | src/lib/blog-posts.ts:41-43 | `String(v)` of a truthy non-array value is non-empty |
| BlogPosts.SlugOf | src/lib/blog-posts.ts:68 | the slug followed by `.md` is the file name |
| BlogPosts.MapOrFail | src/lib/blog-posts.ts:67-74 | a `map` whose callback may throw succeeds exactly when every element's callback succeeds, and then holds each result at its element's position; otherwise it fails with the error of the first element that fails, every earlier one having succeeded |
| BlogPosts.LoadAll | src/lib/blog-posts.ts:67-74 | the map over the `.md` files succeeds exactly when every file loads; it then holds each file's metadata at that file's position; otherwise it fails with the error of the first file that fails |
| BlogPosts.LoadedFromEntry | src/lib/blog-posts.ts:67-74 | every post of a successful map is the metadata of one of the files mapped |
| BlogPosts.IsMarkdownName | src/lib/blog-posts.ts:66 | `fileName.endsWith('.md')` holds exactly when the name is some stem followed by `.md`; `SlugOf` returns that stem |
| BlogPosts.LoadEntry | src/lib/blog-posts.ts:67-73 | one step of the map: it fails with the read error exactly when the file cannot be read or parsed; a file that is read gives `processPostMetadata` of its slug and frontmatter, so it fails with `MissingFields` of its slug exactly when a required field is falsy, and succeeds exactly when those fields are present and its date normalises; a loaded post's slug followed by `.md` is the file name |
| BlogPosts.ReadPost | src/lib/blog-posts.ts:85-87 | reading `<slug>.md`: nothing when the directory is missing or no entry has that name; when an entry has that name, the result is the parsed file of the first such entry (or nothing when that file cannot be read); a file read is always the parsed file of an entry named `<slug>.md` |
| BlogPosts.HasRequiredFields | src/lib/blog-posts.ts:35 | the check fails exactly when one of `title`, `date` and `excerpt` is falsy; when it passes, all three keys are present |
| BlogPosts.HasTag | src/lib/blog-posts.ts:111 | `post.tags.includes(tag.toLowerCase())` holds exactly when some stored tag is the string equal to the lower-cased tag; a tag that matches holds no upper-case letter, so a tag stored with capitals never matches |
| Js.Truthy | src/lib/blog-posts.ts:35 | JavaScript truthiness: a value is falsy exactly when it is one of `undefined`, `null`, `false`, `0` and `""` |
| Js.ToJsString | src/lib/blog-posts.ts:41-45 | `String(v)`: a string prints unchanged; an integer prints non-empty, starting with `-` exactly when negative; an empty array prints `""`, and so does a one-element array holding `undefined` or `null`; an array holding one string prints that string |
| BlogPosts.GetAllBlogPosts | src/lib/blog-posts.ts:57-61 | a missing directory gives the empty listing |
| BlogPosts.ListingContents | src/lib/blog-posts.ts:57-78 | the listing succeeds exactly when every `.md` file loads; it then has one post per `.md` file, is a permutation of the loaded files, is sorted newest date first, and keeps the scan order among equal dates; otherwise it fails with the first bad file's error and no partial list |
| BlogPosts.ListedPostFromFile | src/lib/blog-posts.ts:66-73 | every listed post is the processed metadata of some `.md` file, and its slug is that file's name without `.md` |
| BlogPosts.FileListedUnderSlug | src/lib/blog-posts.ts:66-73 | every `.md` file of the directory appears in the listing under its slug |
| BlogPosts.LoadedSlugsDistinct | src/lib/blog-posts.ts:67-74 | files with distinct names load under distinct slugs |
| BlogPosts.ListingSlugsUnique | src/lib/blog-posts.ts:57-78 | when the directory's names are distinct, no two listed posts share a slug |
| Sequences.Filter | src/lib/blog-posts.ts:66 | `filter` keeps exactly the elements that satisfy the predicate, each as often as before, in their original order |
| Sequences.FilterKeepsDistinct | src/lib/blog-posts.ts:66 | filtering never makes two kept elements agree on a key they differed on before |
| Sorting.StrLessIrreflexive | src/lib/blog-posts.ts:75 | no date sorts strictly before itself |
| Sorting.StrLessTransitive | src/lib/blog-posts.ts:75 | the date order is transitive |
| Sorting.StrLessTotal | src/lib/blog-posts.ts:75 | any two different dates are ordered one way or the other |
| Sorting.Insert | src/lib/blog-posts.ts:75 | one insertion step adds exactly the new element |
| Sorting.SortByKeyDesc | src/lib/blog-posts.ts:75 | the sort returns a permutation of its input |
| Sorting.InsertSorted | src/lib/blog-posts.ts:75 | inserting into a list sorted newest first keeps it sorted |
| Sorting.InsertWithKey | src/lib/blog-posts.ts:75 | for every date, an insertion leaves the posts of that date in the order they have when the new post is put in front: the new post goes before the posts of its own date |
| Sorting.SortIsSortedPermutation | src/lib/blog-posts.ts:75 | the sort's result is sorted newest first and is a permutation of its input |
| Sorting.SortIsStable | src/lib/blog-posts.ts:75 | for every date, the posts with that date keep their input order |
| Sorting.InsertKeepsDistinct | src/lib/blog-posts.ts:75 | an insertion of an element with a new key value keeps key values distinct |
| Sorting.SortKeepsDistinct | src/lib/blog-posts.ts:75 | sorting keeps key values distinct |
| BlogPosts.FindEntry | src/lib/blog-posts.ts:85-86 | the entry found is the first with the requested name, and nothing is found exactly when no entry has it |
| BlogPosts.GetBlogPost | src/lib/blog-posts.ts:83-98 | the lookup is `null` exactly when the file cannot be read or fails validation; otherwise the content is the raw body, the reading time is `calculateReadingTime` of that body, the rest of the metadata is exactly `processPostMetadata`'s, and there is no table of contents |
| BlogPosts.LookupAgreesWithListing | src/lib/blog-posts.ts:57-98 | when the listing succeeds, a slug whose file exists is found by the lookup, with the metadata the listing holds |
| BlogPosts.GetFeaturedPosts | src/lib/blog-posts.ts:103-105 | fails exactly when the listing fails, with its error; otherwise it is an order-preserving subsequence of the listing holding exactly the featured posts, each as often as in the listing |
| BlogPosts.GetPostsByTag | src/lib/blog-posts.ts:110-112 | fails exactly when the listing fails, with its error; otherwise it is an order-preserving subsequence of the listing holding exactly the posts whose stored tags include the lower-cased tag, each as often as in the listing |
| Js.ToLowerAscii | src/lib/blog-posts.ts:111 | lower-casing keeps the length and maps each character to its lower-case form |
| Js.ToLowerAsciiIdempotent | src/lib/markdown.ts:48 | lower-casing twice equals lower-casing once, and leaves no upper-case letter |
| HeadingScan.HashRunEnd | src/lib/markdown.ts:43 | the run of `#` that starts at a position ends at the first other character |
| Js.SpaceRunEnd | src/lib/markdown.ts:43 | a whitespace run ends at the first character outside `\s` |
| HeadingScan.LineEnd | src/lib/markdown.ts:43 | `.` stops at the first line terminator |
| HeadingScan.LastNonBreak | src/lib/markdown.ts:43 | when `\s+` runs to the end of the text it backtracks to the last character that is not a line terminator |
| HeadingScan.LineTerminatorIsSpace | src/lib/markdown.ts:43 | every line terminator is whitespace, and `#` is not |
| HeadingScan.MatchEnd | src/lib/markdown.ts:43 | the match that starts at a position, if any, ends after that position and within the text |
| HeadingScan.MatchEndSound | src/lib/markdown.ts:43 | the text the matcher returns is in the language `#{1,3}\s+.+` |
| HeadingScan.MatchEndLongest | src/lib/markdown.ts:43 | the matcher finds a match wherever the language has one, and none longer than the one it returns |
| HeadingScan.MatchParts | src/lib/markdown.ts:43 | a match splits into 1 to 3 `#`, a whitespace run, and a non-empty rest without line terminators |
| HeadingScan.GlobalMatch | src/lib/markdown.ts:43 | the global match returns matches in order, without overlap |
| HeadingScan.GlobalMatchIsLeftmost | src/lib/markdown.ts:43 | no position outside the returned spans starts a match |
| HeadingScan.GlobalMatchSkips | src/lib/markdown.ts:43 | positions where nothing matches are skipped |
| HeadingScan.Scan | src/lib/markdown.ts:43 | each span of `content.match(/#{1,3}\s+.+/g)` is a match, in order, without overlap |
| HeadingScan.ScanMatches | src/lib/markdown.ts:43 | each span is a longest match, and no position outside the spans starts one |
| HeadingScan.NoMatchWithoutHash | src/lib/markdown.ts:43 | a match can only start at a `#` |
| HeadingScan.NoHashNoMatch | src/lib/markdown.ts:43 | text without `#` has no match |
| HeadingScan.MatchEndOfLine | src/lib/markdown.ts:43 | 1 to 3 `#`, whitespace and a non-space character match up to the end of the line |
| HeadingScan.ScanOfTwoHeadings | src/lib/markdown.ts:43 | `# A\n## B` has the two spans `# A` and `## B` |
| HeadingScan.ScanOfFourHashes | src/lib/markdown.ts:43 | in `#### X` the match starts at the second `#` |
| HeadingScan.ScanOfMidLineHash | src/lib/markdown.ts:43 | in `C# A` the match starts in the middle of the line |
| HeadingScan.ScanOfIntroDetails | src/lib/markdown.ts:43 | `# Intro\n\nText\n\n## Details\n` has the two spans `# Intro` and `## Details`: the blank lines, the paragraph and the final newline hold no match |
| Markdown.NonSlugRunEnd | src/lib/markdown.ts:48 | a run of characters outside `[a-z0-9]` ends at the next letter or digit |
| Markdown.CollapseRunsShape | src/lib/markdown.ts:48 | `replace(/[^a-z0-9]+/g, '-')` yields letters, digits and single hyphens only; it keeps every letter and digit in order, is empty only on empty input, and starts with a hyphen exactly when the input starts outside `[a-z0-9]` |
| Markdown.CollapseFixesSlugs | src/lib/markdown.ts:48 | collapsing leaves an anchor slug unchanged |
| Markdown.SlugifyIdempotent | src/lib/markdown.ts:48 | the slug of a slug is itself |
| Markdown.SlugifyKeepsEdgeHyphens | src/lib/markdown.ts:48 | `Hello, World!` gives `hello-world-`: the trailing hyphen is kept |
| Markdown.CollapseWord | src/lib/markdown.ts:48 | letters and digits pass through collapsing unchanged |
| Markdown.CollapseRun | src/lib/markdown.ts:48 | a run outside `[a-z0-9]` before a letter, a digit or the end becomes one hyphen |
| Markdown.Headings | src/lib/markdown.ts:43 | the headings are the matched texts, one per span, in order |
| Markdown.GenerateToc | src/lib/markdown.ts:42-55 | the table has one entry per match, in document order, each built from its match |
| Markdown.HeadingTitleExamples | src/lib/markdown.ts:46-47 | `#\nfoo` has title `foo`, taken from the line after the `#`, and `#  ` has the empty title; both have level 1 |
| Markdown.TocEntryShape | src/lib/markdown.ts:45-50 | for a match: the level is 1 to 3 and equals the number of leading `#`; the title is the match without the `#` and the whitespace after them, holds no line terminator and does not start with whitespace; the url is `#` followed by the slug of that title, which is an anchor slug; there are no nested items |
| Markdown.GenerateTocShape | src/lib/markdown.ts:42-55 | every entry has a level from 1 to 3, a title without line terminators, and a url over `#[a-z0-9-]` without two hyphens in a row |
| Markdown.NoHashEmptyToc | src/lib/markdown.ts:43 | text without `#` gives an empty table |
| Markdown.EntryOfSimpleHeading | src/lib/markdown.ts:45-50 | `n` hashes, a space and one lower-casable word give that word as title, the lower-cased word as anchor, and level `n` |
| Markdown.TocOfTwoHeadings | src/lib/markdown.ts:42-55 | `# A\n## B` gives the entries (A, #a, 1) and (B, #b, 2), in that order |
| Markdown.TocOfFourHashes | src/lib/markdown.ts:42-55 | `#### X` gives one entry (X, #x, 3) |
| Markdown.TocOfMidLineHash | src/lib/markdown.ts:42-55 | `C# A` gives one entry (A, #a, 1) |
| Markdown.TocOfIntroDetails | src/lib/markdown.ts:42-55 | `# Intro\n\nText\n\n## Details\n` gives the entries (Intro, #intro, 1) and (Details, #details, 2), in that order |
| Markdown.TocOfOneSpan | src/lib/markdown.ts:43-51 | a body with one match gets exactly the entry of that match |
| Markdown.TocOfTwoSpans | src/lib/markdown.ts:43-51 | a body with two matches gets exactly their two entries, in document order |
| Markdown.HeadingLevel | src/lib/markdown.ts:46 | `heading.match(/^#+/)?.[0].length \|\| 1`: the number of leading `#`, or 1; for a match, `TocEntryShape` states it is 1 to 3 and equals the `#` count |
| Markdown.HeadingTitle | src/lib/markdown.ts:47 | `heading.replace(/^#+\s+/, '')`: the heading without its leading `#` and the whitespace after them; for a match, `TocEntryShape` states that the title is the text after that whitespace run, which may start on a later line, holds no line terminator, and is empty or starts with a non-space |
| Markdown.CollapseRuns | src/lib/markdown.ts:48 | `replace(/[^a-z0-9]+/g, '-')`: the result is no longer than the input and holds only letters, digits and hyphens; `CollapseRunsShape`, `CollapseWord` and `CollapseRun` state the rest |
| Markdown.Slugify | src/lib/markdown.ts:48 | the anchor slug of a title is letters, digits and single hyphens, keeps the title's lower-cased letters and digits in order, and is empty only for an empty title |
| Markdown.TocEntry | src/lib/markdown.ts:45-50 | `{ title, url: '#' + slug(title), level }` of one match, with no nested items; `TocEntryShape` states its contract |
| Markdown.GetProcessedBlogPost | src/lib/markdown.ts:60-75 | `null` exactly when the lookup is `null`; otherwise the metadata, including the reading time of the raw body, is unchanged, the content is the rendering of the raw body, and the table of contents is built from the raw body, not from the HTML |

## Left out

- `processMarkdown` (the unified/remark/rehype plugin chain) is not part of this model: it is the opaque parameter `render`.
- The filesystem calls (`existsSync`, `readdirSync`, `readFileSync`) and the frontmatter parser (gray-matter) are an input value. The model has no I/O, and a read or parse failure is one `None` per entry.
- `readdirSync` throwing on a directory that exists but cannot be listed is not modelled: an existing directory always yields its entries, so the listing has no error for that case.
- Reading a file by the joined path `<slug>.md` is a lookup of the entry with that name. Normalisation by `path.join` (`..`, separators inside a slug) is not modelled.
- `new Date(v).toISOString()` is the function `toIso`. It returns `None` where the source throws a RangeError. JavaScript date parsing itself is not modelled.
- Js.ToJsString: a `Num` prints all its decimal digits, whatever its size. JavaScript rounds integers beyond 2^53, and prints numbers of 1e21 or more as `1e+21` and the like.
- ProcessPostMetadata: `String(v)` of a `Date` value (a title, excerpt or author given as an unquoted date) is not the locale-formatted text JavaScript prints: the model prints the time value. `String(v)` of a fractional or non-finite number is not modelled: numbers are integers. The model's integers are also unbounded, while a JavaScript number rounds integers beyond 2^53 and `String` prints 1e21 and above in exponent form (`1e+21`); the model prints every digit. Every other object prints `[object Object]`.
- `localeCompare` on dates is compared code point by code point. This agrees with locale order on the ISO-8601 strings `toIso` produces for years 0000 to 9999. Years outside that range are written in the expanded form `+YYYYYY` or `-YYYYYY`, and those two forms sort differently against each other: locale collation puts `-` before `+`, while code-point order puts `+` (U+002B) before `-` (U+002D). So with a post from year 10000 and one from year -1, the source lists the year-10000 post first and the model lists the year -1 post first.
- Characters are Unicode scalar values, not UTF-16 code units, and string order compares them.
- `toLowerCase` covers ASCII letters only. Non-ASCII titles and tags keep their case in the model.
- The `console.error` call in `getBlogPost` and the async/`Promise` plumbing of `getProcessedBlogPost` are left out. The model is sequential.
- Nested `items` of a `TocItem` are never filled by the source, and the model always leaves them `None`.
- The page templates and UI components are not part of this model.
