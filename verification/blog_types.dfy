/** The records the pipeline produces and the page templates consume. */
module BlogTypes {

  import opened Results
  import opened Js

  /** `avatar` and `bio` are copied from the frontmatter as they are (`Undefined` when absent). */
  datatype BlogAuthor = BlogAuthor(name: string, avatar: Value, bio: Value)

  /** Summary of one post; `tags` are the frontmatter list, passed through unchanged. */
  datatype BlogMeta = BlogMeta(
    slug: string,
    title: string,
    date: string,
    excerpt: string,
    author: BlogAuthor,
    tags: seq<Value>,
    readingTime: Option<string>,
    featured: bool)

  /** A table-of-contents entry; `level` is emitted by the generator although the declared type lacks it. */
  datatype TocItem = TocItem(title: string, url: string, level: nat, items: Option<seq<TocItem>>)

  datatype TableOfContents = TableOfContents(items: seq<TocItem>)

  /** A full post: its metadata, its content (raw markdown, or HTML once rendered) and an optional TOC. */
  datatype BlogPost = BlogPost(meta: BlogMeta, content: string, toc: Option<TableOfContents>)

}
