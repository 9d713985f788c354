/** The blog post entry as the query layer sees it, and the defaults the content
    schema fills into front matter that leaves `draft` or `language` out. */
module Content {
  import opened Wrappers

  /** A post's front matter after schema parsing. `pubDate` is the timestamp of the
      parsed date; `language` stays optional because the query layer also meets
      entries that carry none */
  datatype Post = Post(
    title: string,
    description: string,
    pubDate: int,
    category: string,
    tags: seq<string>,
    draft: bool,
    language: Option<string>)

  /** Front matter as written in a post's file, before the schema's defaults */
  datatype FrontMatter = FrontMatter(
    title: string,
    description: string,
    pubDate: int,
    category: string,
    tags: seq<string>,
    draft: Option<bool>,
    language: Option<string>)

  const SchemaDefaultLanguage := "en"

  /** `draft` defaults to false and `language` to 'en'; a value that is present,
      the empty string included, is kept */
  function ApplySchemaDefaults(fm: FrontMatter): (p: Post)
    ensures p.language.Some?
    ensures p.draft <==> fm.draft == Some(true)
    ensures fm.language.Some? ==> p.language == fm.language
    ensures fm.language.None? ==> p.language == Some(SchemaDefaultLanguage)
    ensures p.title == fm.title && p.description == fm.description && p.pubDate == fm.pubDate
    ensures p.category == fm.category && p.tags == fm.tags
  {
    Post(fm.title, fm.description, fm.pubDate, fm.category, fm.tags,
         if fm.draft.Some? then fm.draft.value else false,
         if fm.language.Some? then fm.language else Some(SchemaDefaultLanguage))
  }
}
