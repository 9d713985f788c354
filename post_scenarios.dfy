/** Worked examples of the query engine on small stores. */
module PostScenarios {
  import opened Wrappers
  import opened Collections
  import opened Content
  import opened PostSort
  import opened PostUtils

  const First := Post("First", "", 20240101, "tech", ["JS"], false, Some("en"))
  const Second := Post("Second", "", 20240102, "tech", ["js", "Astro"], false, None)
  const Unpublished := Post("Unpublished", "", 20240103, "tech", [], true, Some("en"))
  const Spanish := Post("Spanish", "", 20240103, "tech", [], false, Some("es"))

  /** Only the main collection exists */
  function SharedStore(): Store {
    (name: string) => if name == MainCollection then Found([First, Second, Unpublished, Spanish]) else Missing
  }

  /** No `blog_es`, and a main collection holding one Spanish post */
  function SpanishOnlyStore(): Store {
    (name: string) => if name == MainCollection then Found([Spanish]) else Missing
  }

  lemma FilterOfTwo<T(!new)>(a: T, b: T, keep: T -> bool)
    ensures Filter([a, b], keep) == (if keep(a) then [a] else []) + (if keep(b) then [b] else [])
  {
    assert [a, b] == [a] + [b];
    FilterCons(b, [], keep);
    FilterCons(a, [b], keep);
  }

  lemma KeepOnlySecond<T(!new)>(a: T, b: T, keep: T -> bool)
    requires !keep(a) && keep(b)
    ensures Filter([a, b], keep) == [b]
  {
    FilterOfTwo(a, b, keep);
  }

  /** Sorting two posts puts the newer first, and keeps them in place on a tie */
  lemma SortTwo(a: Post, b: Post)
    ensures SortByDate([a, b]) == if a.pubDate >= b.pubDate then [a, b] else [b, a]
  {
    assert [a, b][1..] == [b];
    assert [b][1..] == [];
  }

  /** The names "blog_en" and "blog_es" are not the main collection's */
  lemma LanguageCollectionsAreNotMain()
    ensures CollectionFor("en") != MainCollection && CollectionFor("es") != MainCollection
  {
    assert |CollectionFor("en")| == 7 && |CollectionFor("es")| == 7;
  }

  lemma EnglishMatches()
    ensures Filter([First, Second, Unpublished, Spanish], InLanguage("en")) == [First, Second, Unpublished]
  {
    var english := InLanguage("en");
    assert !english(Spanish) by { assert "es"[1] != "en"[1]; }
    assert english(First) && english(Second) && english(Unpublished);
    assert [First, Second, Unpublished, Spanish] == [First, Second, Unpublished] + [Spanish];
    KeepAllButLast([First, Second, Unpublished], Spanish, english);
  }

  lemma EnglishPublished()
    ensures Filter([First, Second, Unpublished], IsPublished) == [First, Second]
  {
    assert [First, Second, Unpublished] == [First, Second] + [Unpublished];
    KeepAllButLast([First, Second], Unpublished, IsPublished);
  }

  /** English: the draft and the Spanish post drop out, the post without a language
      stays, and the newer post comes first */
  lemma EnglishFromSharedStore()
    ensures PostsOf(SharedStore(), None, "en") == Success([Second, First])
  {
    LanguageCollectionsAreNotMain();
    var store := SharedStore();
    assert store(CollectionFor("en")) == Missing;
    assert store(MainCollection) == Found([First, Second, Unpublished, Spanish]);
    EnglishMatches();
    assert SourcePosts(store, "en") == Success([First, Second, Unpublished]);
    EnglishPublished();
    SortTwo(First, Second);
    assert Arrange([First, Second, Unpublished], None) == [Second, First];
  }

  lemma SpanishMatches()
    ensures Filter([First, Second, Unpublished, Spanish], InLanguage("es")) == [Second, Spanish]
  {
    var spanish := InLanguage("es");
    assert !spanish(First) && !spanish(Unpublished) by { assert "en"[1] != "es"[1]; }
    assert spanish(Second) && spanish(Spanish);
    assert [First, Second, Unpublished, Spanish] == [First, Second] + [Unpublished, Spanish];
    FilterAppend([First, Second], [Unpublished, Spanish], spanish);
    KeepOnlySecond(First, Second, spanish);
    KeepOnlySecond(Unpublished, Spanish, spanish);
    assert [Second] + [Spanish] == [Second, Spanish];
  }

  /** Spanish: the post without a language is returned for Spanish as well */
  lemma SpanishFromSharedStore()
    ensures PostsOf(SharedStore(), None, "es") == Success([Spanish, Second])
  {
    LanguageCollectionsAreNotMain();
    var store := SharedStore();
    assert store(CollectionFor("es")) == Missing;
    assert store(MainCollection) == Found([First, Second, Unpublished, Spanish]);
    SpanishMatches();
    assert SourcePosts(store, "es") == Success([Second, Spanish]);
    FilterOfTwo(Second, Spanish, IsPublished);
    assert [Second] + [Spanish] == [Second, Spanish];
    SortTwo(Second, Spanish);
    assert Arrange([Second, Spanish], None) == [Spanish, Second];
  }

  /** Without `blog_es` the engine falls back to the main collection and finds the
      one Spanish post */
  lemma SpanishFallback()
    ensures PostsOf(SpanishOnlyStore(), None, "es") == Success([Spanish])
  {
    LanguageCollectionsAreNotMain();
    var store := SpanishOnlyStore();
    assert store(CollectionFor("es")) == Missing;
    assert store(MainCollection) == Found([Spanish]);
    assert [Spanish] + [] == [Spanish];
    assert InLanguage("es")(Spanish);
    FilterCons(Spanish, [], InLanguage("es"));
    assert SourcePosts(store, "es") == Success([Spanish]);
    FilterCons(Spanish, [], IsPublished);
    assert [Spanish][1..] == [];
  }

  lemma KeepAllButLast<T(!new)>(xs: seq<T>, x: T, keep: T -> bool)
    requires forall i :: 0 <= i < |xs| ==> keep(xs[i])
    requires !keep(x)
    ensures Filter(xs + [x], keep) == xs
  {
    FilterAppend(xs, [x], keep);
    FilterKeepsAll(xs, keep);
    FilterCons(x, [], keep);
  }
}
