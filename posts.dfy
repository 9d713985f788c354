/** The post query engine: `getPosts` with its per-language collection, its
    fallback to the main `blog` collection and its catch path, and the queries
    derived from it. */
module PostUtils {
  import opened Wrappers
  import opened Strings
  import opened Collections
  import opened Languages
  import opened Content
  import opened PostSort

  /** What `getCollection(name)` yields for one collection name: its entries,
      `undefined` for an unknown collection, or a rejected load */
  datatype Outcome = Found(entries: seq<Post>) | Missing | Error

  /** The content layer, as a total map from collection name to outcome */
  type Store = string -> Outcome

  /** Why a query rejects: the load of `blog` itself rejected, or it gave
      `undefined` and `.filter` was called on it */
  datatype LoadFailure = CollectionError | CollectionUndefined

  const MainCollection := "blog"

  /** `blog_${language}`: one collection per language, never the main one, and
      distinct languages never share a collection */
  function CollectionFor(language: string): (name: string)
    ensures name != MainCollection
    ensures |name| == |language| + 5 && name[5..] == language
  {
    "blog_" + language
  }

  /** `!post.data.draft` */
  predicate IsPublished(p: Post): (b: bool)
    ensures b <==> p.draft == false
  {
    !p.draft
  }

  /** `!post.data.language || post.data.language === language`: a post without a
      language, or with the empty one, matches every language */
  predicate MatchesLanguage(p: Post, language: string): (b: bool)
    ensures p.language.None? || p.language == Some("") ==> b
    ensures p.language.Some? && p.language.value != "" ==> (b <==> p.language.value == language)
  {
    p.language.None? || p.language.value == "" || p.language.value == language
  }

  function InLanguage(language: string): Post -> bool {
    (p: Post) => MatchesLanguage(p, language)
  }

  /** After the schema's defaults a post written without a language is an English
      post; an entry that reaches the query engine without one matches every
      language */
  lemma SchemaDefaultMakesPostEnglish(fm: FrontMatter, p: Post, language: string)
    requires fm.language.None? && p.language.None?
    ensures MatchesLanguage(ApplySchemaDefaults(fm), language) <==> language == SchemaDefaultLanguage
    ensures MatchesLanguage(p, language)
  {
  }

  /** `.filter(post => !post.data.draft).sort(newest first).slice(0, max)` */
  function Arrange(ps: seq<Post>, max: Option<int>): (r: seq<Post>)
    ensures forall i :: 0 <= i < |r| ==> IsPublished(r[i]) && r[i] in ps
    ensures SortedByDateDesc(r)
    ensures var sorted := SortByDate(Filter(ps, IsPublished)); |r| <= |sorted| && r == sorted[..|r|]
    ensures max.None? ==> multiset(r) == multiset(Filter(ps, IsPublished))
    ensures max.None? ==> r == SortByDate(Filter(ps, IsPublished))
  {
    var published := Filter(ps, IsPublished);
    var sorted := SortByDate(published);
    var r := SliceTo(sorted, max);
    forall i | 0 <= i < |r| ensures IsPublished(r[i]) && r[i] in ps {
      assert r[i] == sorted[i];
      assert sorted[i] in multiset(published);
    }
    forall i, j | 0 <= i < j < |r| ensures r[i].pubDate >= r[j].pubDate {
      assert r[i] == sorted[i] && r[j] == sorted[j];
    }
    r
  }

  /** The posts the pipeline starts from, chosen by an explicit decision over the
      two outcomes: the language's own collection when it has entries, otherwise
      the main collection's posts that match the language, otherwise a failure
      that depends on the main collection alone */
  function SourcePosts(store: Store, language: string): (r: Result<seq<Post>, LoadFailure>)
    ensures r.Failure? <==> !HasOwnPosts(store, language) && !store(MainCollection).Found?
    ensures r.Failure? ==> r.error == if store(MainCollection).Missing? then CollectionUndefined else CollectionError
    ensures HasOwnPosts(store, language) ==> r == Success(store(CollectionFor(language)).entries)
    ensures !HasOwnPosts(store, language) && r.Success? ==>
              IsSubsequence(r.value, store(MainCollection).entries) &&
              forall i :: 0 <= i < |r.value| ==> MatchesLanguage(r.value[i], language)
    ensures !HasOwnPosts(store, language) && store(MainCollection).Found? ==>
              forall p :: multiset(r.value)[p] ==
                if MatchesLanguage(p, language) then multiset(store(MainCollection).entries)[p] else 0
  {
    var own := store(CollectionFor(language));
    if own.Found? && |own.entries| > 0 then Success(own.entries)
    else match store(MainCollection)
      case Found(all) => Success(Filter(all, InLanguage(language)))
      case Missing => Failure(CollectionUndefined)
      case Error => Failure(CollectionError)
  }

  /** What `getPosts(max, language)` resolves to */
  function PostsOf(store: Store, max: Option<int>, language: string): (r: Result<seq<Post>, LoadFailure>)
    ensures r.Failure? <==> SourcePosts(store, language).Failure?
    ensures r.Failure? ==> r.error == SourcePosts(store, language).error
    ensures r.Success? ==>
              && SortedByDateDesc(r.value)
              && forall i :: 0 <= i < |r.value| ==> IsPublished(r.value[i]) && r.value[i] in SourcePosts(store, language).value
  {
    match SourcePosts(store, language)
    case Success(ps) => Success(Arrange(ps, max))
    case Failure(e) => Failure(e)
  }

  /** `getPosts`, step by step as written: the `try` block reassigns `posts` when
      the language's collection is undefined or empty, and any throw inside it
      (a rejected load, `.filter` on `undefined`) runs the `catch` block, which
      loads `blog` again and filters drafts before languages */
  method GetPosts(store: Store, max: Option<int>, language: string) returns (r: Result<seq<Post>, LoadFailure>)
    ensures r == PostsOf(store, max, language)
    ensures r.Success? ==> SortedByDateDesc(r.value)
    ensures r.Success? ==> forall i :: 0 <= i < |r.value| ==> !r.value[i].draft
  {
    var thrown: Option<LoadFailure> := None;
    var posts := store(CollectionFor(language));
    if posts.Error? {
      thrown := Some(CollectionError);
    } else if !posts.Found? || |posts.entries| == 0 {
      posts := store(MainCollection);
      if posts.Error? {
        thrown := Some(CollectionError);
      } else if posts.Missing? {
        thrown := Some(CollectionUndefined);
      } else {
        posts := Found(Filter(posts.entries, InLanguage(language)));
      }
    }
    if thrown.None? {
      return Success(Arrange(posts.entries, max));
    }
    // catch
    var fallback := store(MainCollection);
    if fallback.Error? {
      return Failure(CollectionError);
    } else if fallback.Missing? {
      return Failure(CollectionUndefined);
    }
    var published := Filter(fallback.entries, IsPublished);
    FilterCommutes(fallback.entries, IsPublished, InLanguage(language));
    r := Success(SliceTo(SortByDate(Filter(published, InLanguage(language))), max));
  }

  /** Own-collection shorthand: the language's collection exists and is non-empty */
  predicate HasOwnPosts(store: Store, language: string): (b: bool)
    ensures var own := store(CollectionFor(language));
            b <==> !(!own.Found? || |own.entries| == 0)
  {
    var own := store(CollectionFor(language));
    own.Found? && |own.entries| > 0
  }

  /** `getPosts(n)` is the first `min(n, |getPosts()|)` posts of `getPosts()`, and
      both fail together */
  lemma PostsPrefix(store: Store, n: int, language: string)
    requires n >= 0
    ensures PostsOf(store, Some(n), language).Success? <==> PostsOf(store, None, language).Success?
    ensures PostsOf(store, None, language).Success? ==>
              var all := PostsOf(store, None, language).value;
              PostsOf(store, Some(n), language).value == all[..if n < |all| then n else |all|]
  {
  }

  /** The unbounded result is exactly the published source posts, newest first, in
      their source order within each date, which makes it the stable sort of them */
  lemma PostsAreStableSortOfPublished(store: Store, language: string)
    requires SourcePosts(store, language).Success?
    ensures var published := Filter(SourcePosts(store, language).value, IsPublished);
            && PostsOf(store, None, language).Success?
            && multiset(PostsOf(store, None, language).value) == multiset(published)
            && forall d :: Filter(PostsOf(store, None, language).value, HasDate(d)) == Filter(published, HasDate(d))
  {
    var published := Filter(SourcePosts(store, language).value, IsPublished);
    forall d ensures Filter(PostsOf(store, None, language).value, HasDate(d)) == Filter(published, HasDate(d)) {
      SortIsStable(published, d);
    }
  }

  /** A non-empty language collection is used as it is: every published post in it
      is returned, whatever its `language`, and the main collection is not read */
  lemma OwnPostsUnfiltered(store: Store, other: Store, max: Option<int>, language: string)
    requires HasOwnPosts(store, language)
    requires other(CollectionFor(language)) == store(CollectionFor(language))
    ensures PostsOf(store, None, language).Success?
    ensures forall p :: p in store(CollectionFor(language)).entries && !p.draft ==>
              p in PostsOf(store, None, language).value
    ensures PostsOf(other, max, language) == PostsOf(store, max, language)
  {
    var own := store(CollectionFor(language)).entries;
    forall p | p in own && !p.draft ensures p in PostsOf(store, None, language).value {
      assert p in multiset(Filter(own, IsPublished));
    }
  }

  /** Without usable own posts, the result holds exactly the published posts of
      `blog` that match the language, and exists exactly when `blog` was found */
  lemma FallbackPostsMatchLanguage(store: Store, language: string)
    requires !HasOwnPosts(store, language)
    ensures PostsOf(store, None, language).Success? <==> store(MainCollection).Found?
    ensures PostsOf(store, None, language).Success? ==>
              forall p :: p in PostsOf(store, None, language).value <==>
                p in store(MainCollection).entries && !p.draft && MatchesLanguage(p, language)
  {
    if store(MainCollection).Found? {
      var all := store(MainCollection).entries;
      var matching := Filter(all, InLanguage(language));
      var r := PostsOf(store, None, language).value;
      forall p ensures p in r <==> p in all && !p.draft && MatchesLanguage(p, language) {
        assert p in r <==> p in multiset(r);
        assert p in matching <==> p in multiset(matching);
        assert p in all <==> p in multiset(all);
        assert p in Filter(matching, IsPublished) <==> p in multiset(Filter(matching, IsPublished));
      }
    }
  }

  /** `getPosts` rejects exactly when there are no own posts and `blog` cannot be
      loaded; which rejection depends on `blog` alone */
  lemma PostsFailOnlyWithoutBlog(store: Store, max: Option<int>, language: string)
    ensures PostsOf(store, max, language).Failure? <==>
              !HasOwnPosts(store, language) && !store(MainCollection).Found?
    ensures PostsOf(store, max, language).Failure? ==>
              PostsOf(store, max, language).error ==
                if store(MainCollection).Missing? then CollectionUndefined else CollectionError
  {
  }

  // ---- getCategories ----

  /** `posts.map(post => post.data.category)` */
  function CategoryList(posts: seq<Post>): (cs: seq<string>)
    ensures |cs| == |posts| && forall i :: 0 <= i < |posts| ==> cs[i] == posts[i].category
  {
    seq(|posts|, i requires 0 <= i < |posts| => posts[i].category)
  }

  /** `Array.from(new Set(posts.map(post => post.data.category)))`: each category
      once, in the order of the first post that has it */
  function CategoriesOf(posts: seq<Post>): (r: seq<string>)
    ensures NoDuplicates(r)
    ensures forall c :: c in r <==> exists p :: p in posts && p.category == c
    ensures forall c :: c in r <==> c in CategoryList(posts)
    ensures forall i, j :: 0 <= i < j < |r| ==>
              IndexOf(CategoryList(posts), r[i]) < IndexOf(CategoryList(posts), r[j])
  {
    var cs := CategoryList(posts);
    DistinctInFirstOccurrenceOrder(cs);
    forall c ensures c in cs <==> exists p :: p in posts && p.category == c {
      if c in cs {
        var i :| 0 <= i < |cs| && cs[i] == c;
        assert posts[i] in posts;
      }
    }
    Distinct(cs)
  }

  /** `getCategories(language)`: the categories of `getPosts(undefined, language)` */
  function GetCategories(store: Store, language: string): (r: Result<seq<string>, LoadFailure>)
    ensures r.Failure? <==> PostsOf(store, None, language).Failure?
    ensures r.Success? ==> r.value == CategoriesOf(PostsOf(store, None, language).value)
  {
    match PostsOf(store, None, language)
    case Failure(e) => Failure(e)
    case Success(posts) => Success(CategoriesOf(posts))
  }

  // ---- getTags ----

  /** `tags.map(tag => tag.toLowerCase())` */
  function LowerAll(tags: seq<string>): (r: seq<string>)
    ensures |r| == |tags| && forall k :: 0 <= k < |tags| ==> r[k] == Lower(tags[k])
  {
    seq(|tags|, k requires 0 <= k < |tags| => Lower(tags[k]))
  }

  /** Every lowered tag of every post, in the order the nested loops meet them */
  function LoweredTags(posts: seq<Post>): seq<string> {
    if posts == [] then []
    else LoweredTags(posts[..|posts| - 1]) + LowerAll(posts[|posts| - 1].tags)
  }

  /** A string is among the lowered tags exactly when it lowers some post's tag */
  lemma {:induction false} LoweredTagsMembership(posts: seq<Post>, t: string)
    ensures t in LoweredTags(posts) <==>
              exists i, k :: 0 <= i < |posts| && 0 <= k < |posts[i].tags| && Lower(posts[i].tags[k]) == t
  {
    if posts != [] {
      var front := posts[..|posts| - 1];
      var last := posts[|posts| - 1];
      LoweredTagsMembership(front, t);
      if t in LowerAll(last.tags) {
        var k :| 0 <= k < |last.tags| && LowerAll(last.tags)[k] == t;
        assert Lower(posts[|posts| - 1].tags[k]) == t;
      }
      if exists i, k :: 0 <= i < |posts| && 0 <= k < |posts[i].tags| && Lower(posts[i].tags[k]) == t {
        var i, k :| 0 <= i < |posts| && 0 <= k < |posts[i].tags| && Lower(posts[i].tags[k]) == t;
        if i < |posts| - 1 {
          assert front[i] == posts[i];
        } else {
          assert LowerAll(last.tags)[k] == t;
        }
      }
    }
  }

  /** One iteration of the inner loop: adding the next lowered tag to the set */
  lemma AddNextTag(before: seq<string>, tags: seq<string>, j: int)
    requires 0 <= j < |tags|
    ensures Distinct(before + LowerAll(tags[..j + 1])) ==
              var seen := Distinct(before + LowerAll(tags[..j]));
              if Lower(tags[j]) in seen then seen else seen + [Lower(tags[j])]
  {
    assert LowerAll(tags[..j + 1]) == LowerAll(tags[..j]) + [Lower(tags[j])];
    assert before + LowerAll(tags[..j + 1]) == (before + LowerAll(tags[..j])) + [Lower(tags[j])];
    DistinctSnoc(before + LowerAll(tags[..j]), Lower(tags[j]));
  }

  /** One iteration of the outer loop: the next post's tags follow the earlier ones */
  lemma NextPostTags(posts: seq<Post>, i: int)
    requires 0 <= i < |posts|
    ensures LoweredTags(posts[..i + 1]) == LoweredTags(posts[..i]) + LowerAll(posts[i].tags)
  {
    assert posts[..i + 1][..i] == posts[..i];
  }

  /** The inner `forEach` of `getTags`: adds each lowered tag of one post to the
      set `tags`, which holds the distinct values of `before` */
  method AddPostTags(tags: seq<string>, ghost before: seq<string>, postTags: seq<string>) returns (r: seq<string>)
    requires tags == Distinct(before)
    ensures r == Distinct(before + LowerAll(postTags))
  {
    r := tags;
    var j := 0;
    assert postTags[..0] == [];
    assert before + LowerAll(postTags[..0]) == before;
    while j < |postTags|
      invariant 0 <= j <= |postTags|
      invariant r == Distinct(before + LowerAll(postTags[..j]))
    {
      var tag := Lower(postTags[j]);
      AddNextTag(before, postTags, j);
      if tag !in r {
        r := r + [tag];
      }
      j := j + 1;
    }
    assert postTags[..j] == postTags;
  }

  /** `getTags`: the nested `forEach` loops add each lowered tag to a `Set`, whose
      insertion order `Array.from` keeps; the set is kept as a sequence without
      repeats */
  method GetTags(store: Store, language: string) returns (r: Result<seq<string>, LoadFailure>)
    ensures r.Failure? <==> PostsOf(store, None, language).Failure?
    ensures r.Success? ==> r.value == Distinct(LoweredTags(PostsOf(store, None, language).value))
  {
    var loaded := GetPosts(store, None, language);
    if loaded.Failure? {
      return Failure(loaded.error);
    }
    var posts := loaded.value;
    var tags: seq<string> := [];
    var i := 0;
    while i < |posts|
      invariant 0 <= i <= |posts|
      invariant tags == Distinct(LoweredTags(posts[..i]))
    {
      tags := AddPostTags(tags, LoweredTags(posts[..i]), posts[i].tags);
      NextPostTags(posts, i);
      i := i + 1;
    }
    assert posts[..i] == posts;
    return Success(tags);
  }

  /** The de-duplicated lowered tags of any posts: no repeats, nothing upper-case,
      and exactly the lowered forms of the posts' tags */
  lemma DistinctLoweredTags(posts: seq<Post>, tags: seq<string>)
    requires tags == Distinct(LoweredTags(posts))
    ensures NoDuplicates(tags)
    ensures forall t :: t in tags ==> !HasUpper(t)
    ensures forall t :: t in tags <==>
              exists p, k :: p in posts && 0 <= k < |p.tags| && Lower(p.tags[k]) == t
  {
    forall t ensures t in tags <==> exists p, k :: p in posts && 0 <= k < |p.tags| && Lower(p.tags[k]) == t {
      LoweredTagsMembership(posts, t);
      if exists p, k :: p in posts && 0 <= k < |p.tags| && Lower(p.tags[k]) == t {
        var p, k :| p in posts && 0 <= k < |p.tags| && Lower(p.tags[k]) == t;
        var i :| 0 <= i < |posts| && posts[i] == p;
        assert Lower(posts[i].tags[k]) == t;
      }
    }
    forall t | t in tags ensures !HasUpper(t) {
      var p, k :| p in posts && 0 <= k < |p.tags| && Lower(p.tags[k]) == t;
    }
  }

  /** What the tags say: no repeats, nothing upper-case, and exactly the lowered
      tags of the language's posts */
  lemma TagsAreLoweredPostTags(store: Store, language: string, tags: seq<string>)
    requires PostsOf(store, None, language).Success?
    requires tags == Distinct(LoweredTags(PostsOf(store, None, language).value))
    ensures NoDuplicates(tags)
    ensures forall t :: t in tags ==> !HasUpper(t)
    ensures forall t :: t in tags <==>
              exists p, k :: p in PostsOf(store, None, language).value && 0 <= k < |p.tags| && Lower(p.tags[k]) == t
  {
    DistinctLoweredTags(PostsOf(store, None, language).value, tags);
  }

  // ---- getPostByTag ----

  /** `post.data.tags.some(postTag => postTag.toLowerCase() === lowered)` */
  predicate HasLoweredTag(p: Post, lowered: string): (b: bool)
    ensures HasUpper(lowered) ==> !b
    ensures !HasUpper(lowered) ==> (b <==> exists k :: 0 <= k < |p.tags| && EqualIgnoringCase(p.tags[k], lowered))
  {
    if HasUpper(lowered) then
      forall k | 0 <= k < |p.tags| ensures Lower(p.tags[k]) != lowered {
        LowerNeverHasUpper(p.tags[k], lowered);
      }
      exists k :: 0 <= k < |p.tags| && Lower(p.tags[k]) == lowered
    else
      LowerFixesLowerCase(lowered);
      forall k | 0 <= k < |p.tags|
        ensures Lower(p.tags[k]) == lowered <==> EqualIgnoringCase(p.tags[k], lowered)
      {
        EqualIgnoringCaseLower(p.tags[k], lowered);
      }
      exists k :: 0 <= k < |p.tags| && Lower(p.tags[k]) == lowered
  }

  function TaggedWith(lowered: string): Post -> bool {
    (p: Post) => HasLoweredTag(p, lowered)
  }

  /** `getPostByTag(tag, language)`: the language's posts, in their order, that have a
      tag equal to `tag` once both are lowered */
  function GetPostByTag(store: Store, tag: string, language: string): (r: Result<seq<Post>, LoadFailure>)
    ensures r.Failure? <==> PostsOf(store, None, language).Failure?
    ensures r.Success? ==>
              var posts := PostsOf(store, None, language).value;
              && IsSubsequence(r.value, posts)
              && forall p :: multiset(r.value)[p] == if HasLoweredTag(p, Lower(tag)) then multiset(posts)[p] else 0
  {
    match PostsOf(store, None, language)
    case Failure(e) => Failure(e)
    case Success(posts) =>
      var r := Filter(posts, TaggedWith(Lower(tag)));
      assert forall p :: multiset(r)[p] == if HasLoweredTag(p, Lower(tag)) then multiset(posts)[p] else 0 by {
        forall p ensures multiset(r)[p] == if HasLoweredTag(p, Lower(tag)) then multiset(posts)[p] else 0 {
          assert TaggedWith(Lower(tag))(p) == HasLoweredTag(p, Lower(tag));
        }
      }
      Success(r)
  }

  /** Tags that differ only in letter case select the same posts */
  lemma PostByTagIgnoresCase(store: Store, a: string, b: string, language: string)
    requires EqualIgnoringCase(a, b)
    ensures GetPostByTag(store, a, language) == GetPostByTag(store, b, language)
  {
    EqualIgnoringCaseLower(a, b);
  }

  // ---- filterPostsByCategory ----

  /** `post.data.category.toLowerCase() === category`: only the stored side is lowered */
  function InCategory(category: string): (f: Post -> bool)
    ensures forall p :: f(p) <==> Lower(p.category) == category
    ensures HasUpper(category) ==> forall p :: !f(p)
  {
    if HasUpper(category) then
      forall p: Post ensures Lower(p.category) != category {
        LowerNeverHasUpper(p.category, category);
      }
      (p: Post) => Lower(p.category) == category
    else
      (p: Post) => Lower(p.category) == category
  }

  /** `filterPostsByCategory(category, language)`: the language's posts, in their
      order, whose lowered category equals the argument as given */
  function FilterPostsByCategory(store: Store, category: string, language: string): (r: Result<seq<Post>, LoadFailure>)
    ensures r.Failure? <==> PostsOf(store, None, language).Failure?
    ensures r.Success? ==>
              var posts := PostsOf(store, None, language).value;
              && IsSubsequence(r.value, posts)
              && forall p :: multiset(r.value)[p] == if Lower(p.category) == category then multiset(posts)[p] else 0
  {
    match PostsOf(store, None, language)
    case Failure(e) => Failure(e)
    case Success(posts) =>
      var r := Filter(posts, InCategory(category));
      assert forall p :: multiset(r)[p] == if Lower(p.category) == category then multiset(posts)[p] else 0 by {
        forall p ensures multiset(r)[p] == if Lower(p.category) == category then multiset(posts)[p] else 0 {
          assert InCategory(category)(p) == (Lower(p.category) == category);
        }
      }
      Success(r)
  }

  /** An argument with an upper-case letter matches no post, whatever the stored
      categories are */
  lemma UppercaseCategoryMatchesNothing(store: Store, category: string, language: string)
    requires HasUpper(category)
    requires PostsOf(store, None, language).Success?
    ensures FilterPostsByCategory(store, category, language) == Success([])
  {
  }

  // ---- getAllPosts ----

  /** `getAllPosts(max)`: every published post of `blog`, whatever its language,
      newest first, cut to `max`; here no `try` guards the load */
  function GetAllPosts(store: Store, max: Option<int>): (r: Result<seq<Post>, LoadFailure>)
    ensures r.Failure? <==> !store(MainCollection).Found?
    ensures r.Failure? ==> r.error == if store(MainCollection).Missing? then CollectionUndefined else CollectionError
    ensures r.Success? ==> SortedByDateDesc(r.value) && forall i :: 0 <= i < |r.value| ==>
              !r.value[i].draft && r.value[i] in store(MainCollection).entries
    ensures r.Success? ==>
              var sorted := SortByDate(Filter(store(MainCollection).entries, IsPublished));
              && |r.value| <= |sorted| && r.value == sorted[..|r.value|]
              && (max.None? ==> r.value == sorted)
  {
    match store(MainCollection)
    case Found(all) => Success(Arrange(all, max))
    case Missing => Failure(CollectionUndefined)
    case Error => Failure(CollectionError)
  }

  /** Only `blog` is read, no language filter applies, and the unbounded result holds
      every published post of `blog` */
  lemma AllPostsIgnoreLanguage(store: Store, other: Store, max: Option<int>)
    requires other(MainCollection) == store(MainCollection)
    ensures GetAllPosts(other, max) == GetAllPosts(store, max)
    ensures GetAllPosts(store, None).Success? ==>
              forall p :: p in store(MainCollection).entries && !p.draft ==> p in GetAllPosts(store, None).value
  {
    if store(MainCollection).Found? {
      var all := store(MainCollection).entries;
      forall p | p in all && !p.draft ensures p in GetAllPosts(store, None).value {
        assert p in multiset(Filter(all, IsPublished));
      }
    }
  }

  /** The unbounded result is a permutation of the published posts of `blog` that
      keeps each date group in `blog` order, so it is their stable sort */
  lemma AllPostsAreStableSortOfPublished(store: Store)
    requires store(MainCollection).Found?
    ensures var published := Filter(store(MainCollection).entries, IsPublished);
            && GetAllPosts(store, None).Success?
            && multiset(GetAllPosts(store, None).value) == multiset(published)
            && forall d :: Filter(GetAllPosts(store, None).value, HasDate(d)) == Filter(published, HasDate(d))
  {
    var published := Filter(store(MainCollection).entries, IsPublished);
    forall d ensures Filter(GetAllPosts(store, None).value, HasDate(d)) == Filter(published, HasDate(d)) {
      SortIsStable(published, d);
    }
  }

  // ---- getAvailableLanguages ----

  /** `post.data.language || DEFAULT_LANGUAGE` */
  function LanguageOrDefault(p: Post): (l: string)
    ensures l != ""
    ensures l == DefaultLanguage || p.language == Some(l)
    ensures p.language.Some? && p.language.value != "" ==> l == p.language.value
  {
    if p.language.Some? && p.language.value != "" then p.language.value else DefaultLanguage
  }

  function LanguageList(posts: seq<Post>): (ls: seq<string>)
    ensures |ls| == |posts| && forall i :: 0 <= i < |posts| ==> ls[i] == LanguageOrDefault(posts[i])
  {
    seq(|posts|, i requires 0 <= i < |posts| => LanguageOrDefault(posts[i]))
  }

  /** `getAvailableLanguages()`: the languages of `getAllPosts()`, each once, in the
      order of the first post that has it */
  function GetAvailableLanguages(store: Store): (r: Result<seq<string>, LoadFailure>)
    ensures r.Failure? <==> !store(MainCollection).Found?
    ensures r.Success? ==>
              var posts := GetAllPosts(store, None).value;
              && NoDuplicates(r.value)
              && (forall l :: l in r.value <==> exists p :: p in posts && LanguageOrDefault(p) == l)
              && (forall l :: l in r.value <==> l in LanguageList(posts))
              && forall i, j :: 0 <= i < j < |r.value| ==>
                   IndexOf(LanguageList(posts), r.value[i]) < IndexOf(LanguageList(posts), r.value[j])
  {
    match GetAllPosts(store, None)
    case Failure(e) => Failure(e)
    case Success(posts) =>
      var ls := LanguageList(posts);
      DistinctInFirstOccurrenceOrder(ls);
      forall l ensures l in ls <==> exists p :: p in posts && LanguageOrDefault(p) == l {
        if l in ls {
          var i :| 0 <= i < |ls| && ls[i] == l;
          assert posts[i] in posts;
        }
      }
      Success(Distinct(ls))
  }
}
