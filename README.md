# Localized content queries of a personal Astro blog

This project models two layers of the blog: the part that decides a reader's
language and the part that chooses which posts a page shows.

- **Language registry and UI strings.** `src/data/languages.ts` defines the two
  registered languages, English (`en`, the default) and Spanish (`es`). It also
  defines their locales, code lookup, default-language selection, and the
  eleven-key translation table with its English fallback.
- **Site configuration overlay.** `src/data/site.config.ts` defines the base
  configuration. `getSiteConfig` overlays a registered language's locale fields
  and share message on it.
- **Language resolution and path codec.** `src/utils/language.ts` covers:
  - reading the browser language;
  - storing and reading the preferred language in client storage;
  - choosing the current language in the order stored, then browser, then default;
  - reading, testing, stripping and adding the language prefix of a URL path.
- **Post queries.** `src/utils/post.ts` implements `getPosts`: it uses the
  language's own collection `blog_<code>` when that collection exists and is
  non-empty. Otherwise it falls back to the main `blog` collection, filtered by
  language. It then drops drafts, sorts newest first and cuts to `max`. The
  derived queries are categories, lowered tags, posts by tag, posts by category,
  all posts, and the available languages.
- **Schema defaults.** Lines 16-17 of `src/content/config.ts` make `draft`
  default to `false` and `language` default to `"en"`.

## Module layout

| file | module | contents |
|---|---|---|
| `wrappers.dfy` | `Wrappers` | `Option` and `Result` |
| `collections.dfy` | `Collections` | the array operations the source uses: `filter`; `new Set` followed by `Array.from` (first-occurrence de-duplication); `slice(0, max)` |
| `strings.dfy` | `Strings` | `split`, `join`, `startsWith` and `toLowerCase` |
| `languages.dfy` | `Languages` | the registry, lookups and translations |
| `site_config.dfy` | `SiteConfigs` | the configuration record and its overlay |
| `language_utils.dfy` | `LanguageUtils` | browser and storage resolution, the path codec, and its segment laws |
| `language_path_laws.dfy` | `LanguagePathLaws` | the path codec on paths in normal form, and worked paths |
| `content.dfy` | `Content` | the post record and the schema defaults |
| `post_sort.dfy` | `PostSort` | the newest-first stable sort, and the proof that it is the only stable order |
| `posts.dfy` | `PostUtils` | `getPosts` and every query built on it |
| `post_scenarios.dfy` | `PostScenarios` | concrete collections and the posts each language receives from them |

How the environment is modelled:

- **`getCollection`** becomes a `Store`, a total map from a collection name to one of three outcomes:
  - `Found(entries)`;
  - `Missing`: the promise resolves to `undefined`, so `undefined.filter` throws a `TypeError`;
  - `Error`: the promise rejects.

  The query results are `Result<_, LoadFailure>`. They fail exactly when the
  JavaScript promise would reject.
- **`typeof window !== 'undefined'`** becomes an `Option<Window>`.
  `navigator.language` is that window's field.
- **`localStorage`** becomes the class `LanguageUtils.ClientStorage`. Its single
  field `preferredLanguage` is updated in place by `SetStoredLanguage`.
- **Loops.** `getPosts` is a method written out as the source runs it: the
  `try` block reassigns `posts`, and a thrown error leads to the `catch` block.
  It is proved against the specification function `PostsOf`. `getTags` is a
  method with the two nested `forEach` loops. It is proved against
  `Distinct(LoweredTags(..))`.
- **Sorting.** `Array.prototype.sort` with the comparator
  `b.pubDate - a.pubDate` is stable, so the model has `SortByDate`, an insertion
  sort. `PostSort.SortIsTheStableSort` shows it is the unique newest-first order
  that keeps posts of equal date in their original order.
- **Truthiness.** `!post.data.language` holds for a missing language and for
  `""`. `post.data.language || DEFAULT_LANGUAGE` replaces both.

Behaviour of the code worth knowing (the model follows the code):

- **A post without a language matches every language.** The filter at
  `src/utils/post.ts:21` keeps a post without a language, or with `""`, for every
  requested language, not only for the default. The schema default `"en"` means
  posts read through the content layer normally carry a language.
  `PostUtils.SchemaDefaultMakesPostEnglish` states both sides.
- **Only the stored category is lowered.** `filterPostsByCategory` lowers the
  stored category but compares it with the argument as given. An argument with an
  upper-case letter therefore matches nothing
  (`PostUtils.UppercaseCategoryMatchesNothing`).
- **Stripping after adding the default is not the identity on stripped paths.**
  Adding the default language is stripping. A path carrying two codes keeps the
  second one: `/en/es/x` becomes `/es/x` (`LanguagePathLaws.DefaultEncodingExample`).
  For a non-default code, stripping after adding gives the same segments as
  stripping alone (`LanguageUtils.RemoveAfterAddLanguage`).
- **The round-trip laws need a rooted path.** They require the path to be `""` or
  to start with `/`. `addLanguageToPath` glues the code directly to a path without
  a leading slash.

## Model

| member | source | states |
|---|---|---|
| `Languages.IsSupported` | src/utils/language.ts:10-12 | `supportedLanguages.includes(code)` over `LANGUAGES.map(lang => lang.code)` (and `LANGUAGES.some(lang => lang.code === code)` at language.ts:40, 52 and 68): some registry entry carries the code |
| `Languages.SupportedCodes` | src/data/languages.ts:9-26 | a code is registered exactly when it is `en` or `es` |
| `Languages.RegistryWellFormed` | src/data/languages.ts:9-26 | registry codes are pairwise distinct, non-empty and free of `/` and `-`; the default language is registered |
| `Languages.SupportedCodeShape` | src/data/languages.ts:9-24 | a registered code is non-empty and has no `/` or `-`, so it is a whole path segment and a whole primary subtag |
| `Languages.FindByCode` | src/data/languages.ts:28-30 | `find` returns the first entry with the code; it returns nothing exactly when no entry has it |
| `Languages.GetLanguageByCode` | src/data/languages.ts:28-30 | the result is a registry entry with the code; it is undefined exactly for unregistered codes |
| `Languages.LookupRegistered` | src/data/languages.ts:28-30 | looking up a registry entry's code returns that entry |
| `Languages.EntryOrFirst` | src/data/languages.ts:32-34 | `find(..) \|\| LANGUAGES[0]`: the matching entry if there is one, else the first entry; nothing only for an empty list |
| `Languages.GetDefaultLanguage` | src/data/languages.ts:32-34 | the default language's entry is the registry's first entry |
| `Languages.EnglishComplete` | src/data/languages.ts:38-50 | the English table maps every translation key to a non-empty string |
| `Languages.SpanishComplete` | src/data/languages.ts:51-63 | the Spanish table maps every translation key to a non-empty string |
| `Languages.TranslationsComplete` | src/data/languages.ts:37-66 | every table has every key of the English table, with a non-empty value |
| `Languages.GetTranslation` | src/data/languages.ts:69-72 | the result is non-empty; it is the language's own entry or the English one |
| `Languages.TranslationOfSupported` | src/data/languages.ts:69-72 | a language with a table gets its own string |
| `Languages.TranslationFallsBackToEnglish` | src/data/languages.ts:71 | a language without a table gets the English string |
| `SiteConfigs.GetSiteConfig` | src/data/site.config.ts:27-39 | the author, title, description, page size and default language are always the base ones; an unregistered code gives the base configuration; a registered code gives its own locale, OG locale and translated share message |
| `SiteConfigs.SiteConfigOfRegistered` | src/data/site.config.ts:33-38 | each registry entry's locale fields and share message are the ones overlaid |
| `SiteConfigs.DefaultSiteConfig` | src/data/site.config.ts:15-31 | the default code reproduces the base configuration (`en-GB`, `en_GB`, `Share this post`) |
| `SiteConfigs.SpanishSiteConfig` | src/data/site.config.ts:33-38 | `es` gives `es-ES`, `es_ES` and the Spanish share message |
| `LanguageUtils.GetBrowserLanguage` | src/utils/language.ts:4-17 | the result is always registered; without a window it is the default; otherwise it is the primary subtag of `navigator.language` when that subtag is registered, and the default when it is not |
| `LanguageUtils.ClientStorage.constructor` | src/utils/language.ts:25-34 | the `localStorage` entry `preferredLanguage`, read at line 25 and written at line 34; a new storage holds no preference |
| `LanguageUtils.GetStoredLanguage` | src/utils/language.ts:20-26 | null without a window; otherwise the stored preference |
| `LanguageUtils.SetStoredLanguage` | src/utils/language.ts:29-35 | with a window, the storage now holds the code, and reading it back gives that code; without a window, nothing changes |
| `LanguageUtils.GetCurrentLanguage` | src/utils/language.ts:38-45 | the result is always registered; a registered stored preference wins; anything else falls through to the browser language |
| `LanguageUtils.UnsupportedStoredLanguageSkipped` | src/utils/language.ts:38-45 | a stored `fr` with a Spanish browser resolves to `es` |
| `LanguageUtils.Segments` | src/utils/language.ts:49 | `split('/').filter(Boolean)` yields only non-empty segments without `/` |
| `LanguageUtils.SegmentsStart` | src/utils/language.ts:49-51 | there are no segments exactly when the path is all slashes; otherwise the first segment is the text after the leading slashes up to the next slash |
| `LanguageUtils.GetLanguageFromPath` | src/utils/language.ts:48-57 | the result is always registered; it is the leading segment when that is a code, and the default otherwise |
| `LanguageUtils.HasLanguageInPath` | src/utils/language.ts:60-63 | true exactly when the leading segment is a non-default code or the path starts with `/en/` |
| `LanguageUtils.SegmentsOfRooted` | src/utils/language.ts:67-69 | `'/' + parts.join('/')` splits back into `parts` when every part is non-empty and slash-free |
| `LanguageUtils.RemoveLanguageFromPath` | src/utils/language.ts:66-72 | a path whose leading segment is not a code is returned unchanged; otherwise the result is `/` followed by the remaining segments, in normal form |
| `LanguageUtils.AddLanguageToPath` | src/utils/language.ts:75-82 | the default code only strips; any other code is written as `/` and the code, followed by the stripped path as it is (unnormalised, and with no leading slash added), or by nothing when the stripped path is `/` |
| `LanguageUtils.SegmentsAfterCode` | src/utils/language.ts:81 | `'/' + code + rest` has the code as first segment, followed by the segments of `rest` |
| `LanguageUtils.RemoveKeepsRooted` | src/utils/language.ts:66-72 | stripping a path that is empty or starts with `/` gives such a path again |
| `LanguageUtils.AddLanguageSegments` | src/utils/language.ts:75-82 | the segments of an encoded rooted path are the code followed by the segments of the stripped path |
| `LanguageUtils.AddLanguageRoundTrip` | src/utils/language.ts:48-82 | a rooted path encoded with a non-default code decodes to that code and reports a language |
| `LanguageUtils.RemoveAfterAddLanguage` | src/utils/language.ts:66-82 | stripping an encoded rooted path gives the same segments as stripping the path alone |
| `LanguagePathLaws.DecodeNormalPath` | src/utils/language.ts:48-57 | a path in normal form decodes to its first segment when that is a code, and to the default otherwise |
| `LanguagePathLaws.StripNormalPath` | src/utils/language.ts:66-72 | stripping a normal-form path that starts with a code removes exactly that segment |
| `LanguagePathLaws.DefaultEncodingStripsDefault` | src/utils/language.ts:75-77 | encoding `/en/...` with the default leaves the path without `en` |
| `LanguagePathLaws.DefaultEncodingOfDoublePrefixedPath` | src/utils/language.ts:75-77 | encoding `/en/<code>/...` with the default keeps the second code |
| `LanguagePathLaws.DecodeLeadingCode` | src/utils/language.ts:48-57 | a normal-form path that starts with a code decodes to it |
| `LanguagePathLaws.StripLeadingCode` | src/utils/language.ts:66-72 | a normal-form path that starts with a code loses exactly that segment |
| `LanguagePathLaws.DefaultEncodingExample` | src/utils/language.ts:75-77 | `/en/es/x` encoded with the default is `/es/x` |
| `LanguagePathLaws.DefaultEncodingExampleDecodes` | src/utils/language.ts:48-57 | the re-encoded `/es/x` decodes to `es`, not to the default |
| `LanguagePathLaws.DefaultEncodingExampleStrips` | src/utils/language.ts:66-72 | stripping `/es/x` gives `/x`, so stripping after adding the default differs from stripping alone |
| `LanguagePathLaws.DecodeExampleSpanish` | src/utils/language.ts:48-57 | `/es/blog/post-1` decodes to `es` |
| `LanguagePathLaws.DecodeExampleUnprefixed` | src/utils/language.ts:48-57 | `/blog/post-1` decodes to the default |
| `LanguagePathLaws.PrefixedByDefault` | src/utils/language.ts:62 | a normal-form path starts with `/en/` exactly when its first segment is `en` and another segment follows |
| `LanguagePathLaws.HasLanguageOfNormalPath` | src/utils/language.ts:60-63 | a normal-form path reports a language exactly when its first segment is a non-default code, or is the default code followed by another segment |
| `LanguagePathLaws.HasLanguageExampleRootPrefix` | src/utils/language.ts:60-63 | `/en/` reports a language |
| `LanguagePathLaws.HasLanguageExampleSlashed` | src/utils/language.ts:60-63 | `/en/x` reports a language |
| `LanguagePathLaws.HasLanguageExampleBare` | src/utils/language.ts:60-63 | `/en` reports no language: it has no trailing slash and carries the default code |
| `LanguagePathLaws.HasLanguageExampleUnprefixed` | src/utils/language.ts:60-63 | `/blog/post-1` reports no language |
| `Content.ApplySchemaDefaults` | src/content/config.ts:16-17 | a parsed post always has a language; a missing language becomes `en`; a missing draft flag counts as `false`; every other field is copied |
| `Collections.Filter` | src/utils/post.ts:20-22 | `filter` keeps an order-preserving subsequence; each element's count is kept when it passes and is zero when it does not |
| `Collections.FilterCommutes` | src/utils/post.ts:33-34 | the draft filter and the language filter of the `catch` path can run in either order |
| `Collections.Distinct` | src/utils/post.ts:6-7 | `Array.from(new Set(xs))` has no repeats and the same members as `xs` |
| `Collections.DistinctInFirstOccurrenceOrder` | src/utils/post.ts:6-7 | the de-duplicated values come in the order of their first occurrence |
| `Collections.SliceTo` | src/utils/post.ts:28 | `slice(0, max)` is a prefix: the whole list when `max` is undefined, `min(max, n)` elements for `max >= 0`, and `max` counted from the end when negative |
| `Strings.Lower` | src/utils/post.ts:45 | lowering keeps the length and leaves no upper-case letter |
| `Strings.LowerIdempotent` | src/utils/post.ts:45 | lowering twice is lowering once |
| `Strings.EqualIgnoringCaseLower` | src/utils/post.ts:54-56 | two strings have equal lowered forms exactly when they agree letter by letter up to case |
| `Strings.JoinSplit` | src/utils/language.ts:67-69 | `s.split(sep).join(sep) == s` |
| `Strings.SplitJoin` | src/utils/language.ts:67-69 | joining separator-free parts with `sep` and splitting by `sep` gives the parts back |
| `Strings.SplitHead` | src/utils/language.ts:9 | `split('-')[0]` is the text before the first `-` |
| `Strings.Split` | src/utils/language.ts:9 | `split(sep)` gives at least one piece, and no piece holds the separator |
| `Strings.JoinSeparators` | src/utils/language.ts:69 | about `Strings.Join`, the model of `join(sep)`: `join(sep)` of no parts is `""`; the result starts with the first part; separator-free parts give `\|parts\| - 1` separators in all (where they sit is pinned down by `Strings.SplitJoin`, which recovers the parts from the result) |
| `Strings.StartsWith` | src/utils/language.ts:62 | `s.startsWith(prefix)` holds exactly when `s` is `prefix` followed by some rest |
| `Strings.LowerFixesLowerCase` | src/utils/post.ts:54 | a string without capitals is its own lower-case form |
| `PostSort.InsertByDate` | src/utils/post.ts:27 | inserting adds exactly the one post |
| `PostSort.InsertKeepsSorted` | src/utils/post.ts:27 | insertion into a newest-first list keeps it newest first |
| `PostSort.SortByDate` | src/utils/post.ts:27 | the sort is newest first and a permutation of its input |
| `PostSort.InsertKeepsDateGroups` | src/utils/post.ts:27 | insertion puts the post in front of the posts already in its date group and leaves the other groups alone |
| `PostSort.SortIsStable` | src/utils/post.ts:27 | posts of equal date keep their original order |
| `PostSort.DateGroupsDetermineSorted` | src/utils/post.ts:27 | two newest-first lists with the same date groups are equal |
| `PostSort.SortIsTheStableSort` | src/utils/post.ts:27 | every stable newest-first arrangement of the posts is the sort's result |
| `PostUtils.SchemaDefaultMakesPostEnglish` | src/utils/post.ts:20-22 | a post defaulted by the schema matches only `en`; a post without any language matches every language |
| `PostUtils.CollectionFor` | src/utils/post.ts:13 | a language's collection name is `blog_` and the code; it is never `blog`, and different codes give different names |
| `PostUtils.IsPublished` | src/utils/post.ts:26 | `!post.data.draft` (also at post.ts:33 and 69): a post is published exactly when its draft flag is false |
| `PostUtils.HasOwnPosts` | src/utils/post.ts:17 | the negation of `!posts \|\| posts.length === 0`: the language's collection was found and has entries |
| `PostUtils.MatchesLanguage` | src/utils/post.ts:21 | a post without a language, or with `""`, matches every language; a post with a language matches exactly that language |
| `PostUtils.SourcePosts` | src/utils/post.ts:13-23 | own posts when the language's collection is non-empty; otherwise an order-preserving selection of `blog` posts that match the language, keeping every matching `blog` post with its count; fails exactly when there are no own posts and `blog` does not load, with the kind of failure |
| `PostUtils.PostsOf` | src/utils/post.ts:10-38 | fails exactly when the source posts do, with the same error; otherwise newest first, published only, every post drawn from the source posts |
| `PostUtils.Arrange` | src/utils/post.ts:25-28 | the result holds only published input posts; it is newest first; it is a prefix of the sorted published posts, and all of them when `max` is undefined |
| `PostUtils.GetPosts` | src/utils/post.ts:10-38 | the `try`/`catch` method computes `PostsOf`; a successful result is newest first and has no drafts |
| `PostUtils.PostsPrefix` | src/utils/post.ts:25-28 | `getPosts(n)` succeeds exactly when `getPosts()` does, and is its first `min(n, length)` posts |
| `PostUtils.PostsAreStableSortOfPublished` | src/utils/post.ts:25-27 | the unbounded result is a permutation of the published source posts, with each date group in source order |
| `PostUtils.OwnPostsUnfiltered` | src/utils/post.ts:13-17 | a non-empty own collection is used as it is: every published post in it is returned whatever its language field, and no other collection is read |
| `PostUtils.FallbackPostsMatchLanguage` | src/utils/post.ts:17-23 | without own posts the query succeeds exactly when `blog` loads; a post is returned exactly when it is in `blog`, published and matching the language |
| `PostUtils.PostsFailOnlyWithoutBlog` | src/utils/post.ts:29-37 | the query rejects exactly when there are no own posts and `blog` does not load; an undefined `blog` and a rejected `blog` are told apart |
| `PostUtils.CategoryList` | src/utils/post.ts:6 | `posts.map(post => post.data.category)`: one category per post, in post order |
| `PostUtils.CategoriesOf` | src/utils/post.ts:6-7 | the categories have no repeats and include exactly the posts' categories, in order of first use |
| `PostUtils.GetCategories` | src/utils/post.ts:4-8 | the query fails exactly when `getPosts` does; otherwise it gives the categories of `getPosts` |
| `PostUtils.LoweredTagsMembership` | src/utils/post.ts:43-47 | a string is among the lowered tags exactly when it is the lowered form of some post's tag |
| `PostUtils.AddPostTags` | src/utils/post.ts:44-46 | the inner loop adds one post's lowered tags to the set, giving the de-duplication of everything met so far |
| `PostUtils.GetTags` | src/utils/post.ts:40-50 | the query fails exactly when `getPosts` does; otherwise the nested loops give the de-duplicated lowered tags in the order met |
| `PostUtils.DistinctLoweredTags` | src/utils/post.ts:42-49 | the de-duplicated lowered tags of any posts have no repeats and no capitals, and are exactly the lowered forms of the posts' tags |
| `PostUtils.TagsAreLoweredPostTags` | src/utils/post.ts:40-50 | the tags have no repeats and no upper-case letter, and are exactly the lowered tags of the posts |
| `PostUtils.GetPostByTag` | src/utils/post.ts:52-58 | the query fails exactly when `getPosts` does; otherwise it gives, in order, exactly the posts with a tag equal to the argument up to case |
| `PostUtils.PostByTagIgnoresCase` | src/utils/post.ts:52-58 | tags differing only in case select the same posts |
| `PostUtils.FilterPostsByCategory` | src/utils/post.ts:60-63 | the query fails exactly when `getPosts` does; otherwise it gives, in order, exactly the posts whose lowered category equals the argument |
| `PostUtils.UppercaseCategoryMatchesNothing` | src/utils/post.ts:62 | an argument with an upper-case letter selects no post |
| `PostUtils.HasLoweredTag` | src/utils/post.ts:56 | for a lower-case argument, a post qualifies exactly when one of its tags equals it up to case; an argument with a capital matches no tag |
| `PostUtils.InCategory` | src/utils/post.ts:62 | a post qualifies exactly when its lowered category equals the argument; an argument with a capital selects nothing |
| `PostUtils.GetAllPosts` | src/utils/post.ts:66-72 | the query fails exactly when `blog` does not load, and says how; the result is newest first, published and drawn from `blog`; it is a prefix of the newest-first published `blog` posts, and all of them when `max` is undefined |
| `PostUtils.AllPostsAreStableSortOfPublished` | src/utils/post.ts:68-70 | the unbounded result is a permutation of the published `blog` posts, with each date group in `blog` order |
| `PostUtils.AllPostsIgnoreLanguage` | src/utils/post.ts:66-72 | only `blog` is read, and every published post of it is returned whatever its language |
| `PostUtils.LanguageOrDefault` | src/utils/post.ts:77 | the post's non-empty language, or the default |
| `PostUtils.LanguageList` | src/utils/post.ts:77 | `posts.map(post => post.data.language \|\| DEFAULT_LANGUAGE)`: one language per post, in post order |
| `PostUtils.GetAvailableLanguages` | src/utils/post.ts:75-79 | the query fails exactly when `blog` does not load; the languages have no repeats, contain exactly the languages of all published posts, and come in order of first occurrence |
| `PostScenarios.EnglishFromSharedStore` | src/utils/post.ts:10-38 | English readers of a shared `blog` get the unmarked and English published posts, newest first |
| `PostScenarios.SpanishFromSharedStore` | src/utils/post.ts:17-23 | Spanish readers of the same `blog` get the Spanish and unmarked posts, newest first |
| `PostScenarios.SpanishFallback` | src/utils/post.ts:16-23 | without `blog_es` a Spanish reader gets the Spanish posts of `blog` |

## Left out

- I/O, `async`/`await` and promises: `getCollection` is the `Store` parameter, and a rejection is the `Error` outcome.
- Repeated loads: `getPosts` can read `blog` twice, once in `try` and once in `catch`. The model assumes both reads see the same collection.
- `toLowerCase`: modelled on ASCII letters only. Unicode case mapping is not modelled.
- `max`: modelled as an optional integer. Fractional, `NaN` and infinite values are not modelled.
- `pubDate`: a `Date` is modelled by an integer timestamp. Date parsing and invalid dates, whose `NaN` differences upset the comparator, are not modelled.
- `getTranslation`: `lang` values that name inherited object properties, such as `constructor`, are treated as languages without a table.
- Client storage: modelled as the one `preferredLanguage` entry. Storage quota errors and disabled storage are left out.
- Language `name` and `flag`: carried as data only, because nothing in the core reads them.
- Content schema: the title and description length limits, the hero image and the category enum of `src/content/config.ts` are left out. None of them affects the queries.
- Default arguments: the `language = DEFAULT_LANGUAGE` default of `getPosts`, `getCategories`, `getTags`, `getPostByTag` and `filterPostsByCategory` is not modelled. The language is a required parameter, and a caller that omits it corresponds to passing `DefaultLanguage`. The same holds for `getSiteConfig`.
- `astro.config.mjs` and the page components are not part of this model.
