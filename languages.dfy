/** The language registry and the UI string table: a fixed, ordered list of the
    languages the blog is written in, the default language, and the translated
    labels of the user interface. */
module Languages {
  import opened Wrappers

  datatype Language = Language(code: string, name: string, flag: string, locale: string, ogLocale: string)

  /** The registry, in order; its order decides the fallback entry */
  const Registry: seq<Language> := [
    Language("en", "English", "\U{1F1FA}\U{1F1F8}", "en-GB", "en_GB"),
    Language("es", "Espa\U{F1}ol", "\U{1F1EA}\U{1F1F8}", "es-ES", "es_ES")
  ]

  const DefaultLanguage: string := "en"

  /** The registry has an entry with this code (`LANGUAGES.some(lang => lang.code === code)`) */
  predicate IsSupported(code: string): (b: bool)
    ensures b <==> exists l :: l in Registry && l.code == code
  {
    exists i :: 0 <= i < |Registry| && Registry[i].code == code
  }

  /** The registry's codes are exactly `en` and `es` */
  lemma SupportedCodes(code: string)
    ensures IsSupported(code) <==> code == "en" || code == "es"
  {
    assert Registry[0].code == "en" && Registry[1].code == "es";
  }

  /** Registry codes are unique, non-empty and never contain a path or subtag separator,
      and the default language is one of them */
  lemma RegistryWellFormed()
    ensures forall i, j :: 0 <= i < j < |Registry| ==> Registry[i].code != Registry[j].code
    ensures forall i :: 0 <= i < |Registry| ==>
              Registry[i].code != "" && '/' !in Registry[i].code && '-' !in Registry[i].code
    ensures IsSupported(DefaultLanguage)
  {
    SupportedCodes(DefaultLanguage);
  }

  /** A registered code is non-empty and contains neither '/' nor '-' */
  lemma SupportedCodeShape(code: string)
    requires IsSupported(code)
    ensures code != "" && '/' !in code && '-' !in code
  {
    SupportedCodes(code);
  }

  /** `langs.find(lang => lang.code === code)`: the first entry with that code */
  function FindByCode(langs: seq<Language>, code: string): (r: Option<Language>)
    ensures r.Some? ==> exists i :: 0 <= i < |langs| && langs[i] == r.value && r.value.code == code &&
                                    forall j :: 0 <= j < i ==> langs[j].code != code
    ensures r.None? <==> forall i :: 0 <= i < |langs| ==> langs[i].code != code
  {
    if langs == [] then None
    else if langs[0].code == code then Some(langs[0])
    else
      var r := FindByCode(langs[1..], code);
      assert r.Some? ==> exists i :: 0 <= i < |langs[1..]| && langs[1..][i] == r.value && r.value.code == code &&
                                     forall j :: 0 <= j < i ==> langs[1..][j].code != code;
      assert forall i :: 1 <= i < |langs| ==> langs[i] == langs[1..][i - 1];
      r
  }

  function GetLanguageByCode(code: string): (r: Option<Language>)
    ensures r.Some? ==> r.value in Registry && r.value.code == code
    ensures r.None? <==> !IsSupported(code)
  {
    FindByCode(Registry, code)
  }

  /** Every registry entry is the one found for its own code */
  lemma {:induction false} LookupRegistered(i: nat)
    requires i < |Registry|
    ensures GetLanguageByCode(Registry[i].code) == Some(Registry[i])
  {
    RegistryWellFormed();
  }

  /** `langs.find(lang => lang.code === code) || langs[0]`, which is `undefined` only
      when the list is empty */
  function EntryOrFirst(langs: seq<Language>, code: string): (r: Option<Language>)
    ensures r.None? <==> langs == []
    ensures r.Some? ==> r.value in langs
    ensures (exists i :: 0 <= i < |langs| && langs[i].code == code) ==> r.Some? && r.value.code == code
    ensures (forall i :: 0 <= i < |langs| ==> langs[i].code != code) && langs != [] ==> r == Some(langs[0])
  {
    match FindByCode(langs, code)
    case Some(l) => Some(l)
    case None => if langs == [] then None else Some(langs[0])
  }

  function GetDefaultLanguage(): (r: Language)
    ensures r in Registry && r.code == DefaultLanguage
    ensures r == Registry[0]
  {
    assert Registry[0].code == DefaultLanguage;
    EntryOrFirst(Registry, DefaultLanguage).value
  }

  /** The keys of the English table (`TranslationKey`) */
  datatype TranslationKey =
    | ShareMessage | ReadingTime | RelatedPosts | Home | About | Tags
    | Categories | Blog | SearchPlaceholder | NoPostsFound | LanguageLabel

  const English: map<TranslationKey, string> := map[
    ShareMessage := "Share this post",
    ReadingTime := "min read",
    RelatedPosts := "Related Posts",
    Home := "Home",
    About := "About",
    Tags := "Tags",
    Categories := "Categories",
    Blog := "Blog",
    SearchPlaceholder := "Search posts...",
    NoPostsFound := "No posts found",
    LanguageLabel := "Language"
  ]

  const Spanish: map<TranslationKey, string> := map[
    ShareMessage := "Compartir este post",
    ReadingTime := "min de lectura",
    RelatedPosts := "Posts Relacionados",
    Home := "Inicio",
    About := "Acerca de",
    Tags := "Etiquetas",
    Categories := "Categor\U{ED}as",
    Blog := "Blog",
    SearchPlaceholder := "Buscar posts...",
    NoPostsFound := "No se encontraron posts",
    LanguageLabel := "Idioma"
  ]

  /** The translation tables, by language code */
  const Translations: map<string, map<TranslationKey, string>> := map["en" := English, "es" := Spanish]

  lemma EnglishComplete(key: TranslationKey)
    ensures key in English && English[key] != ""
  {
    match key
    case ShareMessage =>
    case ReadingTime =>
    case RelatedPosts =>
    case Home =>
    case About =>
    case Tags =>
    case Categories =>
    case Blog =>
    case SearchPlaceholder =>
    case NoPostsFound =>
    case LanguageLabel =>
  }

  lemma SpanishComplete(key: TranslationKey)
    ensures key in Spanish && Spanish[key] != ""
  {
    match key
    case ShareMessage =>
    case ReadingTime =>
    case RelatedPosts =>
    case Home =>
    case About =>
    case Tags =>
    case Categories =>
    case Blog =>
    case SearchPlaceholder =>
    case NoPostsFound =>
    case LanguageLabel =>
  }

  /** Every table defines every key of the English table, with a non-empty text */
  lemma TranslationsComplete(lang: string, key: TranslationKey)
    requires lang in Translations
    ensures key in Translations[lang] && Translations[lang][key] != ""
  {
    if lang == "en" {
      EnglishComplete(key);
    } else {
      SpanishComplete(key);
    }
  }

  /** `translations[lang]?.[key] || translations[DEFAULT_LANGUAGE][key]`: a missing
      table, a missing key or an empty text all fall back to English */
  function GetTranslation(lang: string, key: TranslationKey): (r: string)
    ensures r != ""
    ensures (key in English && r == English[key]) || (lang in Translations && key in Translations[lang] && r == Translations[lang][key])
  {
    TranslationsComplete(DefaultLanguage, key);
    var found := if lang in Translations && key in Translations[lang] then Translations[lang][key] else "";
    if found != "" then found else Translations[DefaultLanguage][key]
  }

  /** A language with a table gets that table's text */
  lemma TranslationOfSupported(lang: string, key: TranslationKey)
    requires lang == "en" || lang == "es"
    ensures GetTranslation(lang, key) == Translations[lang][key]
  {
    TranslationsComplete(lang, key);
  }

  /** Any other language string gets the English text */
  lemma TranslationFallsBackToEnglish(lang: string, key: TranslationKey)
    requires lang != "en" && lang != "es"
    ensures key in English && GetTranslation(lang, key) == English[key]
  {
  }
}
