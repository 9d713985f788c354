/** The site-wide configuration record and its per-language overlay. */
module SiteConfigs {
  import opened Wrappers
  import opened Languages

  datatype SiteConfig = SiteConfig(
    author: string,
    title: string,
    description: string,
    lang: string,
    ogLocale: string,
    shareMessage: string,
    paginationSize: int,
    defaultLanguage: string)

  /** The base configuration (`siteConfig`) */
  const BaseSiteConfig: SiteConfig := SiteConfig(
    "WayneGoosen",
    "Wayne Goosen | Blog",
    "Wayne Goosen Personal Blog.",
    "en-GB",
    "en_GB",
    "Share this post",
    6,
    DefaultLanguage)

  /** The fields the overlay never touches are those of the base configuration */
  predicate KeepsBaseFields(c: SiteConfig) {
    && c.author == BaseSiteConfig.author
    && c.title == BaseSiteConfig.title
    && c.description == BaseSiteConfig.description
    && c.paginationSize == BaseSiteConfig.paginationSize
    && c.defaultLanguage == BaseSiteConfig.defaultLanguage
  }

  /** The base configuration with the locale fields and the share message of the
      registered language `languageCode`, or the base configuration unchanged when
      the code is not registered */
  function GetSiteConfig(languageCode: string): (c: SiteConfig)
    ensures KeepsBaseFields(c)
    ensures !IsSupported(languageCode) ==> c == BaseSiteConfig
    ensures IsSupported(languageCode) ==>
              exists l :: l in Registry && l.code == languageCode &&
                c.lang == l.locale && c.ogLocale == l.ogLocale
    ensures IsSupported(languageCode) ==> c.shareMessage == GetTranslation(languageCode, ShareMessage)
  {
    match GetLanguageByCode(languageCode)
    case None => BaseSiteConfig
    case Some(language) =>
      BaseSiteConfig.(
        lang := language.locale,
        ogLocale := language.ogLocale,
        shareMessage := GetTranslation(languageCode, ShareMessage))
  }

  /** A registered language's own locale fields are the ones overlaid */
  lemma {:induction false} SiteConfigOfRegistered(i: nat)
    requires i < |Registry|
    ensures GetSiteConfig(Registry[i].code).lang == Registry[i].locale
    ensures GetSiteConfig(Registry[i].code).ogLocale == Registry[i].ogLocale
    ensures GetSiteConfig(Registry[i].code).shareMessage == GetTranslation(Registry[i].code, ShareMessage)
  {
    LookupRegistered(i);
  }

  /** With the default argument the overlay reproduces the base configuration */
  lemma DefaultSiteConfig()
    ensures GetSiteConfig(DefaultLanguage) == BaseSiteConfig
    ensures GetSiteConfig(DefaultLanguage).lang == "en-GB"
    ensures GetSiteConfig(DefaultLanguage).ogLocale == "en_GB"
    ensures GetSiteConfig(DefaultLanguage).shareMessage == "Share this post"
  {
    LookupRegistered(0);
    TranslationOfSupported(DefaultLanguage, ShareMessage);
  }

  lemma SpanishSiteConfig()
    ensures GetSiteConfig("es").lang == "es-ES"
    ensures GetSiteConfig("es").ogLocale == "es_ES"
    ensures GetSiteConfig("es").shareMessage == "Compartir este post"
  {
    LookupRegistered(1);
    TranslationOfSupported("es", ShareMessage);
  }
}
