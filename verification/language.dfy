/** Which language the narration is translated into, if any. */
module Language {
  import opened Wrappers

  /** The catalog's own language: narration in it needs no translation. */
  const NativeTag: string := "en-IN"

  /** The short codes the translation service is asked for. */
  const ShortCodes: set<string> := {"hi", "de", "fr", "ru", "en"}

  /** The tags with a code of their own; every other tag falls back to English. */
  const KnownTags: map<string, string> := map["hi-IN" := "hi", "de-DE" := "de", "fr-FR" := "fr", "ru-RU" := "ru"]

  /** The short code for a spoken-language tag, as the component's switch computes it. */
  function LanguageCode(tag: string): (code: string)
    ensures code in ShortCodes
    ensures code != "en" ==> tag in KnownTags && KnownTags[tag] == code
  {
    match tag
    case "hi-IN" => "hi"
    case "de-DE" => "de"
    case "fr-FR" => "fr"
    case "ru-RU" => "ru"
    case _ => "en"
  }

  /** The switch agrees with the table: a known tag gets its own code, any other tag gets `en`. */
  lemma LanguageCodeTable(tag: string)
    ensures tag in KnownTags ==> LanguageCode(tag) == KnownTags[tag]
    ensures tag !in KnownTags ==> LanguageCode(tag) == "en"
  {
  }

  /** Distinct tags never share a non-English code: each such code names one tag. */
  lemma LanguageCodeInjective(a: string, b: string)
    requires LanguageCode(a) == LanguageCode(b) != "en"
    ensures a == b
  {
  }

  /** The code the narration is translated into, or None when the tag is the
      catalog's own and the narration text is spoken as it is. */
  function TranslationTarget(tag: string): (r: Option<string>)
    ensures r.None? <==> tag == NativeTag
    ensures r.Some? ==> r.value in ShortCodes
    ensures r.Some? && r.value != "en" ==> tag in KnownTags && KnownTags[tag] == r.value
    ensures tag != NativeTag ==> r == Some(if tag in KnownTags then KnownTags[tag] else "en")
  {
    if tag != NativeTag then Some(LanguageCode(tag)) else None
  }

  /** Another English tag such as `en-US` is still sent for translation, into `en`. */
  lemma OtherEnglishTranslated(tag: string)
    requires tag != NativeTag && tag !in KnownTags
    ensures TranslationTarget(tag) == Some("en")
  {
  }
}
