/**
 The client language and its locale code (`GetLangCode` in XIVLauncher/Util.cs).
 A C# enum variable may hold any value of its underlying type, so besides the
 four named languages there is `Other(n)` for every unnamed value.
 */
module Language {
  import opened Optional

  datatype ClientLanguage = Japanese | English | German | French | Other(n: int)

  /** The four locale codes the launcher sends. */
  const LocaleCodes: set<string> := {"ja", "en-gb", "de", "fr"}

  /** `GetLangCode`: a total mapping whose fallback for unnamed values is "en-gb". */
  function GetLangCode(language: ClientLanguage): (r: string)
    ensures r in LocaleCodes
    ensures r == "en-gb" <==> Effective(language) == English
    ensures LanguageOfCode(r) == Some(Effective(language))
  {
    match language
    case Japanese => "ja"
    case English => "en-gb"
    case German => "de"
    case French => "fr"
    case Other(_) => "en-gb"
  }

  /** The named language a locale code stands for, if any. */
  function LanguageOfCode(code: string): Option<ClientLanguage>
  {
    if code == "ja" then Some(Japanese)
    else if code == "en-gb" then Some(English)
    else if code == "de" then Some(German)
    else if code == "fr" then Some(French)
    else None
  }

  /** Unnamed values behave as English; named ones are themselves. */
  function Effective(language: ClientLanguage): ClientLanguage
  {
    if language.Other? then English else language
  }

  /**
   `LanguageOfCode` recognises exactly the four locale codes, and every one of
   them is produced by the language it decodes to.
   */
  lemma LangCodeRoundTrip(code: string)
    ensures code in LocaleCodes <==> LanguageOfCode(code).Some?
    ensures LanguageOfCode(code).Some? ==> GetLangCode(LanguageOfCode(code).value) == code
  {
  }

  /** Two languages share a code exactly when they are the same after the fallback. */
  lemma LangCodeInjectiveUpToFallback(l1: ClientLanguage, l2: ClientLanguage)
    ensures GetLangCode(l1) == GetLangCode(l2) <==> Effective(l1) == Effective(l2)
  {
  }

  /** No locale code contains '&', so it can sit in a URL query unescaped. */
  lemma LocaleCodesHaveNoAmpersand(language: ClientLanguage)
    ensures '&' !in GetLangCode(language)
    ensures |GetLangCode(language)| > 0
  {
    var code := GetLangCode(language);
    if code == "en-gb" {
      assert code == ['e', 'n', '-', 'g', 'b'];
    } else if code == "ja" {
      assert code == ['j', 'a'];
    } else if code == "de" {
      assert code == ['d', 'e'];
    } else {
      assert code == ['f', 'r'];
    }
  }
}
