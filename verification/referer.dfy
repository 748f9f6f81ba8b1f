/**
 The frontier referer URL (`GenerateFrontierReferer` in XIVLauncher/Util.cs).
 The configured language and the UTC time, already formatted as
 "yyyy-MM-dd-HH", are parameters.
 */
module Referer {
  import opened Optional
  import opened Language

  const FrontierPage := "https://frontier.ffxiv.com/version_4_0_win/index.html"
  const LangParam := "?rc_lang="
  const TimeParam := "&time="

  /** Everything before the locale code. */
  const UrlHead := FrontierPage + LangParam

  /**
   `GenerateFrontierReferer`: the frontier page with the locale code and the
   hour-granular time as query parameters.
   */
  function FrontierReferer(language: ClientLanguage, formattedTime: string): (r: string)
    ensures ParseReferer(r) == Some((GetLangCode(language), formattedTime))
    ensures |r| == |UrlHead| + |GetLangCode(language)| + |TimeParam| + |formattedTime|
  {
    ParseRoundTrip(language, formattedTime);
    UrlHead + GetLangCode(language) + TimeParam + formattedTime
  }

  /** The position of the first `c` in `s`. */
  function IndexOf(s: string, c: char): (r: Option<nat>)
    ensures r.Some? ==> r.value < |s| && s[r.value] == c && c !in s[..r.value]
    ensures r.None? <==> c !in s
  {
    if |s| == 0 then None
    else if s[0] == c then Some(0)
    else match IndexOf(s[1..], c)
      case None => None
      case Some(i) =>
        assert s[..i + 1] == [s[0]] + s[1..][..i];
        Some(i + 1)
  }

  /**
   Splits a referer back into its locale code and its time field: the code
   runs up to the first '&', which must open the time parameter.
   */
  function ParseReferer(url: string): Option<(string, string)>
  {
    if |url| < |UrlHead| || url[..|UrlHead|] != UrlHead then None
    else
      var rest := url[|UrlHead|..];
      match IndexOf(rest, '&')
      case None => None
      case Some(i) =>
        if i + |TimeParam| <= |rest| && rest[i..i + |TimeParam|] == TimeParam
        then Some((rest[..i], rest[i + |TimeParam|..]))
        else None
  }

  lemma ParseRoundTrip(language: ClientLanguage, time: string)
    ensures ParseReferer(UrlHead + GetLangCode(language) + TimeParam + time) == Some((GetLangCode(language), time))
  {
    LocaleCodesHaveNoAmpersand(language);
    ParseComposed(GetLangCode(language), time);
  }

  /** Any code free of '&' is recovered intact, whatever the time field holds. */
  lemma ParseComposed(code: string, time: string)
    requires '&' !in code
    ensures ParseReferer(UrlHead + code + TimeParam + time) == Some((code, time))
  {
    var url := UrlHead + code + TimeParam + time;
    var rest := code + TimeParam + time;
    assert url == UrlHead + rest;
    assert url[..|UrlHead|] == UrlHead && url[|UrlHead|..] == rest;
    IndexOfPrefix(code, TimeParam + time, '&');
    assert rest[|code|..|code| + |TimeParam|] == TimeParam;
    assert rest[..|code|] == code;
    assert rest[|code| + |TimeParam|..] == time;
  }

  /** The first `c` after a prefix free of `c` is found right after that prefix. */
  lemma IndexOfPrefix(prefix: string, suffix: string, c: char)
    requires c !in prefix && |suffix| > 0 && suffix[0] == c
    ensures IndexOf(prefix + suffix, c) == Some(|prefix|)
  {
    var s := prefix + suffix;
    assert s[..|prefix|] == prefix;
  }

  /**
   Two referers are equal exactly when their locale codes and their time
   strings are: calls within one UTC hour with one language agree, and a new
   hour always yields a new URL.
   */
  lemma RefererDeterminedByCodeAndHour(l1: ClientLanguage, t1: string, l2: ClientLanguage, t2: string)
    ensures FrontierReferer(l1, t1) == FrontierReferer(l2, t2) <==> GetLangCode(l1) == GetLangCode(l2) && t1 == t2
  {
  }

  /** Across an hour boundary only the trailing time field changes. */
  lemma OnlyTimeFieldVaries(language: ClientLanguage, t1: string, t2: string)
    ensures var n := |UrlHead| + |GetLangCode(language)| + |TimeParam|;
      && FrontierReferer(language, t1)[..n] == FrontierReferer(language, t2)[..n]
      && FrontierReferer(language, t1)[n..] == t1
      && FrontierReferer(language, t2)[n..] == t2
  {
    var head := UrlHead + GetLangCode(language) + TimeParam;
    assert FrontierReferer(language, t1) == head + t1;
    assert FrontierReferer(language, t2) == head + t2;
  }
}
