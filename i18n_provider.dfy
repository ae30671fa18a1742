/** The locale-detection part of the client's i18n provider: the fixed table of
    supported locales, the rule that maps the browser's language tag to one of
    them, and the missing-context check of `useI18n`.

    Locales are the table's key strings; `navigator.language` is the parameter
    of `GetBrowserLocale` (`None` when the browser reports nothing). */
module I18nProvider {
  import opened Wrappers

  /** One row of the supported-locale table: the locale key, the dictionary
      file it loads and the name shown in the language menu. */
  datatype LocaleEntry = LocaleEntry(key: string, file: string, name: string)

  /** The supported locales, in the table's own order (the order matters: the
      prefix rule of `GetBrowserLocale` takes the first entry that matches). */
  const Locales: seq<LocaleEntry> := [
    LocaleEntry("zh-CN", "zh-CN", "简体中文"),
    LocaleEntry("zh-TW", "zh-TW", "繁體中文"),
    LocaleEntry("en", "en", "English"),
    LocaleEntry("de", "de", "Deutsch"),
    LocaleEntry("fr", "fr", "Français"),
    LocaleEntry("es", "es", "Español"),
    LocaleEntry("ru", "ru", "Русский")
  ]

  /** The locale used when the browser tag is missing or matches nothing. */
  const Fallback: string := "zh-CN"

  /** `k` is the key of some entry of `table`. */
  predicate IsKeyOf(table: seq<LocaleEntry>, k: string) {
    exists i :: 0 <= i < |table| && table[i].key == k
  }

  /** `k` is a supported locale: the TypeScript type `Locale`, the union
      of the table's key literals. */
  predicate IsLocale(k: string)
    ensures IsLocale(k) <==> k in {"zh-CN", "zh-TW", "en", "de", "fr", "es", "ru"}
  {
    assert k == "zh-CN" ==> Locales[0].key == k;
    assert k == "zh-TW" ==> Locales[1].key == k;
    assert k == "en" ==> Locales[2].key == k;
    assert k == "de" ==> Locales[3].key == k;
    assert k == "fr" ==> Locales[4].key == k;
    assert k == "es" ==> Locales[5].key == k;
    assert k == "ru" ==> Locales[6].key == k;
    IsKeyOf(Locales, k)
  }

  /** `s.startsWith(p)`: `p` is a prefix of `s`, character by character. */
  predicate StartsWith(s: string, p: string)
    ensures StartsWith(s, p) <==> |p| <= |s| && forall k :: 0 <= k < |p| ==> s[k] == p[k]
  {
    |p| <= |s| && s[..|p|] == p
  }

  /** `Array.prototype.find`: the first element of `s` that satisfies `p`,
      or `None` when there is none. */
  function Find<T>(s: seq<T>, p: T -> bool): (r: Option<T>)
    ensures r.None? <==> forall i :: 0 <= i < |s| ==> !p(s[i])
    ensures r.Some? ==>
      exists i :: 0 <= i < |s| && s[i] == r.value && p(s[i]) &&
        forall j :: 0 <= j < i ==> !p(s[j])
  {
    if s == [] then None
    else if p(s[0]) then Some(s[0])
    else
      var r := Find(s[1..], p);
      assert forall i :: 1 <= i < |s| ==> s[i] == s[1..][i - 1];
      r
  }

  /** `tag.split('-')[0]`: the text of `tag` before its first `-` (all of
      `tag` when it has no `-`). */
  function LanguageCode(tag: string): (code: string)
    ensures StartsWith(tag, code)
    ensures '-' !in code
    ensures |code| == |tag| || tag[|code|] == '-'
  {
    if tag == [] || tag[0] == '-' then []
    else [tag[0]] + LanguageCode(tag[1..])
  }

  /** The body of `getBrowserLocale`, over a locale table: an exact,
      case-sensitive match of the tag against the keys; failing that, the
      first key that starts with the tag's language code; failing that, the
      fallback. Absent and empty tags fall back at once. */
  function MatchLocale(table: seq<LocaleEntry>, language: Option<string>): (r: string)
    ensures IsKeyOf(table, r) || r == Fallback
  {
    match language
    case None => Fallback
    case Some(tag) =>
      if tag == "" then Fallback
      else
        match Find(table, (e: LocaleEntry) => e.key == tag)
        case Some(exact) => exact.key
        case None =>
          var code := LanguageCode(tag);
          match Find(table, (e: LocaleEntry) => StartsWith(e.key, code))
          case Some(partial) => partial.key
          case None => Fallback
  }

  /** `getBrowserLocale`, with `navigator.language` as its parameter: the
      detection rule applied to the supported-locale table. The result is
      always a supported locale. */
  function GetBrowserLocale(language: Option<string>): (r: string)
    ensures IsLocale(r)
  {
    assert Locales[0].key == Fallback;
    MatchLocale(Locales, language)
  }

  /** `useI18n`: the provider's context when one is present, otherwise the
      error `I18n context not found`. */
  function UseI18n<C>(context: Option<C>): (r: Result<C, string>)
    ensures r.Success? <==> context.Some?
    ensures r.Success? ==> r.value == context.value
    ensures r.Failure? ==> r.error == "I18n context not found"
  {
    match context
    case Some(c) => Success(c)
    case None => Failure("I18n context not found")
  }

  // ---------------------------------------------------------------------
  // The locale table

  /** The table has seven entries with pairwise distinct keys, and every
      entry loads the dictionary file named after its key. */
  lemma LocaleTableWellFormed()
    ensures |Locales| == 7
    ensures forall i, j :: 0 <= i < j < |Locales| ==> Locales[i].key != Locales[j].key
    ensures forall i :: 0 <= i < |Locales| ==> Locales[i].file == Locales[i].key
    ensures forall i :: 0 <= i < |Locales| ==> Locales[i].key != ""
    ensures Locales[0].key == Fallback && IsLocale(Fallback)
  {
    assert Locales[0].key == Fallback;
  }

  // ---------------------------------------------------------------------
  // A declarative statement of the detection rule

  /** `i` is the first index of `table` whose key starts with `code`. */
  ghost predicate FirstPrefixMatch(table: seq<LocaleEntry>, code: string, i: int) {
    0 <= i < |table| && StartsWith(table[i].key, code) &&
    forall j :: 0 <= j < i ==> !StartsWith(table[j].key, code)
  }

  /** `k` is the locale the detection rule prescribes for `language`. */
  ghost predicate Resolves(table: seq<LocaleEntry>, language: Option<string>, k: string) {
    match language
    case None => k == Fallback
    case Some(tag) =>
      if tag == "" then k == Fallback
      else if IsKeyOf(table, tag) then k == tag
      else if exists i :: FirstPrefixMatch(table, LanguageCode(tag), i) then
        exists i :: FirstPrefixMatch(table, LanguageCode(tag), i) && k == table[i].key
      else k == Fallback
  }

  /** At most one index is the first prefix match of a code. */
  lemma FirstPrefixMatchUnique(table: seq<LocaleEntry>, code: string, i: int, i': int)
    requires FirstPrefixMatch(table, code, i) && FirstPrefixMatch(table, code, i')
    ensures i == i'
  {
  }

  /** An absent or empty browser tag yields the fallback locale. */
  lemma AbsentOrEmptyTagFallsBack(language: Option<string>)
    requires language.None? || language.value == ""
    ensures GetBrowserLocale(language) == Fallback
  {
  }

  /** A non-empty tag equal to a key is returned unchanged. */
  lemma ExactMatchReturned(table: seq<LocaleEntry>, tag: string)
    requires tag != "" && IsKeyOf(table, tag)
    ensures MatchLocale(table, Some(tag)) == tag
  {
  }

  /** Without an exact match, the result is the first entry in table order
      whose key starts with the tag's language code. */
  lemma FirstPrefixMatchReturned(table: seq<LocaleEntry>, tag: string, i: int)
    requires tag != "" && !IsKeyOf(table, tag)
    requires FirstPrefixMatch(table, LanguageCode(tag), i)
    ensures MatchLocale(table, Some(tag)) == table[i].key
  {
  }

  /** A tag whose language code starts no key yields the fallback. */
  lemma NoPrefixMatchFallsBack(table: seq<LocaleEntry>, tag: string)
    requires tag != "" && !IsKeyOf(table, tag)
    requires forall i :: 0 <= i < |table| ==> !StartsWith(table[i].key, LanguageCode(tag))
    ensures MatchLocale(table, Some(tag)) == Fallback
  {
  }

  /** The detection rule meets its declarative statement, and the statement
      prescribes nothing else. */
  lemma MatchLocaleResolves(table: seq<LocaleEntry>, language: Option<string>, k: string)
    ensures Resolves(table, language, k) <==> k == MatchLocale(table, language)
  {
    if language.Some? && language.value != "" && !IsKeyOf(table, language.value) {
      var tag := language.value;
      var code := LanguageCode(tag);
      if exists i :: FirstPrefixMatch(table, code, i) {
        var i :| FirstPrefixMatch(table, code, i);
        FirstPrefixMatchReturned(table, tag, i);
        if Resolves(table, language, k) {
          var i' :| FirstPrefixMatch(table, code, i') && k == table[i'].key;
          FirstPrefixMatchUnique(table, code, i, i');
        }
      } else {
        forall i | 0 <= i < |table|
          ensures !StartsWith(table[i].key, code)
        {
          if StartsWith(table[i].key, code) {
            var m := Find(table, (e: LocaleEntry) => StartsWith(e.key, code));
            var j :| 0 <= j < |table| && table[j] == m.value &&
              StartsWith(table[j].key, code) &&
              forall j' :: 0 <= j' < j ==> !StartsWith(table[j'].key, code);
            assert FirstPrefixMatch(table, code, j);
          }
        }
        NoPrefixMatchFallsBack(table, tag);
      }
    }
  }

  /** A detected locale detects itself: feeding the result back as the
      browser tag changes nothing. */
  lemma GetBrowserLocaleIdempotent(language: Option<string>)
    ensures GetBrowserLocale(Some(GetBrowserLocale(language))) == GetBrowserLocale(language)
  {
    LocaleTableWellFormed();
    ExactMatchReturned(Locales, GetBrowserLocale(language));
  }

  // ---------------------------------------------------------------------
  // Consequences of the table's order

  /** The locale the prefix rule picks for each language code (the code never
      contains `-`): `zh-CN` precedes `zh-TW`, and `en` precedes `es`, so
      `zh-TW` is never reached by prefix and `es` only by the full code. */
  function PrefixTarget(code: string): (k: string)
    ensures IsLocale(k)
  {
    assert Locales[0].key == "zh-CN" && Locales[2].key == "en" && Locales[3].key == "de";
    assert Locales[4].key == "fr" && Locales[5].key == "es" && Locales[6].key == "ru";
    if code == "d" || code == "de" then "de"
    else if code == "e" || code == "en" then "en"
    else if code == "es" then "es"
    else if code == "f" || code == "fr" then "fr"
    else if code == "r" || code == "ru" then "ru"
    else "zh-CN"
  }

  /** For a non-empty tag that is not a key, the result is the table above
      applied to the tag's language code. */
  lemma PrefixRuleByCode(tag: string)
    requires tag != "" && !IsLocale(tag)
    ensures GetBrowserLocale(Some(tag)) == PrefixTarget(LanguageCode(tag))
  {
    var code := LanguageCode(tag);
    PrefixTargetIsFirstMatch(code);
    if i :| FirstPrefixMatch(Locales, code, i) && Locales[i].key == PrefixTarget(code) {
      FirstPrefixMatchReturned(Locales, tag, i);
    } else {
      NoPrefixMatchFallsBack(Locales, tag);
    }
  }

  /** `PrefixTarget(code)` is the key of the first entry that `code` starts,
      or the fallback when it starts none. */
  lemma PrefixTargetIsFirstMatch(code: string)
    requires '-' !in code
    ensures || (exists i :: FirstPrefixMatch(Locales, code, i) && Locales[i].key == PrefixTarget(code))
            || (PrefixTarget(code) == Fallback &&
                forall i :: 0 <= i < |Locales| ==> !StartsWith(Locales[i].key, code))
  {
    if code in {"d", "de", "e", "en", "es", "f", "fr", "r", "ru", "", "z", "zh"} {
      ListedCodeFirstMatch(code);
    } else {
      forall i | 0 <= i < |Locales|
        ensures !StartsWith(Locales[i].key, code)
      {
        CodeStartsNoOtherKey(code, i);
      }
    }
  }

  /** Each code `PrefixTarget` lists, or a prefix of `zh`, first starts the
      key `PrefixTarget` names. */
  lemma ListedCodeFirstMatch(code: string)
    requires code in {"d", "de", "e", "en", "es", "f", "fr", "r", "ru", "", "z", "zh"}
    ensures exists i :: FirstPrefixMatch(Locales, code, i) && Locales[i].key == PrefixTarget(code)
  {
    if code in {"d", "de", "e", "en", "es"} {
      EarlyCodeFirstMatch(code);
    } else {
      LateCodeFirstMatch(code);
    }
  }

  /** The codes of `de`, `en` and `es` first start those keys. */
  lemma EarlyCodeFirstMatch(code: string)
    requires code in {"d", "de", "e", "en", "es"}
    ensures exists i :: FirstPrefixMatch(Locales, code, i) && Locales[i].key == PrefixTarget(code)
  {
    if code == "d" || code == "de" {
      FirstLettersDiffer(code, 3);
      assert PrefixTarget(code) == Locales[3].key;
      assert FirstPrefixMatch(Locales, code, 3);
    } else if code == "e" || code == "en" {
      FirstLettersDiffer(code, 2);
      assert PrefixTarget(code) == Locales[2].key;
      assert FirstPrefixMatch(Locales, code, 2);
    } else {
      FirstLettersDiffer(code, 2);
      NotStartsWithAt(Locales[2].key, code, 1);
      NotStartsWithAt(Locales[3].key, code, 0);
      NotStartsWithAt(Locales[4].key, code, 0);
      assert PrefixTarget(code) == Locales[5].key;
      assert FirstPrefixMatch(Locales, code, 5);
    }
  }

  /** The codes of `fr` and `ru`, and the prefixes of `zh`, first start
      `fr`, `ru` and `zh-CN`. */
  lemma LateCodeFirstMatch(code: string)
    requires code in {"f", "fr", "r", "ru", "", "z", "zh"}
    ensures exists i :: FirstPrefixMatch(Locales, code, i) && Locales[i].key == PrefixTarget(code)
  {
    if code == "f" || code == "fr" {
      FirstLettersDiffer(code, 4);
      assert PrefixTarget(code) == Locales[4].key;
      assert FirstPrefixMatch(Locales, code, 4);
    } else if code == "r" || code == "ru" {
      FirstLettersDiffer(code, 6);
      assert PrefixTarget(code) == Locales[6].key;
      assert FirstPrefixMatch(Locales, code, 6);
    } else {
      assert PrefixTarget(code) == Locales[0].key;
      assert FirstPrefixMatch(Locales, code, 0);
    }
  }

  /** No key before index `k` shares its first letter with `code`. */
  lemma FirstLettersDiffer(code: string, k: int)
    requires 0 < |code| && 0 <= k <= |Locales|
    requires forall j :: 0 <= j < k ==> Locales[j].key[0] != code[0]
    ensures forall j :: 0 <= j < k ==> !StartsWith(Locales[j].key, code)
  {
  }

  /** A code without `-` that starts a key is one of the codes `PrefixTarget`
      lists, or a prefix of `zh`. */
  lemma CodeStartsNoOtherKey(code: string, i: int)
    requires 0 <= i < |Locales| && '-' !in code
    requires code !in {"", "z", "zh", "e", "en", "d", "de", "f", "fr", "es", "r", "ru"}
    ensures !StartsWith(Locales[i].key, code)
  {
    var key := Locales[i].key;
    if |code| > |key| {
    } else if |code| >= 3 {
      assert code[2] in code;
      NotStartsWithAt(key, code, 2);
    } else if |code| == 2 && code[0] == key[0] {
      assert code == [key[0], code[1]] && key[..2] == [key[0], key[1]];
      NotStartsWithAt(key, code, 1);
    } else {
      assert code != [];
      assert |code| == 1 ==> code == [code[0]];
      assert key[..1] == [key[0]];
      NotStartsWithAt(key, code, 0);
    }
  }

  /** A mismatch at position `k` of `p` (or `s` too short to reach it) means
      `s` does not start with `p`. */
  lemma NotStartsWithAt(s: string, p: string, k: int)
    requires 0 <= k < |p| && (k >= |s| || s[k] != p[k])
    ensures !StartsWith(s, p)
  {
  }

  /** The supported locales, spelled out. */
  lemma LocaleCases(k: string)
    requires IsLocale(k)
    ensures k in {"zh-CN", "zh-TW", "en", "de", "fr", "es", "ru"}
  {
  }

  /** The detection rule as a decision table on the tag: empty tags fall
      back, keys are kept, and every other tag is decided by its language
      code alone. */
  function ExpectedLocale(tag: string): string {
    if tag == "" then Fallback
    else if IsLocale(tag) then tag
    else PrefixTarget(LanguageCode(tag))
  }

  /** `getBrowserLocale` agrees with the decision table on every tag. */
  lemma DetectionByCases(tag: string)
    ensures GetBrowserLocale(Some(tag)) == ExpectedLocale(tag)
  {
    if tag != "" && !IsLocale(tag) {
      PrefixRuleByCode(tag);
    } else if tag != "" {
      LocaleTableWellFormed();
      ExactMatchReturned(Locales, tag);
    }
  }

  /** `zh-TW` is detected only from the exact tag `zh-TW`: every other tag
      with primary language `zh` resolves to `zh-CN`, which precedes it. */
  lemma TraditionalChineseOnlyByExactTag(tag: string)
    ensures GetBrowserLocale(Some(tag)) == "zh-TW" <==> tag == "zh-TW"
  {
    DetectionByCases(tag);
    ExpectedTraditionalChinese(tag);
  }

  /** The decision table yields `zh-TW` only for the tag `zh-TW`. */
  lemma ExpectedTraditionalChinese(tag: string)
    ensures ExpectedLocale(tag) == "zh-TW" <==> tag == "zh-TW"
  {
    if tag == "zh-TW" {
      assert Locales[1].key == tag;
    }
  }

  /** `es` is detected exactly when the tag's language code is `es`: the
      shorter code `e` stops at `en`, which precedes it. */
  lemma SpanishOnlyByFullCode(tag: string)
    ensures GetBrowserLocale(Some(tag)) == "es" <==> LanguageCode(tag) == "es"
  {
    DetectionByCases(tag);
    ExpectedSpanish(tag);
  }

  /** The decision table yields `es` exactly for the language code `es`. */
  lemma ExpectedSpanish(tag: string)
    ensures ExpectedLocale(tag) == "es" <==> LanguageCode(tag) == "es"
  {
    if IsLocale(tag) {
      assert LanguageCode("es") == "es";
      var code := LanguageCode(tag);
      assert code == "es" ==> code[0] == tag[0] == 'e' && code[1] == tag[1] == 's';
    } else if tag != "" {
      PrefixTargetSpanish(LanguageCode(tag));
    }
  }

  /** Among the decision table's results, `es` comes only from the code `es`. */
  lemma PrefixTargetSpanish(code: string)
    ensures PrefixTarget(code) == "es" <==> code == "es"
  {
  }

  /** A tag outside the table resolves through its language code. */
  lemma DetectedByCode(tag: string, code: string, k: string)
    requires tag !in {"", "zh-CN", "zh-TW", "en", "de", "fr", "es", "ru"}
    requires LanguageCode(tag) == code && PrefixTarget(code) == k
    ensures GetBrowserLocale(Some(tag)) == k
  {
    NotALocale(tag);
    DetectionByCases(tag);
  }

  // The examples below take the tag as a parameter pinned by `requires`: with
  // a literal argument the verifier would evaluate the whole rule, table scan
  // included, inside one proof, which is far more costly than the case lemmas.

  /** Tags that are keys come back unchanged: `zh-TW` and `fr`. */
  lemma ExactTagExample(tag: string)
    requires tag == "zh-TW" || tag == "fr"
    ensures GetBrowserLocale(Some(tag)) == tag
  {
  }

  /** Regional tags resolve to the first key their language starts:
      `en-US` to `en`, and `zh-HK` to `zh-CN`, which precedes `zh-TW`. */
  lemma RegionalTagExample(tag: string)
    requires tag == "en-US" || tag == "zh-HK"
    ensures GetBrowserLocale(Some(tag)) == if tag == "en-US" then "en" else "zh-CN"
  {
    if tag == "en-US" {
      assert LanguageCode("en-US") == "en";
      DetectedByCode(tag, "en", "en");
    } else {
      assert LanguageCode("zh-HK") == "zh";
      DetectedByCode(tag, "zh", "zh-CN");
    }
  }

  /** An unsupported language, such as `ja-JP`, falls back to `zh-CN`. */
  lemma UnsupportedTagExample(tag: string)
    requires tag == "ja-JP"
    ensures GetBrowserLocale(Some(tag)) == "zh-CN"
  {
    assert LanguageCode("ja-JP") == "ja";
    DetectedByCode(tag, "ja", "zh-CN");
  }

  /** Matching is case-sensitive: `zh-tw` is not the key `zh-TW` and falls
      to the prefix rule, and `EN-us` has a code, `EN`, that starts no key. */
  lemma CaseSensitiveExample(tag: string)
    requires tag == "zh-tw" || tag == "EN-us"
    ensures GetBrowserLocale(Some(tag)) == "zh-CN"
  {
    if tag == "zh-tw" {
      assert LanguageCode("zh-tw") == "zh";
      DetectedByCode(tag, "zh", "zh-CN");
    } else {
      assert LanguageCode("EN-us") == "EN";
      DetectedByCode(tag, "EN", "zh-CN");
    }
  }

  /** The language code of each key. */
  lemma KeyLanguageCodes()
    ensures LanguageCode("zh-CN") == "zh" && LanguageCode("zh-TW") == "zh"
    ensures LanguageCode("en") == "en" && LanguageCode("de") == "de"
    ensures LanguageCode("fr") == "fr" && LanguageCode("es") == "es"
    ensures LanguageCode("ru") == "ru"
  {
  }

  /** A string outside the spelled-out key list is not a supported locale. */
  lemma NotALocale(tag: string)
    requires tag !in {"zh-CN", "zh-TW", "en", "de", "fr", "es", "ru"}
    ensures !IsLocale(tag)
  {
  }
}
