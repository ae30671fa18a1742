# Locale detection of the client's i18n provider

This project models the locale-detection core of the web client's i18n
provider (`packages/app-client/src/modules/i18n/i18n.provider.tsx`):

- the fixed table of supported locales — seven entries `zh-CN`, `zh-TW`,
  `en`, `de`, `fr`, `es`, `ru`, each with a key, a dictionary file name and
  a display name, in that order (`I18nProvider.Locales`);
- `getBrowserLocale`, which maps the browser's language tag to one of those
  keys. An absent or empty tag gives `zh-CN`. Otherwise the tag is matched
  exactly and case-sensitively against the keys. Failing that, the rule takes
  the tag's language code (the text before its first `-`) and returns the
  first key in table order that starts with it. Failing that, it returns
  `zh-CN`;
- `useI18n`, which returns the provider's context or fails with
  `I18n context not found`.

The model is pure, like the source. `navigator.language` becomes the
parameter of `GetBrowserLocale`, an `Option<string>` whose `None` stands for
`undefined`. `Array.prototype.find` is the generic `Find` (first element
satisfying a predicate), `split('-')[0]` is `LanguageCode` and `startsWith`
is `StartsWith`. The rule is also written over an arbitrary table
(`MatchLocale`). Beside it stand two independent statements of the rule:

- `Resolves` states it declaratively with a "first matching index";
- `ExpectedLocale` / `PrefixTarget` spell it out as a decision table on
  language codes for this particular table.

The lemmas prove that the function agrees with both.

Two consequences of the code are worth stating:

- `getBrowserLocale` reads only `navigator.language`. The provider then
  hands its result to `makePersisted` (i18n.provider.tsx:105), which replaces
  it with a choice stored in `localStorage` when there is one; that storage is
  not modelled.
- The prefix rule returns the first key in table order that starts with the
  language code. So `zh-HK` gives `zh-CN`, `zh-TW` is reached only by the
  exact tag, and the code `e` gives `en`, not `es`.

The table itself is the constant `Locales`, and the fallback literal
`'zh-CN'` of lines 84 and 100 is the constant `Fallback`; being constants
rather than functions, they are pinned down by the contract of
`LocaleTableWellFormed` below.

Files: `wrappers.dfy` (the `Option` and `Result` datatypes) and
`i18n_provider.dfy` (module `I18nProvider`).

## Model

| member | source | states |
|---|---|---|
| `I18nProvider.IsLocale` | packages/app-client/src/modules/i18n/i18n.provider.tsx:51 | the type `Locale`: a string is a supported locale exactly when it is one of the seven key literals `zh-CN`, `zh-TW`, `en`, `de`, `fr`, `es`, `ru` |
| `I18nProvider.StartsWith` | packages/app-client/src/modules/i18n/i18n.provider.tsx:95 | `startsWith`: holds exactly when the prefix is no longer than the string and agrees with it character by character |
| `I18nProvider.Find` | packages/app-client/src/modules/i18n/i18n.provider.tsx:88-98 | `locales.find(pred)`: `None` exactly when no entry satisfies the predicate; otherwise an entry at some index that satisfies it, with no earlier entry satisfying it |
| `I18nProvider.LanguageCode` | packages/app-client/src/modules/i18n/i18n.provider.tsx:94 | `split('-')[0]`: the code is a prefix of the tag and contains no `-`, and it is either the whole tag or is followed by a `-` |
| `I18nProvider.MatchLocale` | packages/app-client/src/modules/i18n/i18n.provider.tsx:80-101 | over any table, the detection rule returns one of the table's keys or the fallback `zh-CN` |
| `I18nProvider.GetBrowserLocale` | packages/app-client/src/modules/i18n/i18n.provider.tsx:80-101 | `getBrowserLocale` is total, and its result is always one of the supported locale keys |
| `I18nProvider.UseI18n` | packages/app-client/src/modules/i18n/i18n.provider.tsx:62-70 | succeeds exactly when a context is present and then returns that context; otherwise fails with `I18n context not found` |
| `I18nProvider.LocaleTableWellFormed` | packages/app-client/src/modules/i18n/i18n.provider.tsx:12-49 | the table `Locales` has seven entries, its keys are pairwise distinct and non-empty, every entry's `file` equals its `key`, and the fallback `zh-CN` (the constant `Fallback`, lines 84 and 100) is a key, the first one |
| `I18nProvider.AbsentOrEmptyTagFallsBack` | packages/app-client/src/modules/i18n/i18n.provider.tsx:81-85 | an absent or empty browser tag yields `zh-CN` |
| `I18nProvider.ExactMatchReturned` | packages/app-client/src/modules/i18n/i18n.provider.tsx:87-91 | a non-empty tag equal to a key of the table is returned unchanged, whatever the prefix rule would say |
| `I18nProvider.FirstPrefixMatchReturned` | packages/app-client/src/modules/i18n/i18n.provider.tsx:93-98 | without an exact match, the result is the key of the first table entry that starts with the tag's language code |
| `I18nProvider.NoPrefixMatchFallsBack` | packages/app-client/src/modules/i18n/i18n.provider.tsx:93-100 | without an exact match, a tag whose language code starts no key yields `zh-CN` |
| `I18nProvider.MatchLocaleResolves` | packages/app-client/src/modules/i18n/i18n.provider.tsx:80-101 | the detection rule meets its declarative statement (fallback, else exact key, else first-prefix entry, else fallback), and that statement admits no other result |
| `I18nProvider.GetBrowserLocaleIdempotent` | packages/app-client/src/modules/i18n/i18n.provider.tsx:80-101 | feeding a detected locale back in as the browser tag detects the same locale |
| `I18nProvider.PrefixTargetIsFirstMatch` | packages/app-client/src/modules/i18n/i18n.provider.tsx:12-49 | for every code without `-`, the decision table names the first key in table order that the code starts, or `zh-CN` when it starts none |
| `I18nProvider.PrefixRuleByCode` | packages/app-client/src/modules/i18n/i18n.provider.tsx:93-100 | for a non-empty tag that is not a key, the result depends only on its language code, as the decision table gives it |
| `I18nProvider.DetectionByCases` | packages/app-client/src/modules/i18n/i18n.provider.tsx:80-101 | `getBrowserLocale` agrees with the decision table on every tag |
| `I18nProvider.TraditionalChineseOnlyByExactTag` | packages/app-client/src/modules/i18n/i18n.provider.tsx:12-22 | the result is `zh-TW` if and only if the tag is exactly `zh-TW`, because `zh-CN` precedes it in the table |
| `I18nProvider.SpanishOnlyByFullCode` | packages/app-client/src/modules/i18n/i18n.provider.tsx:23-42 | the result is `es` if and only if the tag's language code is exactly `es`, because `en` precedes it and catches the code `e` |
| `I18nProvider.ExactTagExample` | packages/app-client/src/modules/i18n/i18n.provider.tsx:87-91 | `zh-TW` gives `zh-TW` and `fr` gives `fr` |
| `I18nProvider.RegionalTagExample` | packages/app-client/src/modules/i18n/i18n.provider.tsx:93-98 | `en-US` gives `en`, and `zh-HK` gives `zh-CN` rather than `zh-TW` |
| `I18nProvider.UnsupportedTagExample` | packages/app-client/src/modules/i18n/i18n.provider.tsx:100 | `ja-JP` gives the fallback `zh-CN` |
| `I18nProvider.CaseSensitiveExample` | packages/app-client/src/modules/i18n/i18n.provider.tsx:88-95 | matching is case-sensitive: `zh-tw` and `EN-us` both give `zh-CN` |

## Left out

- `fetchDictionary` (dynamic import of `locales/<key>.json`, then deep merge over the `zh-CN` dictionary and flattening). It calls `lodash-es` `merge` and `@solid-primitives/i18n` `flatten`; those libraries are not part of this model, so no claim about the merged key set is made.
- Persistence of the chosen locale through `makePersisted` and `localStorage`, and the asynchronous `createResource` reload. These are browser storage and reactive plumbing.
- The translator `i18n.translator` and its behaviour on missing keys, which belong to an external library.
- The `Show` and context-provider rendering of `I18nProvider`, and the whole of `packages/app-client/src/modules/ui/layouts/app.layout.tsx` (menus, navigation, theme and auth stores). These are UI composition with no stateable logic.
- Reading `navigator.language` is modelled as a parameter. Any falsy value other than an empty string or `undefined` is not represented.
- Strings are sequences of Unicode scalar values, not UTF-16 code units. The rule only compares characters for equality, so this makes no difference to the results.
