# Multi-step service forms: navigation, progress, attachments, preferences

A Dafny model of the behaviour inside `script.js`, the client-side script of a
government-services site where each service (licence renewal, subsidy
application, seniors card, consumer complaints) is a wizard of pages named
`<service>-<step>.html`. The script's effects on `window.location`, CSS class
lists and `localStorage` are modelled as values that pure functions return:

- **Navigation** (`navigation.dfy`): `navigateTo`, `goHome`, `goToNextStep`,
  `goToPreviousStep`, and the branch of `handleFormSubmission` that turns a
  form's `data-next-step` token into the next address (or, with no token,
  into a "Form submitted successfully" message).
- **Progress** (`progress.dfy`): `updateProgressBar` over the indicators'
  class sets.
- **Uploads** (`uploads.dfy`): the 10 MiB size filter of
  `handleFileSelection`, the error message per refused file and the count
  handed to the caption.
- **Preferences** (`preferences.dfy`): `loadSavedPreferences` over a storage
  map, and the storage writes of `setContrastMode`, `setFontSize` and
  `selectLanguage` as its partners.
- **JavaScript built-ins** the above depend on: `includes`, `split` and
  `join`, plus a `LastIndexOf` helper that defines `Split` and states the
  last-hyphen rule (`js_text.dfy`); `slice(0, -1)` on the pieces is the
  sequence slice `parts[..|parts| - 1]`; `parseInt` without a radix, number
  truthiness and number-to-text rendering (`js_number.dfy`).
  `parseInt` follows section 19.2.5 of ECMAScript: leading white space is
  skipped, one sign is taken, a `0x`/`0X` prefix selects radix 16, the
  longest run of digits is read, and no digits gives NaN. A number is
  `NaN | Int(n)`; `parseInt`'s `-0` is folded into 0, which is sound here
  because the script only renders it (as "0") or tests its truthiness
  (false, as for 0).

A token with a hyphen and without `.html` is always split at its hyphens,
whatever follows the last one: a step that is not a number renders as `NaN`
(`license-abc` goes to `license-NaN.html`, see `ResolveNonNumericStep`).

## Model

| member | source | states |
|---|---|---|
| Navigation.NavigateTo | script.js:113-130 | exactly the four known services navigate, each to its step-1 page as `goToNextStep` would name it; any other name navigates nowhere |
| Navigation.GoToPreviousStep | script.js:132-146 | step 1 goes to the home page `index.html`; every other step (NaN included) goes to the page `goToNextStep` names for step − 1 |
| Navigation.NextStepInjective | script.js:136-138 | two steps of one service give the same page name only when they are the same number (NaN included) |
| Navigation.PreviousNeverStepZero | script.js:140-146 | going back from any step ≥ 1 never produces a page for a step ≤ 0 |
| Navigation.PreviousUndoesNext | script.js:136-146 | going back from step n + 1 gives the page of step n, for n ≥ 1 |
| Navigation.ResolveNextStep | script.js:269-292 | no navigation exactly when the token is absent or empty; a token containing `.html` is used verbatim; a non-empty token with neither `-` nor `.html` gets `.html` appended |
| Navigation.ResolveAtLastHyphen | script.js:274-286 | both hyphen branches (three or more pieces, exactly two pieces) agree with one rule: service = text before the last hyphen, step = `parseInt` of the text after it |
| Navigation.ResolveCanonicalStep | script.js:276-281 | when the text after the last hyphen is a canonical decimal numeral, the address is the token plus `.html` (split then join is the identity) |
| Navigation.ResolveStepPageToken | script.js:274-286 | for every service name without `.html` (hyphens allowed, e.g. `consumer-complaints`) and every integer step (e.g. 2), the token `<service>-<step>` resolves to `goToNextStep(service, step)` |
| Navigation.ResolveNonNumericStep | script.js:283-285 | a step text that cannot start a number gives `<service>-NaN.html`; there is no error path |
| Navigation.ResolveLeadingZeroStep | script.js:279 | `<service>-0<digits>` resolves to `<service>-<digits>.html` for a canonical numeral: the leading zero is dropped (`x-02` → `x-2.html`) |
| Navigation.ResolvePageAndWordExamples | script.js:272-289 | `a-b.html` is used verbatim despite its hyphen; `done` becomes `done.html` |
| Navigation.AfterSubmit | script.js:262-293 | after the delay a form either navigates to the resolved address, or, exactly when the token is absent or empty, shows the success message "Form submitted successfully" |
| Progress.Restyle | script.js:237-244 | one indicator: classes other than `active`/`completed` are untouched; `completed` iff its position is before the current step; `active` iff it is the current step |
| Progress.UpdateProgressBar | script.js:233-246 | same number of indicators; each position (1-based) reads Completed iff before the current step, Active iff equal to it, unmarked iff after it; other classes untouched |
| Progress.AtMostOneActive | script.js:240-244 | no two indicators are active after an update |
| Progress.IgnoresTotalSteps | script.js:233 | the total step count has no influence on the result |
| Progress.ForgetsPriorMarks | script.js:238 | pages differing only in earlier `active`/`completed` marks look the same after an update |
| Progress.UpdateIdempotent | script.js:233-246 | updating twice to the same step gives the same classes as updating once |
| Progress.SecondOfThree | script.js:233-246 | step 2 of 3: first indicator completed, second active, third unmarked |
| Uploads.HandleFileSelection | script.js:333-349 | an empty batch changes nothing and touches no caption; otherwise the list (created if absent) gains exactly the fitting files in order, one error message is shown per refused file, and the caption count is the whole batch size, refused files included |
| Uploads.Accepted | script.js:338-346 | every kept file is at most 10 MiB, and no more files are kept than were given |
| Uploads.AcceptedAppend | script.js:338-346 | filtering a concatenation is the concatenation of the filtered parts: batch order is kept |
| Uploads.AcceptedExactly | script.js:339-345 | every fitting file is kept as many times as it occurs; no oversized file is kept |
| Uploads.Refused | script.js:339-342 | every file the filter refuses is over 10 MiB |
| Uploads.KeptOrRefused | script.js:339-345 | the kept and the refused files together are exactly the batch, counted with multiplicity: each file lands on one side only |
| Uploads.KeptPlusReported | script.js:339-345 | the number of kept files plus the number of error messages is the batch size |
| Uploads.Rejections | script.js:339-342 | one message per refused file, in batch order: the i-th message is the error "File <name> is too large. Maximum size is 10MB." for the i-th refused file |
| Uploads.SizeLimitBoundary | script.js:339 | a file of exactly 10 MiB is kept; one of 10 MiB + 1 byte is refused with one message |
| Preferences.LoadSavedPreferences | script.js:37-44 | contrast: the stored integer, 0 when missing or NaN; font size: the stored integer, 1 when missing, NaN or 0; language: the stored text, `en` when missing or empty |
| Preferences.ContrastRoundTrip | script.js:38 | every saved contrast mode is read back unchanged |
| Preferences.LanguageRoundTrip | script.js:40 | every saved non-empty language code is read back unchanged |
| Preferences.FontSizeRoundTripNonZero | script.js:39 | every saved font size other than 0 is read back unchanged |
| Preferences.SmallFontReloadsAsMedium | script.js:39 | a saved font size 0 (small) is read back as 1 (medium) |
| Preferences.SavesAreIndependent | script.js:37-44 | saving one preference does not change how the other two load |
| Preferences.LoadSavedPreferencesIntended | script.js:37-44 | corrected loader: same language and contrast as the original; font size falls back to 1 only when missing or NaN |
| Preferences.FontSizeRoundTrip | script.js:39 | with the corrected loader every saved font size, 0 included, is read back unchanged |
| JsNumber.Or | script.js:38-39 | a logical or of a number `x` with a default `d`: `x` when it is a non-zero integer, `d` when it is NaN or 0 |
| JsNumber.OrVersusNumberOr | script.js:38-39 | the logical or of a number `x` with a default `d`, and a fallback taken only for NaN, give different results exactly when `x` is 0 and `d` is not |
| JsNumber.ParseIntOfIntToString | script.js:279 | `parseInt` reads back every integer's decimal text as that integer |
| JsNumber.NumberToStringOfParseInt | script.js:279-281 | rendering `parseInt` of a canonical decimal numeral gives the numeral back |
| JsNumber.NumberToStringInjective | script.js:137 | distinct numbers (NaN included) render as distinct texts |
| JsNumber.ParseIntLeadingZero | script.js:279 | a leading `0` before decimal digits does not change what `parseInt` reads |
| JsNumber.ParseIntNaN | script.js:285 | text whose first character is not white space, a sign or a digit reads as NaN |
| JsNumber.ParseIntNull | script.js:38 | a missing stored item (`null`, read as the text "null") reads as NaN |
| JsNumber.ParseIntHex | script.js:279 | a `0x` or `0X` prefix switches to radix 16: `0x1A` reads as 26 |
| JsNumber.ParseIntSkipsWhitespace | script.js:279 | leading white space does not change what `parseInt` reads |
| JsNumber.ParseIntNegative | script.js:38-39 | a minus sign before decimal digits negates their value, so a stored `-1` reads as −1 |
| JsNumber.ParseIntTrailingText | script.js:279 | text after the digits that cannot extend them is ignored: `3px` reads as 3 |
| JsText.Split | script.js:276 | at least one piece; at least two exactly when the separator occurs; no piece contains the separator |
| JsText.JoinSplit | script.js:276-280 | joining the pieces of a split with the same separator gives the original text |
| JsText.SplitJoin | script.js:276-280 | splitting a join of separator-free pieces gives the pieces back |
| JsText.SplitAtLast | script.js:276-280 | the last piece is the text after the last separator; the other pieces re-join to the text before it |

## Left out

- DOM wiring is not modelled: element lookup, event listeners, drag and drop, the language menu, keyboard activation of service cards, `createFileList`/`createFileItem` markup, `removeFile`. Effects appear only as returned values.
- The 1500 ms submission delay and the notification animation timers are not modelled; each timer fires once, so only the outcome is modelled (`AfterSubmit`).
- `formatFileSize` is not modelled: it relies on floating-point `Math.log`, `toFixed` and `parseFloat`.
- `formatCurrency` and `formatDate` are not modelled: they wrap `Intl` formatters whose behaviour is not visible.
- `validateEmail` and `validatePhone` are not modelled: they rest on regular-expression semantics and nothing calls them.
- `applyContrastMode`, `applyFontSize` and the notifications of `setContrastMode`, `setFontSize` and `selectLanguage` are not modelled; only those functions' storage writes are (`SaveContrastMode`, `SaveFontSize`, `SaveLanguage`).
- `updateUploadAreaText`'s caption wording is not modelled; `HandleFileSelection` returns the count passed to it.
- `console.error` in `navigateTo` is not modelled; an unknown service yields no navigation.
- Numbers are unbounded integers or NaN. JavaScript rounds integers beyond 2^53 and renders values from 10^21 up in exponent notation; neither is modelled.
- Arguments of a non-number type (strings from markup, fractions) to `goToNextStep`, `goToPreviousStep` and `updateProgressBar` are not modelled.
- Strings are sequences of Unicode code points, not UTF-16 code units. The script's only character tests (`-`, `.html`, digits, white space) involve no surrogate pairs, so this makes no difference here.
- A class list is modelled as a set, so the order of class names in an element's `className` is not modelled.

## Findings

| source | as written | input that shows it | evidently intended | confidence | as-written member | corrected member |
|---|---|---|---|---|---|---|
| script.js:39 | the font size is `parseInt` of the stored text, or-ed with the default 1, so a stored 0 is treated like a missing value | choose "Small" (`setFontSize(0)` stores "0"), then load any page: font size becomes 1 (medium) | a stored 0 reloads as 0; only a missing or non-numeric value falls back to 1 | high; not executed | Preferences.SmallFontReloadsAsMedium | Preferences.FontSizeRoundTrip |
