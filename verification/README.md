# instahyre-autobot `apply.js`, modelled in Dafny

`apply.js` is a Puppeteer script. It logs into Instahyre with cookies taken
from the `INSTAHYRE_COOKIES` environment variable. It scrolls the
"opportunities" page until a height reading equals the previous one, or
after 40 readings. Then it walks the
"View" buttons one by one: it opens the item, clicks the first "Apply" button
on the page if there is one, and dismisses the item with the first
Close/Cancel/Back button on the page or, failing that, the Escape key. Both
button queries search the whole document, not only the opened panel.

This project models the logic of the script without a browser. The page is
an oracle: height readings for scrolling, and per-iteration observations
(or button texts) for the main loop. The modules are:

- `wrappers.dfy` (`Wrappers`): `Option` and `Result`.
- `cookies.dfy` (`Cookies`): JavaScript values and truthiness, cookie
  records, the normalisation `cookies.map(...)`, and the loading step that
  throws when the environment variable is unset or empty.
- `scroll.dfy` (`Scroll`): the `autoScroll` stopping rule.
- `labels.dfy` (`Labels`): XPath 1.0 `normalize-space` and `contains`
  (section 4.2 of XPath 1.0), the three button queries, and `$x` as a
  selection of button positions in document order.
- `driver.dfy` (`Driver`): the `for (;;)` View/Apply/Close loop. It has a
  functional definition (`Drive`), an imperative rendering (`RunLoop`), and
  a grammar for the action trace (`WellFormed`). Lemmas tie the three together.
- `script.dfy` (`Script`): the whole script as a sequence of browser effects.

Behaviour of `apply.js` that the model keeps and that is easy to overlook:

- `!raw` (line 20) rejects only an unset or empty `INSTAHYRE_COOKIES`. A
  value of `[]` passes the check and loads zero cookies
  (`Cookies.EmptyArrayIsAccepted`).
- The throw at line 20 happens after the browser was launched, and
  `browser.close()` (line 101) is not reached on that path
  (`Script.MissingCookiesStopEarly`).
- `domain` becomes `.instahyre.com` only when the record has neither a truthy
  `domain` nor a truthy `url` (line 25).
- The button queries use XPath `contains`, which is a case-sensitive
  substring test. For example, a "Closed" button is taken for a Close button
  (`Labels.SubstringAndCaseSensitive`).

## Model

| member | source | states |
|---|---|---|
| `Cookies.FalsyValues` | apply.js:25-26 | A value fails the `!` tests of lines 25-26 exactly when it is `undefined`, `null`, `false`, `0` or the empty string. |
| `Cookies.NormalizeCookie` | apply.js:23-27 | The copy keeps every property other than `domain` and `path` unchanged. The copy always has a truthy `path`: the old one if it was truthy, otherwise `"/"`. `domain` becomes `".instahyre.com"` exactly when neither `domain` nor `url` was truthy; otherwise `domain` is untouched. The only properties added are `path` and possibly `domain`. |
| `Cookies.NormalizeEstablishes` | apply.js:25-26 | Every normalised record has a truthy path and a truthy domain or url. |
| `Cookies.NormalizeFixpoint` | apply.js:24-27 | Normalisation leaves a record unchanged if and only if the record already has a truthy path and a truthy domain or url. |
| `Cookies.NormalizeIdempotent` | apply.js:23-28 | Normalising twice gives the same record as normalising once. |
| `Cookies.UrlCookieGetsNoDomain` | apply.js:25 | A record with a truthy `url` and no `domain` property still has no `domain` after normalisation, and its `url` is kept. |
| `Cookies.NormalizeAll` | apply.js:23-28 | `cookies.map` gives as many records as it was given, in the same order, each one the normalised input record at that position. |
| `Cookies.NormalizeAllSound` | apply.js:22-28 | Every record in the mapped list is normalised. A list whose records are all normalised comes back unchanged. |
| `Cookies.LoadCookies` | apply.js:19-28 | The missing-variable error is raised exactly when the variable is unset or the empty string. Otherwise, malformed text yields the JSON syntax error and only then, a parsed value that is not an array yields the `map` type error and only then, and an array loads as its records normalised in order. |
| `Cookies.EmptyArrayIsAccepted` | apply.js:19-21 | The value `[]` is not rejected: it loads as zero cookies. |
| `Scroll.AutoScroll` | apply.js:40-51 | Takes between 1 and 40 readings. None but the last equals the reading before it (0 before the first). The loop stops early only on an unchanged reading. `stable` is true exactly when the last reading was unchanged. |
| `Scroll.StopIsUnique` | apply.js:41-50 | At most one reading count satisfies the stopping rule, so the contract of `AutoScroll` determines its result. |
| `Scroll.ZeroFirstReadingStops` | apply.js:41-47 | Since `prev` starts at 0, a first height of 0 stops the loop after one reading. |
| `Scroll.GrowingPageExhaustsBudget` | apply.js:42-48 | A page whose height grows at every reading is read exactly 40 times. |
| `Labels.NormalizeSpace` | apply.js:55-58 | The result has the same words as the input (its maximal runs of non-whitespace characters, in order) and keeps every non-whitespace character in order. Its only whitespace is single spaces, never two in a row, never leading or trailing, so each internal whitespace run of the input became exactly one space. Text without whitespace comes back unchanged. |
| `Labels.FindWord` | apply.js:55-58 | The search answers true exactly when the word occurs somewhere in the text (XPath `contains`). |
| `Labels.NormalizeSpaceKeepsWords` | apply.js:55-58 | For a word without whitespace, it occurs in the normalised text exactly when it occurs in the raw text. |
| `Labels.MatchesLabel` | apply.js:55-58 | Evaluating a query's predicate on one button's text answers true exactly when `contains(normalize-space(.), word)` holds for the query's word, or for one of "Close", "Cancel", "Back". |
| `Labels.MatchesIgnoresWhitespace` | apply.js:55-58 | Each of the three queries selects a button exactly when its raw text contains one of the query's words ("View"; "Apply"; "Close", "Cancel" or "Back"). |
| `Labels.SubstringAndCaseSensitive` | apply.js:57-58 | A button reading "Closed" counts as a Close button. A button reading "view" does not count as a View button. |
| `Labels.Select` | apply.js:64-66 | `$x` yields positions in strictly increasing (document) order. Each yielded button matches the query, and every matching button is yielded. |
| `Labels.SelectNonEmpty` | apply.js:82-83 | A query's result is non-empty exactly when some button matches it. |
| `Driver.Dismissal` | apply.js:89-97 | The dismissal is always a Close click or an Escape press. It is a Close click exactly when a Close/Cancel/Back button was present. |
| `Driver.Step` | apply.js:72-97 | An iteration breaks exactly when `index >= ` the View count. Otherwise it increments `index` by one and increases `applied` by one exactly when an Apply button was seen (else by zero). It keeps the earlier trace and appends exactly one item block: `Open(index)` first, an Apply click exactly when an Apply button was seen, 3 actions with it and 2 without, and as its last action the dismissal the observation dictates. |
| `Driver.WellFormedCounts` | apply.js:89-97 | In any well-formed trace, the number of Opens equals the number of dismissals (Close clicks plus Escapes), and Apply clicks never outnumber Opens. |
| `Driver.TranscriptFacts` | apply.js:76-97 | The reference transcript of n observations is well formed. It has n Opens, one Apply click per observation with an Apply button, one Close click per observation with a Close button, and one Escape per other observation. |
| `Driver.DriveFromFacts` | apply.js:68-98 | From any state, the loop completes n iterations, each with a View count above its index. It breaks exactly when the next View count is at most `index`, or else it has used up all observations. The counters and trace grow by exactly the reference account of those n observations. |
| `Driver.DriveExitRule` | apply.js:72-78 | `index` counts completed iterations, and each completed iteration saw more View buttons than its index. The loop exits at its `break` if and only if the next observation shows at most `index` View buttons. |
| `Driver.DriveCounters` | apply.js:82-87 | `applied` equals the number of completed iterations that saw an Apply button, so `applied <= index`. |
| `Driver.DriveTrace` | apply.js:76-97 | The trace is well formed. It has `index` Opens and `applied` Apply clicks. Each iteration ends in exactly one dismissal: a Close click when it saw a Close button, otherwise an Escape. |
| `Driver.Drive` | apply.js:68-98 | Running the loop over the observations never completes more iterations than there are observations, keeps `applied <= index`, and leaves a well-formed trace. |
| `Driver.RunItem` | apply.js:76-97 | One pass of the loop body that does not break (open the item, click Apply if seen, click Close or press Escape) ends in exactly the state that `Step` gives for that observation. |
| `Driver.RunLoop` | apply.js:60-98 | The imperative loop ends in the same state as `Drive`, and it reports a `break` exactly when `Drive` does. |
| `Driver.Observe` | apply.js:72-91 | The View count is the size of the View query's result, and it is non-zero exactly when some listed button says "View". An Apply button is seen exactly when some button anywhere on the page, queried after the item was opened, matches the Apply query; a Close button is seen exactly when some button on the page, queried just before the item is dismissed, matches the Close query. |
| `Driver.OpenedButton` | apply.js:76-77 | The button clicked for item `index` is a View button, and exactly `index` View buttons come before it: every earlier View button is among the first `index` query results, and those all come before it. |
| `Script.RunScript` | apply.js:7-102 | The first effect is always the browser launch. The script throws exactly when loading the cookies fails; it then throws the error loading raised (missing variable at line 20, JSON syntax error at line 21, `map` on a non-array at line 23), and launching the browser is its only effect. The browser is closed exactly when the script finishes. |
| `Script.LoopActionsAreEffects` | apply.js:33-101 | When loading succeeds, the loop's clicks and key presses follow the four setup effects, all of them and in the loop's order. The browser is closed right after them exactly when the loop reached its `break`, and the script then reports the loop's Apply count. |
| `Script.MissingCookiesStopEarly` | apply.js:12-20 | With the variable unset or empty, the only effect is launching the browser, and the script throws the missing-variable error. No cookie is set and the browser is not closed. |
| `Script.CookiesSetAreNormalized` | apply.js:19-33 | If loading does not throw, the first effects are launch, home page, setting exactly the normalised parsed records, and the opportunities page. Every cookie set is normalised. |
| `Script.ReportedCountIsApplyClicks` | apply.js:85-101 | When loading succeeds and the loop reaches its `break`, the count printed at the end is the number of Apply clicks. It is at most the number of items opened, and closing the browser is the last effect. |

## Left out

- Browser I/O: Puppeteer launch, `newPage`, `goto`, `setCookie`, `page.evaluate`, `window.scrollBy`, `$x`, clicks and key presses. These become oracle inputs (heights, observations, button texts) or effect records.
- Failures of browser calls (navigation errors, clicking a detached button) are not modelled. Each of them would reject the script's promise; the model assumes every browser call succeeds.
- `sleep`, `waitForSelector` and the other timeouts: they only affect timing.
- `JSON.parse` is a parse oracle. Elements of the parsed array are delivered as the records their spread copy produces (`{...null}` is the empty record), and the order of properties is not modelled.
- `console.log` progress lines are not modelled. The final count is kept as `Finished(applied)`.
- `Script.RunScript` does not pass the two `autoScroll` calls (lines 52 and 70) through. Their results are discarded, and no decision of the script depends on them. `Scroll.AutoScroll` models a single call.
- The XPath evaluator: a page is modelled as the string-values of its `button` elements in document order. Element selection by tag is not modelled.
- Driver.RunLoop: the source loop is `for (;;)` and need not terminate. The model runs over a finite sequence of observations and reports `OutOfObservations` when they run out, so a page that never runs out of View buttons is modelled only up to that bound.
- JSON numbers are modelled as reals with the same truthiness as the parsed number. A literal too large for a double parses to ±Infinity, which is truthy and is delivered as a nonzero real. A literal that underflows parses to 0, which is falsy and is delivered as 0.0. `NaN` cannot come from JSON.
