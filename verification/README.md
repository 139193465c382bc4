# Dropdown selection logic of the ICAI batch monitor

`check_icai.js` drives a cascading web form (region, then point of use, then
course) to a fixed configuration. This project models that selection logic
in Dafny:

- `selectByLabel`: reads every option of a `<select>` as a (value, trimmed
  text) pair, takes the first option whose lower-cased text contains the
  lower-cased target label, and sets the select to that option's value.
  It answers whether it found one.
- The selection sequence: three id-addressed calls (`#ddl_reg` with
  "Southern", `#ddl_pou` with "HYDERABAD", `#ddl_course` with
  "Advanced (ICITSS) MCS"), each failure only clearing its flag. When any
  flag is false, a fallback scans every select in document order once per
  target and stops each scan at the first select that takes the target.

The page is an immutable record: an ordered list of selects, each with an
id, fixed options and a current value. `selectByLabel` is a pure step from
one page to the next. The driver is written as methods with loops over that
record; they have no heap state. Every call made is recorded as
(selector, target, result), so the contracts can state which calls happen
and in what order. The page after a sequence of calls is described by
`FormPage.Effect`. That predicate fixes the shape of the page: the same
selects, ids and options. It keeps untouched selects unchanged. Every
select that was written holds the value of the first option matching the
last target written to it.

Modules:

- `Optional`: the option type.
- `Ascii`: `trim`, `toLowerCase` and `includes` over ASCII.
- `OptionMatcher`: the read step and the matching rule.
- `FormPage`: the page, selector resolution, `selectByLabel` and `Effect`.
- `Selection`: the id phase, the scan, the fallback and the whole run.

## Model

| member | source | states |
|---|---|---|
| Ascii.ContainsSpec | check_icai.js:7 | `includes` answers true exactly when the needle occurs at some offset of the text |
| Ascii.LowerCollapsesCase | check_icai.js:7 | two strings lower-case to the same string exactly when they differ at most in letter case, and lower-casing twice is lower-casing once |
| Ascii.TrimStartSpec | check_icai.js:6 | removing leading whitespace cuts exactly a run of whitespace and leaves a string that does not start with whitespace |
| Ascii.TrimEndSpec | check_icai.js:6 | removing trailing whitespace cuts exactly a run of whitespace and leaves a string that does not end with whitespace |
| Ascii.TrimSpec | check_icai.js:6 | `trim` returns a contiguous slice of its input with no whitespace at either end, and only whitespace lies outside that slice |
| Ascii.TrimIgnoresPadding | check_icai.js:6 | wrapping a string in whitespace on either side does not change its trimmed form |
| OptionMatcher.FindMatch | check_icai.js:6-7 | `find` gives nothing exactly when no read option matches; otherwise it gives the position of a matching option with no matching option before it |
| OptionMatcher.MatchIgnoresTargetCase | check_icai.js:7 | changing the case of the target's letters never changes whether an option matches |
| OptionMatcher.FindMatchIgnoresTargetCase | check_icai.js:7 | changing the case of the target's letters never changes which option is chosen |
| OptionMatcher.UpperCaseTargetMatches | check_icai.js:7 | the target "HYDERABAD" matches the option text "Southern - hyderabad" |
| OptionMatcher.FindMatchPicksMatchingRegion | check_icai.js:7 | among the options "Eastern" and "Southern - HYDERABAD", the target "HYDERABAD" picks the second one |
| OptionMatcher.OptionPaddingIsIgnored | check_icai.js:6-7 | whitespace around an option's text neither blocks nor creates a match, because the option reads the same as the unpadded one |
| OptionMatcher.TargetPaddingBlocks | check_icai.js:6-7 | the target is not trimmed: an option matches its own trimmed text, but not that text with whitespace added before or after it |
| OptionMatcher.EmptyTargetPicksFirst | check_icai.js:7 | the empty target is contained in every text, so a non-empty option list yields its first option |
| FormPage.Resolve | check_icai.js:6 | an id selector addresses the first select carrying that id, or nothing when no select has it; a position selector addresses the select at that position when the page has one |
| FormPage.SelectByLabel | check_icai.js:5-13 | answers true exactly when the addressed select has an option whose trimmed, lower-cased text contains the lower-cased target; when it answers false the page is unchanged, including when the selector finds no select |
| FormPage.SelectByLabelWrites | check_icai.js:7-10 | on success only the addressed select changes; it takes the value of the first option in document order whose text matches, even when later options also match; no select appears or disappears and no option list changes |
| FormPage.EffectCompose | check_icai.js:18-37 | applying one sequence of writes and then another has the effect of the concatenated sequence, so later writes to a select override earlier ones |
| FormPage.SelectByLabelIdempotent | check_icai.js:5-13 | repeating a `selectByLabel` call with the same selector and target gives the same answer and the same page as making it once |
| FormPage.SelectByLabelIgnoresTargetCase | check_icai.js:7-9 | targets that differ only in letter case give the same answer and the same page |
| Selection.IdPhase | check_icai.js:17-37 | the three id calls are always made, in the order region, POU, course, whatever the earlier ones returned; each flag is true exactly when its select could take its target on the starting page; the page holds exactly the writes of the successful calls |
| Selection.Scan | check_icai.js:52-56 | selects are tried in increasing position, one call each; the scan stops at the first select that takes the target, so no later select is tried; at most that one select changes; when no select takes it, every select is tried and nothing changes |
| Selection.Fallback | check_icai.js:43-57 | one full scan per desired target, in the order "Southern", "HYDERABAD", "Advanced (ICITSS) MCS"; each scan hits the first select that can take its target, and the page holds the writes of those hits in order |
| Selection.IdTargetBoundsScan | check_icai.js:39-56 | when the select with a given id can take a target, a scan over all selects for that target succeeds at that select or at an earlier one |
| Selection.Run | check_icai.js:15-58 | the id phase always runs first; the fallback runs exactly when some flag is false, and then re-attempts all three targets, including those already set by id; each such target is then taken by a select no later than the one its id addresses |

## Left out

- Playwright calls (`page.$$eval`, `page.selectOption`, `page.$$`) are reads and writes on the page record, not browser operations.
- `page.selectOption(selector, value)` is modelled as setting the select's current value to `value`.
- FormPage.SelectByLabelWrites: Playwright matches the string given to `selectOption` against each option's value or its label, and the first such option in document order wins. An earlier option whose label equals the matched value is therefore selected instead. With the options ("A", "S1") and ("S1", "Southern") and the target "Southern", the model sets the value "S1", while Playwright would select the first option, with value "A". The model agrees with Playwright only when no option's label equals the value of an option after it.
- Selection.IdPhase: `selectOption` waits for the select to be visible and enabled and throws on time-out, for example on a dependent dropdown that is still disabled. The exception rejects `selectByLabel` and ends the rest of the sequence. The model has no exception path: every call returns true or false, so "the three id calls are always made" holds only when no `selectOption` call throws.
- Selection.Run: for the same reason, the fallback and its three scans run to completion in the model, while in the script a thrown time-out ends the run at that call.
- The two `page.waitForTimeout(2000)` delays (check_icai.js:25 and 33) are timing only and have no logical effect.
- The `console.warn` messages (check_icai.js:20, 28, 36 and 41) are output only and change no state.
- CSS selector semantics are left out.
  - `select:nth-of-type(idx + 1)` (check_icai.js:53) counts selects among their siblings. The model takes it as a global position in the page's list of selects.
  - An id selector is taken to address the first select with that id. On a page with duplicate ids, the source would read the options of all of them.
- Ascii.Lower: covers only ASCII letters, not the full Unicode case mapping of `toLowerCase`.
- Ascii.Trim: strips only ASCII whitespace (space, tab, line feed, vertical tab, form feed, carriage return), not the non-ASCII whitespace that `trim` also removes, such as the no-break space.
- Repopulation of dependent dropdowns after a selection (the server postback) is not modelled. The script expects the point-of-use and course lists to reload after each selection: that is what the two fixed waits are for (check_icai.js:24-25 and 32-33). The fallback does not wait between targets at all (check_icai.js:51-56). Fixed option lists are this model's abstraction, not the script's assumption. This is why `Selection.IdPhase` and `Selection.Run` state each flag against the starting page.
- Table extraction, per-course aggregation and notification delivery are not part of this model. The selection code contains none of them.
- `check_icai.js` makes one substring pass per `selectByLabel` call, with no exact-match pass, no retries and no event dispatch, and the model does the same.
