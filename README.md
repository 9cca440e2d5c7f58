# update-github-bio: a verified model of the bio composer

`update-github-bio` is a small Node.js service. Every 15 minutes it reads a
user's coding time for today from WakaTime and writes it into their GitHub
profile bio, for example `internet crawler 🔭, coded 2.5h today(June 5)`. The
service is mostly HTTP plumbing. This project models its pure core in Dafny and
proves what that core does:

- **`_checkEnv`** (module `EnvCheck`): both `GH_TOKEN` and `WAKATIME_API_KEY`
  must be set to non-empty strings. `GH_TOKEN` is checked first.
- **The duration formatter** inside `getWakatimeTotalTime` (module `Duration`):
  hours `h` and minutes `m` become `"<n>h"`, `"<x.y>h"`, `"<m>m"`, `null`, or
  `undefined` when the request failed. The model copies the code as written,
  including the test `(h + m) % 60` on line 52.
- **`getToday`** (module `DateLabel`): a month index 0..11 and a day of the month
  become `"<Month> <day>"`, using the fixed English month table.
- **One run of `init`** (module `Cycle`): a pure function from the environment,
  the outcome of the WakaTime request, the month and the day to the list of
  effects the run issues, in order: `CheckFailed(reason)`, `Fetch`,
  `Update(bio)`. The guard on line 94 is copied as written.
- **Number rendering** (module `Numerals`): JavaScript's `String(n)` for integers
  and `toFixed(1)`. Each renderer has a parser beside it so that round trips can
  be stated.

Where a source line departs from its evident intent, the as-written behaviour is
what the model does. A corrected twin (`FormatDurationIntended`, `RunIntended`)
stands beside it, and both are listed under "## Findings".

The whole project is `wrappers.dfy`, `numerals.dfy`, `date_label.dfy`,
`env_check.dfy`, `duration.dfy` and `cycle.dfy`, verified together.

## Model

| member | source | states |
|---|---|---|
| Numerals.NatText | src/index.ts:30-32 | a day (or any natural number) is written as decimal digits, with no leading zero except for 0 itself |
| Numerals.IntText | src/index.ts:53-59 | `String(i)` of an integer: at least one character, a leading '-' exactly for negatives, never a '.' |
| Numerals.IntTextRoundTrip | src/index.ts:59 | `String(i)` of an integer reads back to `i`, so `m + "m"` carries exactly the minutes |
| Numerals.NatTextInjective | src/index.ts:32 | distinct numbers are written as distinct texts |
| Numerals.TenthsTextRoundTrip | src/index.ts:55 | a one-decimal rendering of `n` tenths reads back to `n` |
| Numerals.NearestTenth | src/index.ts:55 | `toFixed(1)` picks the tenth nearest to the value's magnitude, the larger one on a tie |
| Numerals.ToFixed1 | src/index.ts:55 | `(q/60).toFixed(1)`: always one digit after a '.', with a leading '-' exactly when the value is negative |
| Numerals.ToFixed1Reading | src/index.ts:55 | `(q/60).toFixed(1)` reads back as a signed number of tenths within half a tenth (three minutes) of `q/60` hours |
| Numerals.ToFixed1IsNotInt | src/index.ts:55 | a `toFixed(1)` rendering never reads as a plain integer, so the two "h" forms can be told apart |
| DateLabel.Today | src/index.ts:29-32 | the label starts with the month's name from the table and is longer than the name and the space |
| DateLabel.MonthsDistinct | src/index.ts:14-27 | the twelve month names are pairwise distinct |
| DateLabel.NoSpaceInMonths | src/index.ts:14-27 | no month name contains a space, so the label's first space separates month from day |
| DateLabel.TodayRoundTrip | src/index.ts:12-33 | the label `months[i] + " " + day` parses back to the month index and day it was made from |
| DateLabel.TodayInjective | src/index.ts:12-33 | two dates get the same label only when they are the same date |
| EnvCheck.IsSet | src/index.ts:111-115 | `process.env[name]` is truthy: false for an absent variable, and for a present one true exactly when its value is non-empty |
| EnvCheck.CheckEnv | src/index.ts:110-118 | passes iff both credentials are present and non-empty; otherwise fails with the message naming `GH_TOKEN` when it is unset, else naming `WAKATIME_API_KEY` |
| EnvCheck.CheckEnvReadsOnlyCredentials | src/index.ts:110-117 | the outcome depends only on whether the two credentials are set |
| EnvCheck.BothMissingNamesGhToken | src/index.ts:111-113 | when both are missing, the error is the `GH_TOKEN` message, "`GH_TOKEN` is a required `.env` item" |
| EnvCheck.MessagesNameTheirVariable | src/index.ts:112-116 | each thrown message starts with its variable's name in backquotes, so the two messages differ |
| Duration.TemplateText | src/index.ts:95 | `${total}` inserts a string unchanged and writes `null` and `undefined` as the words "null" and "undefined" |
| Duration.TemplateTextTellsTotalsApart | src/index.ts:95 | for the formatter's results and `undefined`, the interpolated text determines the total |
| Duration.FormatDuration | src/index.ts:49-60 | never `undefined`; `null` exactly when `h <= 0` and `m == 0`; otherwise a text ending in `h` exactly when `h > 0` and in `m` otherwise |
| Duration.ZeroDayIsNull | src/index.ts:56-57 | `h == 0, m == 0` gives `null` |
| Duration.MinutesBranch | src/index.ts:56-59 | with `h <= 0` and `m != 0` the result is `String(m) + "m"`, which reads back to `m` minutes |
| Duration.WholeHoursBranch | src/index.ts:51-53 | with `h > 0` and `(h + m) % 60 == 0` the result is `String((h + m) / 60) + "h"`, which reads back to `(h + m) / 60` hours |
| Duration.FractionalHoursBranch | src/index.ts:51-55 | with `h > 0` and `(h + m) % 60 != 0` the result reads back within three minutes of `60h + m` |
| Duration.AsWrittenIntegerForm | src/index.ts:51-55 | with `h > 0` the display is a plain integer exactly when `(h + m) % 60 == 0`, whatever the total number of minutes |
| Duration.AsWrittenMisreadsWholeHours | src/index.ts:52-53 | 1h59m is shown as "1h" (60 minutes where 119 were logged) and 2h0m as "2.0h"; the intended formatter gives "2.0h" and "2h" |
| Duration.FormatDurationIntended | src/index.ts:49-60 | the corrected formatter keeps the same null and suffix behaviour as the original |
| Duration.IntendedHoursAccurate | src/index.ts:51-55 | with `h > 0` the corrected display reads back within three minutes of `60h + m` minutes, and to exactly `60h + m` when that is a whole number of hours; it is a plain integer (no '.') if and only if `60h + m` is a whole number of hours |
| Duration.IntendedAgreesWithoutHours | src/index.ts:56-59 | the corrected and as-written formatters agree whenever `h <= 0` |
| Cycle.TotalOf | src/index.ts:35-64 | the total is `undefined` exactly when the request failed; otherwise it is the formatter's result |
| Cycle.UpdateGuard | src/index.ts:94 | the three-way disjunction guarding the update holds for every total: string, `null` or `undefined` |
| Cycle.BioMessage | src/index.ts:95-96 | the bio is the fixed head "internet crawler 🔭, coded ", then exactly the total's text, then " today(<date>)" |
| Cycle.Run | src/index.ts:87-104 | a run whose credential check fails is exactly `[CheckFailed(reason)]`; one whose check passes is exactly `[Fetch, Update(bio)]`, the bio made from the fetched total and today's label, whatever the fetch gave |
| Cycle.FailedCheckIssuesNothing | src/index.ts:87-91 | a run whose check fails is exactly `[CheckFailed(reason)]`: no fetch and no update |
| Cycle.PassedCheckUpdatesOnce | src/index.ts:90-97 | a run whose check passes is exactly `[Fetch, Update(bio)]` for every fetch outcome, with one update whose text is the preamble, then `coded ${total} today(${today})` |
| Cycle.ZeroDayStillUpdates | src/index.ts:91-97 | a zero day still sends an update, with the text "coded null today(...)" |
| Cycle.FailedFetchStillUpdates | src/index.ts:61-97 | a failed request still sends an update, with the text "coded undefined today(...)" |
| Cycle.RunIntended | src/index.ts:87-104 | the corrected run also starts with `CheckFailed` exactly when the check fails |
| Cycle.IntendedGuard | src/index.ts:94 | the corrected guard holds if and only if the total is a string other than "undefined" |
| Cycle.IntendedUpdatesOnlyWithDuration | src/index.ts:94-97 | the corrected run sends exactly one update when the check passes and some time was logged, and none otherwise |
| Cycle.AsWrittenUpdatesOnZeroDay | src/index.ts:94-97 | on a zero day the as-written run sends one update and the corrected run sends none |

## Left out

- The HTTP calls (the summaries GET and the bio PATCH), with their headers and query parameters. The fetch is an input outcome (`Fetched(h, m)` or `FetchFailed`) and the PATCH is the `Update` effect. A failed PATCH is caught inside `updateBio` and changes nothing else, so the model has no separate outcome for it.
- The 15-minute timer, the first call of `init` at start-up, and promise scheduling. `Run` models one cycle; cycles share no state.
- `new Date()`, `getMonth()`, `getDate()` and the local time zone. The month index (0..11) and the day (1..31) are parameters, typed to the ranges those calls return.
- dotenv loading. The environment is a `map<string, string>`.
- Console logging of errors. It has no effect the model could observe.
- The message of an exception other than a missing credential. Only the `CheckFailed` reason is modelled.
- Numerals.ToFixed1: it rounds the exact rational `(60h + m) / 60`, while JavaScript rounds the nearest double to `h + m / 60`. The two can differ when the value is exactly halfway between tenths (`m = 3, 9, 15, ...`), so the rendered digits are not claimed to match JavaScript bit for bit.
- Duration.FormatDuration: `h` and `m` are integers. A response with fractional hours or minutes, values beyond 2^53, or magnitudes of 1e21 and above (where JavaScript switches to exponent notation) is not modelled.
- The response shape. A response without `data[0].grand_total` throws inside the `try` and ends as `undefined`, the same as `FetchFailed`.
- The bio's telescope emoji is the single code point U+1F52D. JavaScript stores it as two UTF-16 units, but the JSON body carries the same character either way.

## Findings

| source | as written | input that shows it | evidently intended | confidence | as-written member | corrected member |
|---|---|---|---|---|---|---|
| src/index.ts:52-53 | the whole-hour test and the printed value use `h + m`, adding hours to minutes | `h = 1, m = 59` shows "1h" (119 minutes logged); `h = 2, m = 0` shows "2.0h" | test and divide the total minutes `h * 60 + m`: "2.0h" and "2h" | high; not executed | Duration.AsWrittenIntegerForm | Duration.IntendedHoursAccurate |
| src/index.ts:94 | the guard is a disjunction of three inequalities, one of which holds for every total, so it is always true | a zero day (`h = 0, m = 0`) or a failed request sends "coded null today(...)" or "coded undefined today(...)" | the three tests joined with "and": skip the update when there is nothing to report | high; not executed | Cycle.AsWrittenUpdatesOnZeroDay | Cycle.IntendedUpdatesOnlyWithDuration |
