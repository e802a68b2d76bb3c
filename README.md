# photostat: a Dafny model of the upload page's client logic

photostat is a web page. A visitor uploads event photos and then waits out a
24-hour "developing" countdown. Meanwhile they may leave a phone number to get
a text when the photos are ready. This project models the page's client-side
logic and proves properties of it:

- **Phone field.** The keystroke formatter `formatPhoneNumber` is in module
  `Phone`. It strips non-digits and shows the digits as `ddd`, `(ddd) ddd` or
  `(ddd) ddd-dddd`, dropping digits after the tenth. The same module has the
  validator `isValidPhoneNumber` (the regular expression `^\+?[1-9]\d{1,14}$`)
  and the guard in the submit handler.
- **Page countdown.** Module `PageCountdown` holds the seconds left until the
  fixed launch instant (2025-03-02 15:00 UTC), the clamped one-second tick and
  the `hh:mm:ss` display. Module `Decimal` models JavaScript's `toString()` and
  `padStart(2, "0")`. Module `Hms` holds the hours/minutes/seconds arithmetic.
- **The `useCountdown` hook.** Module `UseCountdown` models it as a class
  `Countdown` that holds the counter. Its interval fires only while the
  counter is positive. The module also has the counter's hours/minutes/seconds
  decomposition.
- **Upload controller.** Class `HomePage.Home` holds the page component's
  state, one field per React state variable. The stored `hasUploaded` marker
  is a boolean field. The handlers are methods: select files, remove a photo,
  the sequential upload loop behind the "access" button, "upload more", the
  countdown tick and the phone dialog. Module `Uploads` gives the loop's
  effect on the preview list and on the displayed error as functions on
  values, with lemmas about them. The loop method `Home.Access` is proved
  against those functions.

Things outside the page become parameters:

- The network: one `FileOutcome` per selected file, and a `StoreReply` for the
  phone store.
- The clock: `nowMs` in milliseconds.
- `URL.createObjectURL`: a function `File -> string`.
- The configured bucket and region: opaque strings.

Each timer callback is a method that a caller invokes one firing at a time.

The regular expression is modelled twice. `Phone.IsValidPhoneNumber` states it
directly. `Phone.Matches` is a small anchored backtracking matcher over
repeated character classes, a separate reference definition with
`Phone.PhonePattern` as `^\+?[1-9]\d{1,14}$`. `Phone.ValidatorIsRegex` proves
the two agree.

Worth noting about the code:

- After the upload loop, `uploadError` holds only the last file's message. It
  is null when the last file succeeded, even if earlier files failed.
  `Uploads.LaterSuccessClearsError` shows such a case.
- The stage goes to countdown after the loop even when every file failed, and
  "upload more" goes back to upload.
- If `localStorage.setItem` throws after the loop, the selection has already
  been cleared, but the marker and the stage stay as they were
  (`HomePage.Home.Access`).
- The hook does not clamp at zero. It stops scheduling its interval once the
  counter is no longer positive. A negative initial value stays as it is, and
  a non-negative one stops at 0.
- The submit handler strips every non-digit, the "+" included, before it
  validates. So the "+" branch of the validator is never used by the page
  (`Phone.SubmitFormattedField`).

## Model

| member | source | states |
|---|---|---|
| `Phone.StripNonDigits` | app/page.tsx:23 | the result is made of ASCII digits only and is no longer than the input |
| `Phone.StripKeepsDigits` | app/page.tsx:23 | every ASCII digit of the input occurs in the result exactly as often as in the input |
| `Phone.StripConcat` | app/page.tsx:23 | stripping a concatenation is concatenating the stripped parts, so the kept digits stay in input order |
| `Phone.FormatPhoneNumber` | app/page.tsx:21-30 | the formatter itself; constrained by `FormatShape`, `FormatKeepsDigits`, `ShortDigitsUnchanged` and `FormatIdempotent` |
| `Phone.FormatKeepsDigits` | app/page.tsx:21-30 | the digits of the formatted value are exactly the first min(n, 10) digits of the input |
| `Phone.FormatShape` | app/page.tsx:21-30 | the layout by position for n digits typed: n < 4 shows the bare digits; from n = 4 on, "(" at 0, ")" at 4, a space at 5 and length n + 3; from n = 7 on, also "-" at 9 and length min(n, 10) + 4; every other position is a digit |
| `Phone.ShortDigitsUnchanged` | app/page.tsx:25 | a string of at most three digits is shown unchanged |
| `Phone.FormatIdempotent` | app/page.tsx:576-578 | formatting the already formatted field value again changes nothing, so re-applying it on every keystroke is harmless |
| `Phone.IsValidPhoneNumber` | app/page.tsx:174-177 | the validator stated directly: an optional "+", then 2 to 15 digits, the first not 0; proved equal to the regular expression by `ValidatorIsRegex` |
| `Phone.ValidPhoneRejects` | app/page.tsx:174-177 | the validator rejects the empty string, a leading 0 and more than 15 digits; an accepted string has 2 to 15 digits |
| `Phone.ValidDigitsOnly` | app/page.tsx:174-177 | on a digits-only string the validator accepts exactly 2 to 15 digits with a first digit other than 0 |
| `Phone.Matches` | app/page.tsx:175 | an anchored backtracking matcher for a sequence of repeated character classes, the reference semantics of the pattern `PhonePattern`, which encodes `^\+?[1-9]\d{1,14}$`; constrained by `RepeatMatches`, `SingleMatches` and `OptionalMatches` |
| `Phone.SingleMatches` | app/page.tsx:175 | a class taken exactly once consumes exactly one character in the class |
| `Phone.OptionalMatches` | app/page.tsx:175 | an optional class consumes one character in the class or none |
| `Phone.BodyMatches` | app/page.tsx:175 | `[1-9]\d{1,14}` matches exactly a nonzero digit followed by 1 to 14 digits |
| `Phone.RepeatMatches` | app/page.tsx:175 | a pattern `c{min,max}` matches exactly the strings of min to max characters, all in class c |
| `Phone.ValidatorIsRegex` | app/page.tsx:174-177 | the explicit validator accepts exactly the strings that the pattern `^\+?[1-9]\d{1,14}$` matches under the reference matcher |
| `Phone.Submission` | app/page.tsx:181-187 | a request is produced exactly when the field holds 2 to 15 digits and the first is not 0, whatever else it holds; the request carries those digits |
| `Phone.SubmitFormattedField` | app/page.tsx:181-187 | for a field filled by the formatter, the request carries the first min(n, 10) typed digits when there are at least two and the first is not 0; otherwise no request is made |
| `Decimal.ToString` | app/page.tsx:77-79 | `toString()` of a natural gives at least one digit, no leading zero, at most two digits below 100, and reads back as the same number |
| `Decimal.PadStart2` | app/page.tsx:77-79 | `padStart(2, "0")` gives the length max(2, length), ends with the original string, and every added character is "0" |
| `Decimal.PaddedValue` | app/page.tsx:77-79 | a padded rendering is a digit string of at least two characters (exactly two below 100) with the same value |
| `Hms.HmsArithmetic` | app/page.tsx:77-79 | hours·3600 + minutes·60 + seconds equals the input, and minutes and seconds are below 60 |
| `PageCountdown.CalculateCountdown` | app/page.tsx:46-51 | the initial countdown is 0 when the target has passed, and otherwise the floor of the remaining milliseconds over 1000 |
| `PageCountdown.Tick` | app/page.tsx:66-68 | the page tick never gives a negative value and never increases a non-negative one |
| `PageCountdown.AfterTicks` | app/page.tsx:65-70 | the countdown after k firings of the interval; constrained by `TicksReachZero` and `TicksNeverNegative` |
| `PageCountdown.TicksReachZero` | app/page.tsx:65-70 | from D >= 0, k ticks give D − k for k <= D and 0 afterwards, so the countdown reaches 0 after exactly D ticks and stays there |
| `PageCountdown.TicksNeverNegative` | app/page.tsx:66-68 | after at least one tick the countdown is non-negative, whatever it started at |
| `PageCountdown.FormatCountdown` | app/page.tsx:76-81 | `formatCountdown`: the hours, minutes and seconds of the input put into the clock template; constrained by `FormatCountdownShape` and `FormatCountdownRoundTrip` |
| `PageCountdown.ClockText` | app/page.tsx:80 | the `${hours}:${minutes}:${secs}` template with each field padded; constrained by `ClockTextFields` and `ClockTextParses` |
| `PageCountdown.ClockTextParses` | app/page.tsx:76-81 | with minutes and seconds below 60, the template reads back as hours·3600 + minutes·60 + seconds |
| `PageCountdown.ClockTextFields` | app/page.tsx:80 | with minutes and seconds below 60, the `hh:mm:ss` template has hours of at least two digits, minutes and seconds of exactly two digits, and each field reads back as its number |
| `PageCountdown.FormatCountdownShape` | app/page.tsx:76-81 | the display has the form `hh:mm:ss`; mm and ss are exactly two digits below 60; hh has at least two digits and holds all the hours, with no cut above 99 |
| `PageCountdown.FormatCountdownRoundTrip` | app/page.tsx:76-81 | reading the display back as hh·3600 + mm·60 + ss gives the original number of seconds |
| `UseCountdown.JsRem` | lib/use-countdown.ts:20-21 | JavaScript's `%`: equals the Euclidean remainder for non-negative operands, and is in (−b, 0] for negative ones |
| `UseCountdown.Decompose` | lib/use-countdown.ts:19-21 | for a counter >= 0: hours·3600 + minutes·60 + seconds equals the counter, with hours >= 0 and minutes and seconds in [0, 60) |
| `UseCountdown.OneDayDecomposition` | app/page.tsx:43 | the page's argument 24·60·60 decomposes into 24 hours, 0 minutes and 0 seconds |
| `UseCountdown.Decrement` | lib/use-countdown.ts:12 | the interval callback strictly lowers the counter and has no clamp of its own |
| `UseCountdown.Step` | lib/use-countdown.ts:9-16 | one second of the hook: the counter never increases, changes exactly when it is positive, and a non-negative counter stays non-negative |
| `UseCountdown.AfterSeconds` | lib/use-countdown.ts:9-16 | the counter after k seconds; constrained by `AfterSecondsValue` |
| `UseCountdown.AfterSecondsValue` | lib/use-countdown.ts:9-16 | from n >= 0 the counter is n − k after k <= n seconds and 0 afterwards, never below 0; a negative initial value never changes |
| `UseCountdown.Countdown.constructor` | lib/use-countdown.ts:6 | the counter starts at `initialSeconds` |
| `UseCountdown.Countdown.IntervalScheduled` | lib/use-countdown.ts:9 | the effect schedules an interval exactly when the counter is positive; `Countdown.Tick` fires the callback only then |
| `UseCountdown.Countdown.Tick` | lib/use-countdown.ts:9-16 | one second lowers a positive counter by exactly 1 and leaves a counter <= 0 unchanged, because no interval is scheduled then |
| `UseCountdown.Countdown.Read` | lib/use-countdown.ts:18-23 | the returned `totalSeconds` equals the current counter, and the returned hours, minutes and seconds add back up to it, with minutes and seconds below 60 |
| `Uploads.ObjectUrl` | app/page.tsx:140 | the public URL starts with `https://` and ends with the object key |
| `Uploads.ErrorAfter` | app/page.tsx:118-153 | after one file the error is null exactly when that file uploaded; a refused signing request shows the server's `error` text when there is one |
| `Uploads.AppendIfAbsent` | app/page.tsx:141-149 | the URL ends up present; earlier entries keep their places; at most one entry is added and nothing else; a URL already present changes nothing; no duplicate is ever created |
| `Uploads.StepPreviews` | app/page.tsx:140-149 | one file of the loop: earlier previews keep their places and at most one entry is added; an uploaded file adds its object URL and nothing else; a failed file changes nothing |
| `Uploads.ResolvePreviews` | app/page.tsx:109-155 | the previews after the loop over all outcomes, in order; constrained by `ResolveKeepsExisting`, `ResolveNoDuplicates`, `ResolveElements`, `ResolveCount`, `ResolveConcat` and `FailureIsSkipped` |
| `Uploads.LastError` | app/page.tsx:150-153 | after a non-empty batch the error is null exactly when the last file uploaded |
| `Uploads.LaterSuccessClearsError` | app/page.tsx:150-153 | a failure followed by a success leaves no error shown; a success followed by a failure shows "Failed to upload file" |
| `Uploads.ResolveKeepsExisting` | app/page.tsx:109-155 | the previews present before the loop keep their positions, and the loop adds at most one entry per file |
| `Uploads.ResolveNoDuplicates` | app/page.tsx:141-149 | the loop never adds a duplicate to a duplicate-free preview list |
| `Uploads.ResolveElements` | app/page.tsx:109-155 | after the loop the previews are the old ones plus the URL of every file that uploaded, and nothing else |
| `Uploads.ResolveCount` | app/page.tsx:109-155 | when the M uploaded URLs are distinct and new, the loop leaves exactly M more previews, however many files failed |
| `Uploads.ResolveConcat` | app/page.tsx:109 | processing two batches one after the other is the same as processing them as one batch, in order |
| `Uploads.FailureIsSkipped` | app/page.tsx:110-154 | a failing file does not stop the batch: the previews come out as if that file were not there |
| `Uploads.Without` | app/page.tsx:94-97 | filtering out position `index` gives the list without that element, the rest in order; an out-of-range index changes nothing |
| `Uploads.WithoutKeepsPairs` | app/page.tsx:94-97 | removing the same index from files and previews of equal length keeps them of equal length, and the k-th file and the k-th preview still come from the same original position |
| `HomePage.InitialStage` | app/page.tsx:55-62 | the stage at start is countdown exactly when the stored marker is present, and upload otherwise |
| `HomePage.Home.Valid` | app/page.tsx:46-70 | the countdown state is never negative; established by the constructor and kept by `CountdownTick`, the only other method that writes it |
| `HomePage.Home.constructor` | app/page.tsx:33-62 | after mount: the stage is derived from the stored marker, the countdown is the initial value, and the lists, error and dialog state are empty |
| `HomePage.Home.CountdownTick` | app/page.tsx:65-70 | the page tick lowers a positive countdown by 1, otherwise sets 0; the countdown stays non-negative |
| `HomePage.Home.Display` | app/page.tsx:526 | the shown countdown reads back as the countdown state |
| `HomePage.Home.FileChange` | app/page.tsx:83-92 | a selection replaces both lists with equal-length lists whose k-th preview is the object URL of the k-th file; no file list changes nothing |
| `HomePage.Home.RemovePhoto` | app/page.tsx:94-97 | index i is removed from both lists, the rest keep their order; an out-of-range i leaves a list unchanged; equal lengths stay equal |
| `HomePage.Home.Access` | app/page.tsx:103-166 | no selected files: nothing changes. Otherwise every file is processed in order; the previews become the result of the loop functions; the error is the last file's message or null; the selection is cleared; if `localStorage.setItem` returns, the marker is set and the stage becomes countdown, even if every file failed; if it throws, the marker and the stage are unchanged |
| `HomePage.Home.UploadMorePhotos` | app/page.tsx:168-172 | both lists are emptied and the stage is upload; the stored marker is untouched |
| `HomePage.Home.PhoneInput` | app/page.tsx:576-580 | the field holds the formatted value and the field error is cleared |
| `HomePage.Home.SubmitNotification` | app/page.tsx:179-226 | a request is sent only if the stripped field passes the validator; otherwise the field error and the shake flag are set and nothing is sent. An OK JSON reply shows the confirmation and clears the error; any other reply or a failed fetch sets the save-failure message |
| `HomePage.Home.ShakeElapsed` | app/page.tsx:185 | the shake flag is cleared when its timer fires |
| `HomePage.Home.ConfirmationElapsed` | app/page.tsx:208-211 | when the confirmation timer fires, the message is cleared and the dialog is closed |
| `HomePage.Home.SetModalOpen` | app/page.tsx:542-549 | the dialog's open state is set as requested |

## Left out

- Markup, styling, animations and the image gallery (app/page.tsx:228-627) are presentational only. The browser's `required` check on the phone input, which blocks an empty submit before the handler runs, is left out with them.
- HTTP is not modelled. The request to `/api/uploadImage`, the `PUT` to the signed URL and the request to `/api/storePhoneNumber` are each an injected outcome. The model does not check what is sent in them: the JSON bodies and the `Content-Type` header.
- app/api/uploadImage/route.ts and app/api/storePhoneNumber/route.ts are not part of this model. They are thin wrappers over the storage presigner and the datastore client.
- Timing is not modelled. The one-second intervals, the 500 ms shake reset and the 2 s dialog close are methods that the caller invokes. So the model does not say when they fire, only what each firing does.
- `Date` is replaced by integer milliseconds. The target date string is the constant `PageCountdown.TargetMs`, computed by hand. It is not parsed.
- `localStorage` is one boolean field. Whether `setItem` throws in `handleAccess` is a parameter of `HomePage.Home.Access`. The string stored and a `getItem` that throws are not modelled.
- `URL.createObjectURL` is a function parameter. The model does not say that each call gives a fresh URL.
- Concurrency is not modelled. The handlers run one at a time. Nothing interleaves with the `await`s inside `handleAccess` or `handleNotificationSubmit`, such as removing a photo during an upload.
- Console logging and React's render and effect scheduling are left out. The mount effect runs once, in the constructor.
- `HomePage.Home.Access`: the injected outcomes must include one result per selected file. Nothing in the outer `try` except `localStorage.setItem` can throw once the network is injected, and that case is a parameter.
- `Phone.FormatPhoneNumber` treats characters as Unicode scalar values, not UTF-16 code units. `\d` matches only ASCII digits in both.
- `PageCountdown.FormatCountdown` takes a natural number. The page never passes a negative one, because the countdown state stays non-negative (`HomePage.Home.Valid`). For the hook, `UseCountdown.JsRem` models JavaScript's truncating `%` on negative counters. Its properties are stated only for non-negative counters.
- StripNonDigits: its own contract says only that the result is digits and no longer than the input. That every digit is kept, in order, is stated by `Phone.StripKeepsDigits` and `Phone.StripConcat`, to keep the function's contract cheap where it is used.
- `handleUploadClick` is left out. It only forwards a click to the hidden file input.
