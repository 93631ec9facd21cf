# Registration form: validator and submission normalizer

A Dafny model of the two pieces of logic in a small registration
application:

- **The browser-side validator** (`validate.js`). It has a leaf predicate
  for each field: the age check, and the e-mail, password and phone
  regular expressions. It also has an optional-URL rule and an optional-photo
  rule. On top of these sits the submit handler. The handler stops a bot
  that filled the hidden honeypot field. Otherwise it runs fifteen checks in
  a fixed order, gives every failing field a message, focuses the first
  failing one, and cancels the submission exactly when some check failed.
- **The server-side payload builder** (`server.js`, the `/register` handler
  up to the log call). It takes the parsed body, turns a `skills` value
  into an array (by comma-splitting and trimming, or by wrapping it), wraps
  a `comm` value in an array, and keeps three facts about an uploaded file.

Modules, in dependency order:

| file | module | what it holds |
|---|---|---|
| `options.dfy` | `Options` | `Option<T>` |
| `js_text.dfy` | `JsText` | ECMAScript whitespace and line terminators, `trim`, `split`/`join` on one character, `indexOf`, counting |
| `dates.dfy` | `Dates` | calendar dates, the `YYYY-MM-DD` text of a date input, the `new Date(y, m, d)` constructor, `isAtLeast16` |
| `rules.dfy` | `Rules` | `validateEmail`, `validatePassword`, `validatePhone`, `validateUrl`, `validateFile` |
| `submit.dfy` | `Submit` | the form state, the fifteen checks and their messages, the submit handler as a pure function |
| `normalize.dfy` | `Normalize` | body values, the `skills`/`comm` normalization, the logged payload |

Each regular expression has two readings. One is a predicate that works
character by character, and the handler uses it. The other is a ghost
predicate that follows the structure of the expression. A lemma proves that
the two accept the same strings. The handler is a fold over the check order
(`RunChecks`). Lemmas relate it to the per-field checks, and to a reference
definition of "the first failing field" (`FirstFailingIndex`).

The model keeps three quirks of JavaScript's `Date`, because the age check
inherits them:

- `new Date(y - 16, m, d)` maps years 0 to 99 into the 1900s
  (`Dates.TwoDigitYearShift`).
- On 29 February of a year whose year-minus-sixteen is not a leap year, the
  threshold rolls over to 1 March. A person born on 1 March of that year
  then passes one day before their sixteenth birthday
  (`Dates.LeapDayRollover`).
- A birth date that is not a valid date is an Invalid Date, and no
  comparison with it holds.

## Model

| member | source | states |
|---|---|---|
| JsText.TrimMeetsDescription | validate.js:61 | `Trim(s)` is `s` with a whitespace run cut from each end, and neither end of the result is whitespace |
| JsText.TrimIsUnique | validate.js:61 | any string that meets that description is `Trim(s)`, so the description defines `trim` |
| JsText.TrimEmptyIff | validate.js:70 | a value trims to the empty string exactly when every character is whitespace (how `!el.value.trim()` reads as "blank") |
| JsText.TrimIdempotent | server.js:45 | trimming twice is trimming once |
| JsText.TrimOfClean | server.js:45 | a string that neither starts nor ends with whitespace trims to itself |
| JsText.Split | server.js:45 | `split` on one character gives one more piece than there are separators; no piece holds the separator; joining the pieces gives back the string |
| JsText.SplitJoin | server.js:45 | splitting undoes joining separator-free pieces, so `split` is the only way to cut a string into such pieces |
| Dates.ParseFormat | validate.js:24 | every date of years 0 to 9999 survives being written as `YYYY-MM-DD` and parsed back |
| Dates.FormatParse | validate.js:24 | a string that parses is exactly the `YYYY-MM-DD` form of its date |
| Dates.ConstructDate | validate.js:26 | the constructor keeps a day that the month has, moves a day past the month's end into the next month by exactly the overshoot (so one day past the end is the day after the month's last day), and maps years 0 to 99 into the 1900s |
| Dates.IsAtLeast16 | validate.js:22-28 | the empty string is never old enough; a value that passes is a parseable date |
| Dates.AgeCheckIff | validate.js:22-28 | when the same month and day exist sixteen years back, a birth date passes exactly when it is on or before that day (year, then month, then day) |
| Dates.SixteenthBirthdayBoundary | validate.js:26-27 | for an ordinary today with a four-digit threshold year, someone turning sixteen today passes; someone turning sixteen tomorrow fails |
| Dates.LeapDayRollover | validate.js:26-27 | on 29 February of a year like 2116, 1 March sixteen years back passes and 2 March fails |
| Dates.TwoDigitYearShift | validate.js:26 | in years 16 to 115 the threshold lands in the 1900s, so even a person born today passes |
| Rules.EmailRuleIsPattern | validate.js:30-32 | the character-level e-mail rule accepts exactly the language of `^[^\s@]+@[^\s@]+\.[^\s@]+$` |
| Rules.EmailShape | validate.js:30-32 | an accepted address has no whitespace, exactly one `@` with something before it, and a `.` after it with something on each side; the empty string is rejected |
| Rules.EmailAcceptedExample | validate.js:31 | `asha@example.com` is accepted |
| Rules.EmailNoDotExample | validate.js:31 | `asha@example`, whose domain has no dot, is rejected |
| Rules.EmailTwoAtExample | validate.js:31 | `a@b@example.com`, with a second `@`, is rejected |
| Rules.PasswordRuleIsPattern | validate.js:34-37 | "at least 8 characters, no line terminator, a digit and a character that is neither a word character nor whitespace" is exactly the language of `^(?=.*\d)(?=.*[^\w\s]).{8,}$` |
| Rules.CheckPassword | validate.js:34-37 | a single left-to-right pass decides the password rule |
| Rules.PasswordExamples | validate.js:35-36 | `abcd1234` is rejected (no symbol), `abcd123!` is accepted, `1!` is too short |
| Rules.PhoneRuleIsPattern | validate.js:39-41 | the character-level phone rule accepts exactly the language of `^(\+?\d{1,3}[- ]?)?\d{10}$` |
| Rules.PrefixSplitForced | validate.js:40 | a country-code group can be read only one way: a leading `+` is the sign and a trailing `-` or space is the separator |
| Rules.PhoneShape | validate.js:39-41 | any ten digits pass; an accepted number has 10 to 15 characters and ends in ten digits |
| Rules.PhonePlusOnlyFirst | validate.js:40 | an accepted number holds a `+` only as its first character |
| Rules.PhoneExamples | validate.js:40 | `9876543210`, `+1 9876543210` and `+91-9876543210` are accepted |
| Rules.PhoneRejectedExamples | validate.js:40 | `98765` and `+1234 9876543210` are rejected |
| Rules.ValidateUrl | validate.js:43-46 | an empty portfolio is valid; a non-empty one is valid exactly when the URL parser accepts it |
| Rules.ValidateFile | validate.js:48-53 | no file is valid; a file is valid exactly when its type is `image/png` or `image/jpeg` and its size is at most 2 MiB |
| Rules.PhotoBoundary | validate.js:51-52 | exactly 2 097 152 bytes pass and one byte more fails |
| Submit.CheckOrderIsRanked | validate.js:67-176 | the check order lists each of the fifteen fields exactly once, each at its rank |
| Submit.HandleSubmit | validate.js:59-65 | the handler reports a bot exactly when the nickname is present and not blank |
| Submit.HoneypotShortCircuits | validate.js:59-65 | a nickname with a non-whitespace character blocks the submission with no message recorded; one that is absent or blank lets the checks run |
| Submit.FirstFailingIndex | validate.js:57-181 | the reference definition: an index at which the check fails, with every earlier check in the order passing |
| Submit.RunChecksErrors | validate.js:67-176 | running checks in order records exactly the failing fields, each with its own message, and keeps what was recorded before |
| Submit.RunChecksFocus | validate.js:67-181 | a first flagged field, once set, is kept; otherwise the flag goes to the first failing field of the order |
| Submit.FirstFailingByRank | validate.js:57-181 | the first failing index of the check order holds `f` exactly when `f` fails and every lower-ranked field passes |
| Submit.SubmitErrors | validate.js:55-183 | without the honeypot, a field has a message exactly when its check fails, and the message is that check's |
| Submit.SubmitFocus | validate.js:178-181 | without the honeypot, the focused field is the failing field of lowest rank |
| Submit.SubmitNoFocus | validate.js:178-182 | without the honeypot, nothing is focused exactly when every check passes |
| Submit.SubmitBlocksIff | validate.js:55-183 | the submission is cancelled exactly when the honeypot is filled or some check fails |
| Submit.WellFilledAccepted | validate.js:55-183 | a form whose every field meets its rule goes through, with no message and nothing focused |
| Submit.NamesRequired | validate.js:67-74 | a first or last name fails exactly when it is all whitespace |
| Submit.EmailMessages | validate.js:76-84 | a blank e-mail gets "Email is required."; any other value gets "Enter a valid email address." exactly when its trimmed form fails the e-mail rule |
| Submit.ConfirmIndependent | validate.js:86-96 | the confirmation fails exactly when the raw values differ; a matching pair passes even when the password fails its own rule |
| Submit.DobMessages | validate.js:105-113 | an empty birth date gets "Date of birth is required."; any other value gets the "too young" message exactly when it fails the age check |
| Submit.CourseAndModeRequired | validate.js:124-134 | the course, which is trimmed, fails when it is all whitespace; the mode, which is not trimmed, fails only when it is empty |
| Submit.CgpaOptional | validate.js:136-144 | an empty CGPA is skipped; a present one fails exactly when it is not a number or lies outside [0, 10] |
| Submit.CgpaExamples | validate.js:138-140 | 11 fails, 7.5 and 10 pass, an empty value is skipped |
| Submit.PortfolioAndPhotoOptional | validate.js:146-158 | a blank portfolio and a missing photo never fail; a present photo fails exactly when the file rule rejects it |
| Normalize.NormalizeSkills | server.js:42-49 | a truthy `skills` value always becomes an array; an array or a falsy value is left as it is; a string without a comma is wrapped unchanged |
| Normalize.NormalizeComm | server.js:51-54 | a truthy `comm` value always becomes an array; an array or a falsy value is left as it is; a string is wrapped unchanged |
| Normalize.SkillsCommaSplit | server.js:44-45 | a `skills` string holding a comma becomes its comma-separated pieces, trimmed, in order, with empty pieces kept: one more element than there are commas |
| Normalize.SkillsItemsTrimmed | server.js:45 | every element of a comma-split `skills` is already trimmed |
| Normalize.SkillsSplitExample | server.js:44-45 | `"a, b,c"` becomes `["a", "b", "c"]` |
| Normalize.SkillsEmptyPieceExample | server.js:44-45 | `"a,,b"` becomes `["a", "", "b"]` |
| Normalize.WrapExamples | server.js:46-54 | `"a"` becomes `["a"]` and `"yes"` becomes `["yes"]`; arrays are kept |
| Normalize.NormalizeFields | server.js:42-54 | the key set is unchanged, no field other than `skills` and `comm` changes, and those two are normalized |
| Normalize.NormalizeIdempotent | server.js:42-54 | normalizing a second time changes nothing |
| Normalize.NormalizedShapes | server.js:41-54 | after normalization a truthy `skills` or `comm` is an array; a falsy one is left exactly as it was, never turned into `[]`; an absent `skills` stays absent |
| Normalize.BuildPayload | server.js:29-39 | the payload carries the given timestamp and the normalized fields; `file` is absent exactly when there is no upload, and otherwise holds its original name, MIME type and size |
| Normalize.PayloadDropsFileBytes | server.js:32-38 | two uploads that agree on name, type and size give the same payload, whatever their bytes, encoding or field name |
| Normalize.EndToEndExample | server.js:29-54 | skills `ml,web` and the single channel `email` are logged as `["ml", "web"]` and `["email"]` |

## Left out

- DOM effects (`setError`, `setGroupError`, `clearAllErrors`, class and `aria-invalid` toggling, `alert`, `focus`, `preventDefault`) are not modelled. The handler's result says which field gets which message, which field would be focused, and whether the submission is cancelled.
- Rules.ValidateUrl: `new URL(v)` is the WHATWG URL parser, which is not part of this model. Whether it accepts a non-empty value is an input (`portfolioParses`). Only the "empty means valid" branch is stated in full.
- Submit.CgpaOptional: `Number(cgpa)` float parsing is not modelled. Its result is an input (`cgpaNumber`, `None` for NaN). Only the range check is stated, and infinities are not distinguished from other out-of-range values.
- Dates.IsAtLeast16: `new Date("YYYY-MM-DD")` reads the string as UTC midnight, while the threshold is local midnight. The model compares calendar days in one time zone. It therefore does not show that, east of UTC, someone turning sixteen today fails.
- Dates.IsAtLeast16: the birth date is parsed only in the `YYYY-MM-DD` form that a date input produces, for years 0000 to 9999. Other strings that `new Date` might accept count as Invalid Date. So does an impossible day such as 30 February, where engines differ.
- Dates.AgeCheckIff: the clean "on or before the same day sixteen years back" reading is proved only when that day exists and is not shifted into the 1900s. Those two cases have their own lemmas (`LeapDayRollover`, `TwoDigitYearShift`).
- Submit.WellFilledAccepted: only the direction "well filled, so accepted" is a lemma. The converse follows from `SubmitNoFocus` and the per-field lemmas, but it is not stated as one lemma.
- The clock is a parameter: `today` for the age check, and `submittedAt` for the payload. The ISO-8601 text of `toISOString()` is not modelled.
- Rules.ValidatePassword: lengths count characters, not UTF-16 code units, so a password with characters outside the Basic Multilingual Plane is measured differently.
- Rules.ValidateEmail and Rules.ValidatePhone: lengths count characters, not UTF-16 code units.
- `\d` and `\w` are the ASCII classes, as in a regular expression without the `u` flag. Case-insensitive matching and Unicode property escapes do not occur.
- Which controls exist on the page is fixed: the required controls are always present. The honeypot is an `Option`, a radio or checkbox group is a boolean or a count, and the photo is an optional `(type, size)` pair.
- The server's parsed body has strings and arrays of strings only. The nested objects that the extended URL-encoded parser can build are not modelled, nor is a `skills` value that is neither a string nor an array.
- The body is updated in place in the server and as a new map in the model. No other code observes the difference.
- Express routing, static file serving, `body-parser`, multer's memory storage and its 2 MB upload limit, the HTML response, `console.log`/`console.dir` and `PORT` are not modelled.
