# Smart mailer core in Dafny

This project models the mail-merge pipeline of `smart_mailer.py`. The pipeline
first checks the sender address, the template file and the recipient file.
It then loads the recipients of one department and splits the template into
subject and body. Finally it sends one personalised HTML message per
recipient and keeps a per-department count of successful sends.

The modules follow the program's functions:

- `Strings`: the Python string primitives the mailer relies on.
  - `str.endswith`.
  - `str.find`, including its treatment of a negative start.
  - `str.replace`, which replaces leftmost first without overlap.
- `EmailFormat`: `is_valid_email`, a `re.match` of
  `EMAIL_REGEX = ^[\w\.-]+@[a-zA-Z\d\.-]+\.[a-zA-Z]{2,}$`.
  - Membership is given once as a language (`InLanguage`).
  - It is decided by a first-`@` / last-`.` split (`MatchesAddress`).
  - Python's `$` also matches just before one final `\n`, and `IsValidEmail` models that quirk.
- `Validation`: `check_txt_file_extension` and `check_csv_file_validity`.
  - A file is its contents, or `None` when it does not exist.
  - The template check is the greedy six-marker scan of the source. The model proves it equivalent to a declarative chain (`ChainFrom`): the markers occur at non-decreasing positions.
  - The header check returns `Failure(TypeError)` for an empty file, as `None[:3]` does.
- `Recipients`: `read_csv`, the order-preserving filter by department code (or `all`) and by address validity.
- `Template`: `read_email_template` and the body rendering of `send_email`.
  - `read_email_template` is `split('\n', 1)`. It raises `IndexError` when the file has no newline.
  - Rendering is two chained replacements followed by the tracking-beacon tag.
- `Dispatch`: the send loop of `send_emails_with_report`.
  - Whether the relay accepts a message is an oracle: one boolean per recipient.
  - The loop is a method. It returns the tally `sent_count` and a trace of attempts and pauses, where a pause is `time.sleep(DELAY_BETWEEN_EMAILS)` with the constant 5.

Two behaviours of the code are easy to miss:

- Template scan. Each marker's search starts at the previous match's start
  (`smart_mailer.py:114`), not after its end, so the scan lets adjacent
  markers share characters. For the six required markers the only possible
  overlap is one `#` shared by `#name#` and the `#department#` after it; no
  marker can start where the previous one starts
  (`Validation.AdjacentMarkersNeverShareStart`).
  `Validation.SharedCharacterAccepted` shows a template that the check accepts
  although its `#name#` and `#department#` share that `#`.
- Duplicate addresses. `read_csv` keeps duplicate rows, so a recipient listed
  twice is loaded twice and mailed twice. The model keeps them as well.

## Model

| member | source | states |
|---|---|---|
| Strings.EndsWith | smart_mailer.py:99 | `path.endswith(suffix)`, used by both file checks (also at line 135). `EndsWithIff` characterises it. |
| Strings.EndsWithIff | smart_mailer.py:99 | A path ends with a suffix exactly when it is some string followed by that suffix. |
| Strings.Find | smart_mailer.py:114 | `content.find(element, start)`: the least index at or after the start where the marker occurs, or -1 exactly when it occurs nowhere from there. A negative start counts from the end of the content. |
| Strings.ReplaceAll | smart_mailer.py:236 | `str.replace` for a non-empty pattern. Its properties are stated by `ReplaceAllFirst`, `ReplaceAllAbsent` and `ReplaceAllSelf` below: together they fix the result as leftmost, non-overlapping replacement of every occurrence. |
| Strings.ReplaceAllFirst | smart_mailer.py:236 | `str.replace` agrees with `str.find`. The text before the first occurrence is kept, that occurrence becomes the replacement, and the rest is replaced independently. |
| Strings.ReplaceAllSelf | smart_mailer.py:236 | Replacing a placeholder by itself gives back the original text. |
| Strings.ReplaceAllAbsent | smart_mailer.py:236 | Text that does not contain the placeholder is unchanged by the replacement. |
| EmailFormat.MatchesAddress | smart_mailer.py:39 | The first-`@`/last-`.` decision procedure accepts a string exactly when it lies in the language of the pattern: local part `[\w.-]+`, `@`, domain `[a-zA-Z\d.-]+`, `.`, top-level domain of two or more letters. |
| EmailFormat.IsValidEmail | smart_mailer.py:39-53 | `is_valid_email(s)` holds exactly when `s` is in the language, or `s` is an address in the language followed by a single `\n`. |
| EmailFormat.ValidEmailHasOneAt | smart_mailer.py:39 | Every address that passes the check contains exactly one `@`. |
| EmailFormat.ExampleAddressValid | smart_mailer.py:39-53 | `a@b.com` is accepted. |
| EmailFormat.ExampleAddressesInvalid | smart_mailer.py:39-53 | `ab.com` (no `@`) and `a@b.c` (one-letter top-level domain) are rejected. |
| EmailFormat.TrailingNewlineAccepted | smart_mailer.py:39-53 | `a@b.com\n` is accepted, because of the `$` anchor. |
| Validation.CheckTxtFileExtension | smart_mailer.py:99-121 | The template check returns true exactly when the path ends in `.txt`, the file exists, and the six required markers occur in its content at non-decreasing positions, in the listed order. |
| Validation.GreedyStep | smart_mailer.py:113-117 | Taking the leftmost occurrence of the next marker never loses an ordered placement. When the marker is missing from the search start on, no placement exists. |
| Validation.ChainFromIffPositions | smart_mailer.py:109-117 | The recursive chain holds exactly when there is an explicit list of non-decreasing positions at which the markers occur. |
| Validation.AdjacentMarkersNeverShareStart | smart_mailer.py:109-117 | No two adjacent required markers occur at the same index of any template, so the restarted search never finds the next marker at the start of the previous one. |
| Validation.ClosingBeforeOpeningRejected | smart_mailer.py:109-121 | A template in which every `</html>` comes before every `<html>` fails the check, whatever else it contains. |
| Validation.SharedCharacterAccepted | smart_mailer.py:109-121 | `<html><body>#name#department#</body></html>` passes the check, because the search restarts at the previous match's start. |
| Validation.CheckCsvFileValidity | smart_mailer.py:135-150 | The header check raises `TypeError` exactly for an existing empty `.csv` file. It returns true exactly when the path ends in `.csv`, the file exists and its first three header names are `email`, `name`, `department_code` in that order. Otherwise it returns false. |
| Validation.TrailingColumnsAccepted | smart_mailer.py:146-150 | Extra columns after the three required ones are tolerated. |
| Validation.ShortHeaderRejected | smart_mailer.py:146-150 | A header with fewer than three names is rejected. |
| Recipients.ReadCsv | smart_mailer.py:171-190 | `read_csv` loads no more rows than the file has. Which rows it loads is stated by `ReadCsvMembers` (exactly the selected ones) and `ReadCsvIsOrderedSubsequence` (in file order, each as often as it appears). |
| Recipients.ReadCsvMembers | smart_mailer.py:181-190 | A row is loaded exactly when it is in the file, its department matches (or the code is `all`), and its address is valid. |
| Recipients.ReadCsvIsOrderedSubsequence | smart_mailer.py:181-190 | The result consists of the rows at a strictly increasing list of positions. That list holds exactly the positions of the selected rows, so file order is kept and a duplicated row is kept as often as it is selected. |
| Recipients.ReadCsvIdempotent | smart_mailer.py:184-187 | Filtering the result again with the same code changes nothing. |
| Recipients.ReadCsvAll | smart_mailer.py:185-187 | The code `all` keeps exactly the rows with a valid address. |
| Template.ReadEmailTemplate | smart_mailer.py:204-208 | Splitting succeeds exactly when the content holds a newline, and otherwise raises `IndexError`. On success the subject has no newline, and subject, newline and body rebuild the content. |
| Template.TemplateRoundTrip | smart_mailer.py:204-208 | Joining a one-line subject and any body with a newline, then splitting, gives back that subject and body. |
| Template.RenderBody | smart_mailer.py:236-237 | The body that is sent always ends with the tracking-beacon tag. What precedes the tag is stated by the `Render…` lemmas below. |
| Template.RenderWithoutPlaceholders | smart_mailer.py:236-237 | A body without placeholders is sent unchanged, followed by the beacon tag. |
| Template.RenderWithPlaceholdersKept | smart_mailer.py:236-237 | Substituting the placeholders with themselves gives back the body followed by the beacon tag. |
| Template.RenderReplacesEveryName | smart_mailer.py:236-237 | A body with two `#name#` placeholders in otherwise `#`-free text, rendered with a `#`-free name, gets the name in both places, not only the first. (Overlapping occurrences such as the second `#name#` inside `#name#name#` are left in place, as `str.replace` leaves them.) |
| Template.RenderNameAndDepartment | smart_mailer.py:236-237 | A body with one `#name#` and one `#department#` in otherwise `#`-free text, rendered with a `#`-free name, gets the name and the department code in their places, followed by the beacon tag. |
| Template.RenderSubstitutesInsideName | smart_mailer.py:236 | The replacements are chained. For any `#`-free text around one `#name#`, and any name that holds `#department#` once among `#`-free text, the `#department#` inside the name is itself replaced by the department code. |
| Template.WelcomeSplit | smart_mailer.py:204-208 | The template `Welcome` + newline + body splits into that subject and that body. |
| Template.WelcomeRender | smart_mailer.py:236-237 | `<html><body>Hi #name# from #department#</body></html>` rendered for `Ann` of department `X` reads `Hi Ann from X`, followed by the beacon tag. |
| Dispatch.Compose | smart_mailer.py:230-237 | The message goes from the SMTP user to the recipient's address under the template subject. Its HTML is the template body rendered for the recipient's name and department, so it always ends with the beacon tag. |
| Dispatch.SendAll | smart_mailer.py:267-281 | After the loop, a department is a key of the tally exactly when at least one send to it succeeded, and its count is that number. The counts sum to the number of successes. The trace is the schedule of the recipients: per recipient in order, its attempt, then a pause if the attempt succeeded. |
| Dispatch.ScheduleIsPaced | smart_mailer.py:268-281 | The schedule makes exactly one attempt per recipient, in order, with the composed message. It pauses once per success. Every pause lasts 5 seconds and directly follows a success, and every success is directly followed by a pause. |
| Dispatch.LoopStep | smart_mailer.py:268-281 | One pass of the loop extends the tally and the trace by exactly one recipient's attempt, count and pause. |
| Dispatch.TotalWithout | smart_mailer.py:279 | The sum of the tally does not depend on which department is taken first. |
| Dispatch.TotalIncrement | smart_mailer.py:279 | `sent_count[d] = sent_count.get(d, 0) + 1` adds one to the sum of the tally. |
| Dispatch.FailedSendChangesNothing | smart_mailer.py:278-281 | A failed send leaves every department's count as it was. |
| Dispatch.SendEmailsWithReport | smart_mailer.py:264-281 | The whole run raises `IndexError` before any send exactly when the template has no newline. Otherwise the tally holds the per-department success counts over the loaded recipients, and the trace is their schedule under the template's subject and body. |
| Dispatch.SecondOfThreeFails | smart_mailer.py:267-281 | Three recipients of one department whose second send fails produce a count of two. All three are attempted, in order, with their composed messages, and there are two pauses. |

## Left out

- SMTP, TLS and MIME (`smart_mailer.py:230`, `239` and `242-245`) are not modelled. The headers at lines 231-233 are modelled by `Dispatch.Compose`, and the body at lines 236-237 by `Template.RenderBody`. A send is one outcome of an oracle sequence that the caller supplies. Any exception caught by `send_email` is just a `false` outcome. The password is only passed to the server, so the model drops it.
- `time.sleep` is not modelled as time passing. It is a `Sleep(5)` event in the trace.
- Printed diagnostics and the final report printout are not modelled. This includes the missing-markers message, whose scan continues from index -1 after a miss. The printout follows the tally's insertion order, and a Dafny map has none.
- File I/O is not modelled. The model receives the contents: an `Option` for existence, a `CsvHeader` for the header line, and a sequence of `Row` for the data rows. CSV parsing and universal-newline translation are left out. So is a header that repeats a required name in a later column (`email,name,department_code,email`): the header check accepts it, and `csv.DictReader` then takes that key's value from the later column. A `Row` simply holds whatever value the reader gives for each key.
- A data row that lacks a column (a `None` value or a `KeyError` in `read_csv`) is not modelled, because a `Row` always has its three fields.
- EmailFormat.IsValidEmail: the model reads `\w` and `\d` as ASCII. Python's `str` patterns also admit other Unicode letters and digits, so some non-ASCII addresses that Python accepts are rejected here.
- Strings.ReplaceAll: it requires a non-empty pattern, because the source only replaces the literal placeholders. `str.replace` with an empty pattern is not modelled.
- Dispatch.SendAll: it requires one oracle outcome per recipient. That is a condition of the model's interface, not of the source.
- Dispatch.SendEmailsWithReport: the same oracle-length condition applies.
- The interactive prompt loops (`check_email`, `check_txt_file`, `check_csv_file`), argument parsing and the main flow are left out. They only repeat the modelled checks on user input.
- `display_counter` is left out: it is an HTTP GET against the tracking server.
- The tracking server `server.py` is not part of this model. It is a separate web process with a lock-protected counter.
