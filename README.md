# Login flow: credential decision and form validation

This project models the two pieces of decision logic in a small web login flow.
It proves properties about both.

* **php/login.php**, the server script. It reads a POST request, trims the
  username, rejects empty input, and looks the user up with one prepared
  statement. It classifies the stored hash as modern or legacy:
  * a modern hash is one that starts with `$2y$` or `$2a$`, or contains
    `argon2` in any case;
  * a modern hash is checked with `password_verify` only;
  * a legacy hash is checked against its SHA-512 hex digest first, and then
    with `password_verify`.

  On success the script makes sure a session is active, regenerates its id,
  and binds `usuario` and `user_id`. Every outcome the script tests for
  ends in one of three redirects. A failed `prepare` or `execute` is taken
  to be the `false` return value the script checks for.
* **js/form.js**, the browser-side submit handler. Each required input gets
  its old error message removed (`clearError`). Its trimmed value is then
  checked in order:
  * not empty: "Este campo es obligatorio";
  * for email inputs, the pattern `^[^\s@]+@[^\s@]+\.[^\s@]+$`;
  * for password inputs, at least 6 characters.

  The first failing check's message is shown after the input (`showError`).
  Submission is prevented when any required input fails.

Modules:

| file | module | contents |
|---|---|---|
| wrappers.dfy | `Wrappers` | `Option` |
| text.dfy | `Text` | trimming with a whitespace set, `strpos`, ASCII `stripos` |
| login.dfy | `Login` | the script's decision as functions, with the classifier and password-check lemmas |
| login_session.dfy | `LoginSession` | the imperative script (`HandleLogin`), the `$authenticated` flag (`CheckPassword`) and a `Session` class |
| form_rules.dfy | `FormRules` | the per-input rule (`CheckField`) and the email pattern as a predicate on strings |
| form_page.dfy | `FormPage` | the form as a list of sibling elements, `showError`/`clearError`, and the submit loop (`FormDom.Submit`) |

The database and the cryptographic functions are parameters:
* the lookup is a function from the username to `PrepareFailed`, `ExecuteFailed` or `Fetched(optional row)`;
* `password_verify` and `hash('sha512', ·)` are two arbitrary functions in a `Crypto` value.

Every property therefore holds for every database and every behaviour of those functions.

Facts about the code that the model keeps:
* The session stores the trimmed username that was posted (`$usuario`, php/login.php:75), not the row's `usuario` column.
* `session_regenerate_id(true)` (php/login.php:74) moves the `$_SESSION` contents to a fresh id and deletes the session record stored under the old id. The model keeps the move of the contents to an id never used before. The deletion of the old record is listed under "Left out".
* The SHA-512 digest is compared with `===` (php/login.php:59): plain string equality, not in constant time.
* Hashes with the standard bcrypt marker `$2b$` are classified as legacy. They still pass whenever `password_verify` accepts them, through the legacy branch's fallback (`Login.Bcrypt2bIsLegacy`, `Login.VerifyImpliesMatch`).

## Model

| member | source | states |
|---|---|---|
| Text.TrimSpec | php/login.php:11 | trim cuts only characters of the trim set, from both ends. The result is a contiguous slice of the input and neither starts nor ends with a trim character. It is empty exactly when the input is all trim characters. |
| Text.Trim | php/login.php:11 | `trim` with a given set of characters: leading, then trailing characters of the set are cut. Its meaning is stated by `Text.TrimSpec`. |
| Text.StrPos | php/login.php:53 | `strpos`: the first index where the needle occurs, or nothing. Its meaning is stated by `Text.StrPosSpec`. |
| Text.StrIPos | php/login.php:53 | `stripos` with ASCII case folding: the first index of an occurrence ignoring case, or nothing. Its meaning is stated by `Text.StrIPosSpec`. |
| Text.TrimIdempotent | php/login.php:11 | trimming an already trimmed string changes nothing |
| Text.StrPosSpec | php/login.php:53 | strpos returns the first index where the needle occurs, and returns nothing exactly when it occurs nowhere |
| Text.StrPosZeroIffPrefix | php/login.php:53 | `strpos($h, $p) === 0` holds exactly when `$p` is a prefix of `$h` |
| Text.StrIPosSpec | php/login.php:53 | stripos finds the first occurrence that ignores ASCII case, and finds none exactly when there is none |
| Login.Username | php/login.php:11 | the posted `usuario` (or `''` when absent) cut by PHP's `trim`. Stated by `Login.RequestFields`. |
| Login.Password | php/login.php:12 | the posted `nueva_contrasena` (or `''` when absent), untouched. Stated by `Login.RequestFields`. |
| Login.IsModernHash | php/login.php:53 | the classifier: `strpos` of `$2y$` or of `$2a$` is 0, or `stripos` of `argon2` finds something. Its meaning is stated by `Login.ModernHashIff`. |
| Login.PasswordMatches | php/login.php:50-66 | the final value of `$authenticated` for one row: password_verify alone for a modern hash; the digest comparison, then password_verify, for a legacy one. Stated by `Login.ModernUsesVerifyOnly`, `Login.LegacyUsesDigestOrVerify` and `LoginSession.CheckPassword`. |
| Login.Decide | php/login.php:21-66 | the decision after the pre-checks: a prepare failure, an execute failure, a missing row or a wrong password each reject with their own reason; otherwise the user is accepted. Stated by `Login.DecideAcceptedIff` and `Login.NoRowAlwaysRejects`. |
| Login.Respond | php/login.php:6-66 | a non-POST request and empty fields are rejected before any lookup; otherwise one lookup of the username decides. Stated by `Login.EmptyInputSkipsLookup`. |
| Login.Authenticate | php/login.php:6-66 | the whole script's decision for one request: Respond on the request's method, username and password. Stated by `Login.AcceptedIff`. |
| Login.Location | php/login.php:7-80 | the `header('Location: …')` of each decision (lines 7, 16, 24, 32, 40, 77 and 80): the login page for a non-POST request, the welcome page on acceptance, the error page otherwise. Stated by `Login.FailuresLookAlike`. |
| Login.ModernHashIff | php/login.php:53 | a hash is modern exactly when it starts with `$2y$`, starts with `$2a$`, or contains `argon2` at some index, ignoring case |
| Login.BcryptMarkersAreModern | php/login.php:53 | `$2y$…` and `$2a$…` hashes are modern |
| Login.UpperCaseArgon2IsModern | php/login.php:53 | `$ARGON2ID$…` is modern: the argon2 test is a case-insensitive substring test |
| Login.Bcrypt2bIsLegacy | php/login.php:53 | a `$2b$…` bcrypt hash is classified as legacy |
| Login.NoArgon2 | php/login.php:53 | a hash without the letter a/A contains no `argon2` |
| Login.ModernUsesVerifyOnly | php/login.php:53-56 | for a modern hash, the check passes iff password_verify accepts; the result does not depend on the digest function |
| Login.LegacyUsesDigestOrVerify | php/login.php:57-66 | for a legacy hash, the check passes iff the SHA-512 hex digest equals the stored hash or password_verify accepts |
| Login.VerifyImpliesMatch | php/login.php:53-66 | password_verify accepting is enough in both branches |
| Login.EmptyInputSkipsLookup | php/login.php:11-21 | for a POST, an empty trimmed username or empty password is rejected as `EmptyInput` and no statement is prepared. Otherwise exactly one lookup is made, for the trimmed username. |
| Login.RequestFields | php/login.php:11-12 | the username used is the posted one with PHP's trim characters cut from both ends; the password is exactly the posted value |
| Login.NoRowAlwaysRejects | php/login.php:36-42 | zero rows means rejection and no redirect to the welcome page, whatever the password |
| Login.DecideAcceptedIff | php/login.php:21-66 | after the pre-check, acceptance happens iff a row is fetched and the password matches its hash; the accepted identity is the username looked up and the row's id |
| Login.AcceptedIff | php/login.php:6-78 | the whole request is accepted iff it is a POST with non-empty fields, the lookup finds a row and the password matches; the accepted identity is the trimmed username and the row's id |
| Login.FailuresLookAlike | php/login.php:6-82 | every failure except a non-POST request redirects to `../html/iniciarSesion.html?error=1`; only acceptance redirects to the welcome page |
| LoginSession.WrittenKeys | php/login.php:75-76 | a key is written by a trace iff some event of the trace writes it |
| LoginSession.BindTraceIsSafe | php/login.php:70-76 | on the success path the id is regenerated before any key is written, and exactly the keys `usuario` and `user_id` are written |
| LoginSession.Session.Start | php/login.php:70-72 | session_start makes the session active and keeps its id and data |
| LoginSession.Session.RegenerateId | php/login.php:74 | the new id was never used before, and the data moves to it unchanged |
| LoginSession.Session.Put | php/login.php:75-76 | a `$_SESSION` write updates one key and nothing else |
| LoginSession.Session.BindUser | php/login.php:68-76 | afterwards the session is active under a never-used id, which joins the set of used ids; the data is the old data with `usuario` and `user_id` bound; the events are start (if inactive), regenerate, then the two writes |
| LoginSession.CheckPassword | php/login.php:50-66 | the step-by-step `$authenticated` flag ends true iff password_verify accepts (modern hash), or the digest matches or password_verify accepts (legacy hash) |
| LoginSession.HandleLogin | php/login.php:6-82 | the redirect is the one the decision calls for. On rejection the session is untouched: data, id, active flag, used ids and history. On acceptance the session is active under a never-used id, which joins the set of used ids, with the trimmed username and the row's id bound after the regeneration. |
| FormRules.JsTrim | js/form.js:29 | `value.trim()`: the value with ECMAScript whitespace and line terminators cut from both ends. Its meaning is stated by `Text.TrimSpec`. |
| FormRules.MatchesEmailRegex | js/form.js:37 | the anchored pattern `^[^\s@]+@[^\s@]+\.[^\s@]+$`, read as: the value splits into a plain run, `@`, a plain run, `.` and a plain run. Related to the scan by `FormRules.IsEmailIffRegex`. |
| FormRules.IsEmail | js/form.js:37-38 | `regex.test(value)` as a scan: no whitespace, exactly one `@` not at the start, and a `.` inside the domain part. Shown equal to the pattern by `FormRules.IsEmailIffRegex`. |
| FormRules.CheckField | js/form.js:29-49 | the verdict for one required input: blank, then email pattern, then password length, each with its message. Stated by `FormRules.EmptyFailsFirst`, `FormRules.EmailRule`, `FormRules.PasswordRule`, `FormRules.OtherRule` and `FormRules.FirstFailureDecides`. |
| FormRules.Utf16Length | js/form.js:45 | a string's JavaScript length lies between its number of code points and twice that |
| FormRules.IsEmailIffRegex | js/form.js:37-38 | the scan-based email test accepts exactly the strings that split into a plain run, `@`, a plain run, `.` and a plain run, with no whitespace or `@` in any run |
| FormRules.EmptyFailsFirst | js/form.js:29-34 | an input whose trimmed value is empty fails with "Este campo es obligatorio", whatever its type |
| FormRules.EmailRule | js/form.js:36-43 | a non-empty email input passes iff its trimmed value matches the pattern; if it fails, the message is the email message |
| FormRules.PasswordRule | js/form.js:45-49 | a password input fails iff its trimmed value is shorter than six UTF-16 code units |
| FormRules.OtherRule | js/form.js:29-49 | any other input passes iff its value is not all whitespace |
| FormRules.FirstFailure | js/form.js:30-49 | a sequence of checks yields a failure iff some check in it fails |
| FormRules.FirstFailureDecides | js/form.js:29-49 | the rule's verdict is the first failing check among blank, email pattern and password length, in that order |
| FormPage.View | js/form.js:27-50 | what a user sees of the form: every control, in document order, with the message right after it, if any. Split by `FormPage.ViewSplit`. |
| FormPage.RevalidateAll | js/form.js:27-50 | every slot after the handler: required controls show their verdict's message or none; others are unchanged. Its length is that of the input; its content is stated by `FormPage.RevalidateAllPointwise`. |
| FormPage.WithErrorAfter | js/form.js:6-14 | showError on a list: clearError, then a new message right after the element. Stated by `FormPage.ShowErrorLeavesOneMessage`. |
| FormPage.WithoutErrorAfter | js/form.js:16-21 | clearError leaves the control and everything before it in place |
| FormPage.ClearErrorKeepsNoAdjacent | js/form.js:16-21 | after clearError, no message follows the control; the removed element was the message, if any; no two messages become adjacent |
| FormPage.ClearErrorTwice | js/form.js:16-21 | clearError twice is clearError once |
| FormPage.ShowErrorLeavesOneMessage | js/form.js:6-14 | after showError exactly one message follows the control: the new one. The next element is not a message, and nothing before the control changes. |
| FormPage.RevalidateAllPointwise | js/form.js:27-50 | after revalidation every control keeps its field. A required control shows the message of its first failing check, or nothing when it passes. Any other control keeps what it showed. |
| FormPage.RevalidateAllIdempotent | js/form.js:24-53 | submitting a second time shows the same messages |
| FormPage.Skeleton | js/form.js:6-21 | the page without the messages that belong to controls: what neither clearError nor showError can change. Stated by `FormPage.RequiredStepKeepsSkeleton` and `FormPage.PageDetermined`. |
| FormPage.SkeletonAppend | js/form.js:6-21 | the skeleton of two concatenated parts is the concatenation of their skeletons, when the second part does not start with a message |
| FormPage.SkeletonSplit | js/form.js:6-21 | the skeleton splits at any element that is not a message |
| FormPage.RequiredStepKeepsSkeleton | js/form.js:28-49 | clearError followed, on failure, by showError on a control leaves every element other than that control's message where it was |
| FormPage.PageDetermined | js/form.js:6-21 | two pages with the same view and the same skeleton are the same page, so the view and the skeleton together describe the page completely |
| FormPage.RequiredStep | js/form.js:27-49 | one handler step on a required control produces its new slot and leaves the rest of the view as it was |
| FormPage.SkipStep | js/form.js:26 | an element that is not a required control, with its message, passes through unchanged |
| FormPage.FormDom.ClearError | js/form.js:16-21 | the method removes the message after control `j`, as WithoutErrorAfter says, and keeps no two messages adjacent |
| FormPage.FormDom.ShowError | js/form.js:6-14 | the method clears, then inserts the message after control `j`, as WithErrorAfter says, and keeps no two messages adjacent |
| FormPage.FormDom.ValidateInput | js/form.js:28-49 | for one required control: `ok` is whether the rule passes; the old message is replaced by the failing check's message, or removed; no two messages become adjacent |
| FormPage.FormDom.Visit | js/form.js:26-50 | one loop step keeps the handler invariant: the processed prefix shows the revalidated controls, the rest is untouched, `valid` is whether all processed required controls pass, and the skeleton is unchanged |
| FormPage.FormDom.Submit | js/form.js:23-53 | the page afterwards shows every control revalidated, in document order, with no two adjacent messages. Every element that is not a control's message stays in place (same skeleton), so by `FormPage.PageDetermined` the new page is fixed. Submission is prevented iff some required control fails. |

## Left out

- The mysqli connection, `prepare`/`bind_param`/`execute`/`get_result` and BD/db.php: the lookup is a parameter returning a failure or an optional row. BD/db.php is not part of this model.
- Exceptions from mysqli: the failure paths are the `false` returns the script tests (php/login.php:22, 29). Since PHP 8.1 mysqli throws `mysqli_sql_exception` by default instead, and whether it does here depends on the `mysqli_report` setting in BD/db.php. A `get_result()` that returns `false` (php/login.php:36) is not modelled either: `num_rows` would then read as null, and the script would stop with a fatal error at line 44 instead of redirecting.
- The deletion of the old session record by `session_regenerate_id(true)`: session storage is not modelled, only the current id and the `$_SESSION` contents.
- The internals of `password_verify`, bcrypt, argon2 and `hash('sha512', …)`: they are arbitrary functions. Nothing is assumed about the digest's format.
- Timing: the digest is compared with plain equality, and constant-time behaviour cannot be stated here.
- `header`, `exit` and `error_log`: the script's answer is a `Redirect` value, and log output is not modelled.
- The REQUEST_METHOD check compares strings exactly, as `!==` does.
- Array-valued POST fields and a NULL stored hash are not modelled: POST values and hashes are strings.
- PHP byte strings are modelled as character sequences. Every constant the script compares with is ASCII.
- `stripos` folds ASCII letters only, as PHP 8.2 and later do.
- LoginSession.Session.RegenerateId: assumes `session_regenerate_id` succeeds. The script ignores its return value. Random session ids are modelled by a counter; what is kept is that a new id was never used before.
- LoginSession.Session.Start: assumes `session_start` succeeds.
- The `URLSearchParams` banner at js/form.js:56-67 and all styling: they are display only.
- Event-listener wiring and multiple forms on one page: one form is modelled.
- FormPage.FormDom.Submit: models the form as one flat list of sibling elements, walked in document order; the required controls are checked as `querySelectorAll("input[required], textarea[required]")` would list them. The page must start with no two error messages adjacent. Nested markup, `textarea` versus `input` and `classList` details are not modelled: an error message is any element with class `error-message`.
- JavaScript `trim` and `\s` use the ECMAScript WhiteSpace and LineTerminator characters. PHP `trim` uses its six default characters. Both are fixed sets, with no Unicode normalisation.
