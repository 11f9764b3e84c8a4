# Taskora proof submission, modelled in Dafny

Taskora lets a signed-in user pick a task (an offer), complete it elsewhere
and come back with a screenshot as proof. The Earn page's `SubmitProof` form
sends that proof. It checks that a task and a file are chosen, then reads
the session. It uploads the screenshot to the `proofs` storage bucket under
the key `<userId>/<timestamp>_<safeName>`. Only if that upload succeeded
does it insert a `proof_submissions` row that points at the key. Reviewers
later approve or reject the row on the server.

This project models that client-side pipeline:

- `js_text.dfy` (module `JsText`): JavaScript strings as sequences of UTF-16
  code units (`CodeUnit`, `Units`).
- `proof_path.dfy` (module `ProofPath`): the file-name sanitiser, the
  decimal rendering of `Date.now()`, and the storage-key template. It also
  holds an independent parser, `SplitPath`, that reads a key back into its
  folder, timestamp and name, with a proof that the round trip holds.
- `submit_proof.dfy` (module `Earn`): the form's state as the class
  `SubmitProof`, whose method `Submit` follows `submit()` step by step. It
  has early returns, a try block whose failures share one catch, and a
  finally that clears `busy`. `Submit` is proved to agree with the pure
  function `SubmitSpec`, and the lemmas state what that sequence
  guarantees.
- `wrappers.dfy` (module `Wrappers`): `Option`, standing for `T | null`.

The outside world is passed to `Submit` as an `Outcomes` value:
- the session's user, or none;
- the clock reading;
- the error the upload reported, if any;
- the error the insert reported, if any.

Every request the component issues (read session, upload, insert) is
appended to the field `requests`. Each entry is stamped with the `busy`
flag and the message the form showed while the request was in flight.

## Model

| member | source | states |
|---|---|---|
| `ProofPath.SafeName` | app/earn/page.tsx:147 | The sanitised name has the same length as the file name, and every code unit is in `[a-zA-Z0-9._-]`, so it holds no `/`. Allowed code units keep their positions; every other code unit, including each half of a surrogate pair, becomes `_`. |
| `ProofPath.SafeNameFixedPoint` | app/earn/page.tsx:147 | Sanitising leaves a name unchanged if and only if every code unit of it is already allowed. |
| `ProofPath.SafeNameIdempotent` | app/earn/page.tsx:147 | Sanitising twice gives the same name as sanitising once. |
| `ProofPath.Digits` | app/earn/page.tsx:148 | A natural number's decimal text is non-empty, made only of digits, and has no leading zero unless the number is 0. |
| `ProofPath.DigitsValueOfDigits` | app/earn/page.tsx:148 | Reading the decimal digits of `n` gives back `n`. |
| `ProofPath.Decimal` | app/earn/page.tsx:148 | The text of the `Date.now()` reading is non-empty and made of digits, with an optional leading `-`. It holds no `/` and no `_`. |
| `ProofPath.DecimalRoundTrip` | app/earn/page.tsx:148 | Parsing the timestamp's text gives back the timestamp. |
| `ProofPath.StoragePath` | app/earn/page.tsx:148 | The key begins with `userId + "/"`. The segment after that begins with a digit or `-`, so it is never `.` or `..`. |
| `ProofPath.SplitStampRoundTrip` | app/earn/page.tsx:148 | The key's last segment, `<timestamp>_<name>`, splits at its first `_` back into the timestamp and the name, because the timestamp's text holds no `_`. |
| `ProofPath.SplitPathRoundTrip` | app/earn/page.tsx:148 | For any name without `/`, the key splits back into the user id (everything before the last `/`), the timestamp and the name, whatever the user id contains. |
| `ProofPath.ProofPathInUserFolder` | app/earn/page.tsx:147-148 | The key built from a sanitised file name always lies in the user's own folder, and reads back as user id, timestamp and sanitised name. |
| `Earn.TaskChosen` | app/earn/page.tsx:138 | `!offerId` as JavaScript evaluates it: `""` and the id 0 both count as no task; every other id counts as a chosen task. |
| `Earn.MessageOf` | app/earn/page.tsx:172 | `e?.message ?? "Something went wrong."`: only a missing message falls back to "Something went wrong."; any present message is shown as it is, so an empty message stays empty. |
| `Earn.SubmitSpec` | app/earn/page.tsx:136-176 | One `submit()` as a value: the new form and the requests sent, in order. At most three requests go out (session, upload, insert), the session is always read first, and the form is never left busy after a call that sent a request. The lemmas below state the rest. |
| `Earn.ValidationStopsEarly` | app/earn/page.tsx:137-139 | With no task chosen (`""` or the falsy id 0), the message becomes "Please select a task.". The file is not checked, `busy` is not set and nothing is requested. With a task but no file, the message becomes "Please upload a screenshot." and again nothing else happens. |
| `Earn.RequestsOnlyWhenValidated` | app/earn/page.tsx:137-143 | Some request is issued if and only if a task is chosen and a file is picked. |
| `Earn.BusyWhileInFlight` | app/earn/page.tsx:137-175 | Every request goes out while `busy` is true and no message is shown. After `submit`, `busy` is true only if it was already true and validation stopped the call. |
| `Earn.InsertFollowsUpload` | app/earn/page.tsx:150-162 | An insert is always directly preceded by an upload, and its `screenshot_path` is the key that upload wrote. |
| `Earn.InsertIffUploadSucceeded` | app/earn/page.tsx:143-162 | The insert is requested if and only if validation passed, the session has a user and the upload reported no error. Whether the row is then stored depends on the insert's outcome. |
| `Earn.UploadKeyInUserFolder` | app/earn/page.tsx:143-153 | The upload sends the chosen file. Its key splits back into the session user's id, the clock reading and the sanitised file name. |
| `Earn.InsertedRow` | app/earn/page.tsx:156-161 | The row names the session user and the chosen task. An empty note is stored as `null` (and only an empty one); any other note is stored as it is. |
| `Earn.SubmitOutcome` | app/earn/page.tsx:164-172 | If every step succeeded, the form shows the pending notice and the task, file and note are cleared. Otherwise the task, file and note are kept, and the message is the first failure's message: "Not logged in." for a missing user, "Something went wrong." for an error without a message. |
| `Earn.NoResubmitAfterSuccess` | app/earn/page.tsx:138-167 | After a successful submission, pressing submit again issues no request and asks for a task. One completed form cannot be submitted twice. |
| `Earn.RetryAfterFailure` | app/earn/page.tsx:137-172 | After a failed submission, a retry issues exactly the requests a first attempt with the retry's outcomes would issue. |
| `Earn.SubmitProof.constructor` | app/earn/page.tsx:125-129 | The form starts with no task, no file, an empty note, no message, not busy, and no requests issued. |
| `Earn.SubmitProof.Submit` | app/earn/page.tsx:136-176 | The new form state is `SubmitSpec` of the old one. The requests issued are appended to the log in order, as `SubmitSpec` lists them, so every lemma above holds of each call. |

## Left out

- The offer lists and their queries, the click logging and redirect, and the safety modal (app/earn/page.tsx:23-120, 131-134): remote reads, navigation and rendering.
- The `onChange` handlers of the select, file input and note (app/earn/page.tsx:186, 196, 202): the model sets the fields directly, and the `Number(...)` conversion of the select's value is not modelled.
- Offer ids are whole numbers. A `NaN` or fractional `offerId` is not modelled.
- ProofPath.Decimal: renders whole numbers in plain decimal only. JavaScript's exponent notation for magnitudes of 10^21 and above (a clock reading some 30 billion years away) is not modelled.
- The clock, the session and the storage and database calls are parameters (`Outcomes`). A returned error and a rejected promise from the upload or the insert both end in the same catch, so both are one `Failure`. A rejection of `getSession` itself is not modelled.
- The upload options (`cacheControl: "3600"`, `upsert: false`) and the file's bytes are passed through unexamined. A key clash from two uploads in the same millisecond is reported by storage as an upload error, which the model covers as such.
- Concurrency: each `await` in `submit` is a point where React may re-render. A second click before the re-render that disables the button, and edits to the inputs during a request, are not modelled. `Submit` runs as one step on the values the call started with, which are what the handler's closure captured.
- Clearing the file input through `document.getElementById` (app/earn/page.tsx:169-170): DOM manipulation.
- Review and point crediting run in the database procedure `admin_review_submission` (app/admin/page.tsx:69-73), whose body is not part of this repository. The admin gate, the dashboard balance and status badges, login, navigation, the withdraw flag and the static pages are query-then-render code with no local logic.
