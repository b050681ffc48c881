# Student registration: validator and record store

A Dafny model of the logic inside a small Flask application that registers
students. The application has two pieces of logic of its own:

- `validate_form`, a pure function from five submitted strings (name, email,
  phone, course, address) to an `(ok, message)` pair. It runs four checks in a
  fixed order and reports the first one that fails. The email and phone
  checks are Python regular expressions applied with `re.match`.
- the `students` table and the route handlers that change or read it:
  register (validate, refuse an email already stored, insert), view (list
  every row), edit (overwrite the five user fields of one row, without
  validation) and delete (remove one row). A missing id is a 404.

The model has four modules:

- `Patterns` (`patterns.dfy`): each regex has two readings. The first is the
  regex semantics, written as an existential split of the string into the
  pattern's parts (`EmailSplit`, `PhoneSplit`). The second is a hand-written
  scan (`ScanEmail`, `ScanPhone`). Each scan is proved to accept exactly what
  the split accepts. For the phone there is also the digit-run-length rule
  `DigitRunRule`, proved equal to the regex.
- `Validator` (`validator.dfy`): `Validate` returns the source's pair with its
  exact messages. `ValidateByScanning` computes the same pair with the scans.
- `StudentStore` (`store.dfy`): the `Student` row, and a `Store` made of a
  `map<int, Student>` plus the id counter. `Valid` is the table's integrity:
  each row sits under its own positive id, and no two rows share an email.
  `Register`, `Get`, `ListAll`, `Edit` and `Delete` are pure functions from a
  store to a result plus the next store.
- `Scenarios` (`scenarios.dfy`): concrete inputs that pin down the quirks,
  and the end-to-end registration scenario.

Behaviour the model makes precise:

- Presence means "not the empty string". There is no trimming, so a field of
  blanks is present.
- Email is a prefix check. `re.match` anchors only at the start and the
  pattern has no `$`. An address is accepted iff some prefix has the form
  L "@" D "." T, with L, D and T non-empty and free of '@'. Anything after
  that prefix is ignored, even more '@' characters.
- Phone: after an optional '+', the rest must be all digits. There must be
  9 to 15 of them, or 16 when the first is 1-9. So `"0123456789"` passes.
  Python's `$` also matches before one final newline, so `"1234567890\n"`
  passes too. The model keeps both quirks.
- `edit` (app.py:64-71) stores whatever strings are submitted without
  validating them, so `Valid` does not require non-empty fields.
  `Scenarios.EditSkipsValidation` shows an edit that stores five empty
  strings.
- The `[1-9]?` in the phone pattern is optional, so a leading '0' passes.
- `validate_form` returns message strings, and `Validate` returns the same
  strings.
- The application code does not check email uniqueness on edit. The
  database's unique constraint rejects the commit, and the row keeps its
  old values. `Edit` models that as `Err(EmailInUse)` with the store
  unchanged.
- Ids come from a counter that starts at 1 and only grows.
- The submitted `Form` has no `created_at` field. `Register` takes the
  clock reading as a parameter and stores it; `Edit` never changes it.

## Model

| member | source | states |
|---|---|---|
| Patterns.ScanEmail | app.py:18 | the scan accepts an email iff some prefix splits as L "@" D "." T, with L, D and T non-empty and free of '@' |
| Patterns.EmailMatchIgnoresSuffix | app.py:18 | the email check is a prefix check: appending anything, '@' included, to an accepted address keeps it accepted |
| Patterns.PhoneBodyIffRunRule | app.py:20 | the phone regex `\+?[1-9]?\d{9,15}` matches a whole string iff, after an optional '+', it is all digits, 9-15 of them or 16 with the first 1-9 |
| Patterns.PhoneBodyEndsInDigit | app.py:20 | a string the phone regex matches ends in a digit, so a final newline is only let through by `$` |
| Patterns.ScanPhone | app.py:20 | the scan (drop one final newline, skip '+', count digits) accepts exactly what `re.match` with `^...$` accepts |
| Validator.Validate | app.py:14-24 | ok iff all five fields are non-empty, the email and phone checks pass and the name has at least 2 characters; "Valid" on success; otherwise the message of the first failing check in the order presence, email, phone, name |
| Validator.MessagesDistinct | app.py:17-24 | the five messages are pairwise different, so each failure yields exactly one distinguishable message |
| Validator.ValidateByScanning | app.py:14-24 | the validator computed with the scans returns the same pair as the regex-level definition for every form |
| StudentStore.EmptyIsValid | models.py:5-14 | the empty table satisfies the primary-key and unique-email constraints |
| StudentStore.Register | app.py:38-52 | on a failed validation, the validator's message and an unchanged store; on an email already stored (exact match), a duplicate error and an unchanged store; otherwise exactly one new row under a fresh id with the five given fields and the clock reading; the constraints are preserved |
| StudentStore.Get | app.py:64 | a row is found iff its id is a key, and the row found carries that id; otherwise 404 |
| StudentStore.ListFrom | app.py:59 | the rows with ids from a bound upward, each exactly as stored, every such row present, strictly ascending by id (an order the model fixes; the query has none) |
| StudentStore.ListAll | app.py:57-60 | every row exactly as stored, each row present, strictly ascending by id (an order the model fixes; the query has none) |
| StudentStore.ListFromLength | app.py:59 | the partial listing has exactly as many entries as there are ids from the bound upward |
| StudentStore.ListAllLength | app.py:59 | the listing has exactly as many entries as the table has rows |
| StudentStore.Edit | app.py:62-71 | 404 with the store unchanged on an absent id; refused with the store unchanged when another row already has the new email; otherwise exactly the five user fields of that row are overwritten, its id and creation time kept, every other row and the id counter unchanged; the form is not validated |
| StudentStore.Delete | app.py:76-80 | 404 with the store unchanged on an absent id; otherwise exactly that row is removed and every remaining row is unchanged |
| StudentStore.RegisterThenGet | app.py:49-52 | a row created by register is found by its id and carries the five submitted fields |
| StudentStore.RegisterTwiceIsDuplicate | app.py:43-47 | after a successful register, registering the same form again is a duplicate and changes nothing |
| StudentStore.DeleteThenGet | app.py:78-80 | after a delete the id is not found, and every other id reads as before |
| StudentStore.EditThenGet | app.py:64-71 | after an edit the row reads back with the new fields and its original creation time; every other id reads as before |
| Scenarios.NoAtNoEmail | app.py:18 | a string without '@' never passes the email check |
| Scenarios.EmailExamples | app.py:18 | "a@b.c" passes, "not-an-email" fails, "a@b.c@@ trailing" passes |
| Scenarios.PhoneExamples | app.py:20 | "123" fails; "+1234567890", "0123456789", "1234567890123456" and "1234567890\n" pass; "0123456789012345" fails |
| Scenarios.ValidatorOrderExamples | app.py:16-24 | a 1-character name with a bad email reports the email error; blank fields count as present; a good form is (true, "Valid"); an empty course reports the missing-field error |
| Scenarios.AnnLeeScenario | app.py:38-60 | registering Ann Lee into the empty table yields id 1; a second registration with her email is a duplicate and changes nothing; the listing then has one entry |
| Scenarios.EditSkipsValidation | app.py:64-71 | edit stores a form of five empty strings that the validator rejects |

## Left out

- Flask routing, `render_template`, `flash`, `redirect`, `url_for` and the
  index page (app.py:26-28): UI and HTTP plumbing. Register's result stands
  for the flashed message; the GET branch of edit is `Get`.
- Reading `request.form`: a missing key raises `KeyError`, which the
  framework turns into HTTP 400.
- SQLAlchemy session and commit mechanics, `Config`, `db.create_all` and
  server start-up (app.py:84-87): foreign library calls and I/O.
- `Student.__repr__` (models.py:16-17): display only.
- The value of `created_at`: it is an opaque `Timestamp` taken from the
  caller's clock reading.
- The race between register's duplicate check and its insert: a concurrency
  concern. Transitions run one at a time.
- Column length limits (`String(100)`, `String(20)`): whether they are
  enforced depends on the database backend.
- Non-null columns: Dafny strings cannot be null, so the not-null
  constraints hold by typing.
- `\d` matching non-ASCII Unicode decimal digits: the model reads `\d` as
  '0'..'9'.
- The HTTP 500 that the unique-constraint violation produces on edit:
  `Edit` reports `EmailInUse` and leaves the store unchanged.
- Id allocation: it depends on the backend. The model uses a counter that
  never reuses ids. SQLite without AUTOINCREMENT can reuse the largest id
  after that row is deleted.
- Email comparison in register's duplicate check: the model compares
  exactly, which is case-sensitive. Some database collations compare
  without case.
- StudentStore.ListAll: `Student.query.all()` (app.py:59) has no ORDER BY,
  so the source's listing order is whatever the backend returns. The model
  fixes it to ascending id; `StudentStore.ListFrom` does the same.
