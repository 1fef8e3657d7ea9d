# Admission and rating submission handlers: a verified model

The repository holds two small web back ends.

- `app.py` is a Flask admission server. `POST /submit` reads a student's form, adds up the fee of the selected subjects, keeps the uploaded photo only if its name has an image extension, and stores one row in the `students` table. `GET /admin` lists every stored row as a record keyed by column name.
- `server.js` is an Express ratings server. `POST /submit` refuses a rating that is missing or outside [0, 100]. Otherwise it appends `{ user, rating, comment }` to the submissions list. The user label is `User <n>`, where n is the new length of the list, and a missing or empty comment becomes `No comment provided.`.

The model is split into six modules:

| file | module | models |
|---|---|---|
| `wrappers.dfy` | `Wrappers` | `Option` (Python `None`, JavaScript `undefined`) and `Result` (a raised exception) |
| `text.dfy` | `Text` | `str.strip()`, `str.lower()` and `str.join` on ASCII text, and the decimal form of a count |
| `fees.dfy` | `Fees` | `SUBJECT_FEES` and `calculate_fees`, with their algebraic properties |
| `fee_examples.dfy` | `FeeExamples` | worked fee totals |
| `uploads.dfy` | `Uploads` | `ALLOWED_EXTENSIONS` and `allowed_file` |
| `admissions.dfy` | `Admissions` | `submit_admission` and `admin_view` |
| `ratings.dfy` | `Ratings` | the ratings server's `/submit` handler |

The fee calculator and the filename check are pure functions, as they are in the source. `submit_admission` and the ratings `/submit` handler change stored state, so each one is a method of a class that holds that state.

- `Admissions.StudentTable` holds the students table as a multiset of rows. `SELECT *` promises no order, so the model keeps none.
- `Ratings.SubmissionLog` holds the submissions list as a sequence.

Each method's postcondition ties the new state to a specification function:

- `StudentTable.Submit` is tied to `Admit`. That function gives the row the handler would build from a request, or the error it would raise first. The step-by-step reading of the form is the method `ReadAdmission`, which is proved to compute `Admit`.
- `SubmissionLog.Submit` is tied to the old list. The log keeps the `Labelled` invariant: entry i carries the label `User i+1` and an accepted rating. In a labelled log, no two entries share a label.

`admin_view` builds its list with a loop. It is modelled as the method `AdminView`, whose loop invariant says that each record built so far holds its row.

Four things outside these handlers become parameters of the model:

- `secure_filename` is the parameter `sanitize`.
- The key the database gives a new row is the parameter `id`.
- Whether the photo save and the database insert succeed is the parameter `stored`.
- The rows that `SELECT *` returns are the argument of `AdminView`. `ListingOfTable` and `SubmittedRowListed` tie them to the rows of a `StudentTable`: they are the same multiset of rows, in any order.

## Model

| member | source | states |
|---|---|---|
| `Text.TrimStart` | app.py:54 | the result of `lstrip` is no longer than the input and does not start with whitespace |
| `Text.TrimEnd` | app.py:54 | the result of `rstrip` is no longer than the input and does not end with whitespace |
| `Text.TrimStartRemovesBlanks` | app.py:54 | `lstrip` keeps a suffix of the input and removes only whitespace |
| `Text.TrimEndRemovesBlanks` | app.py:54 | `rstrip` keeps a prefix of the input and removes only whitespace |
| `Text.Strip` | app.py:54 | the stripped text neither starts nor ends with whitespace |
| `Text.StripPadded` | app.py:54 | whitespace padding on either side does not change `strip()` |
| `Text.TrimStartPadded` | app.py:54 | leading whitespace does not change `lstrip` |
| `Text.TrimEndPadded` | app.py:54 | trailing whitespace does not change `rstrip` |
| `Text.TrimStartConcat` | app.py:54 | `lstrip` of `t + q` is `lstrip` of `q` when `t` is all whitespace, and otherwise `lstrip` of `t` followed by all of `q` |
| `Text.LowerChar` | app.py:54 | lower-casing leaves no capital letter, changes only capitals, and never changes whether a character is whitespace |
| `Text.LowerTrimStart` | app.py:54 | lower-casing and `lstrip` commute |
| `Text.LowerTrimEnd` | app.py:54 | lower-casing and `rstrip` commute |
| `Text.LowerStrip` | app.py:54 | lower-casing and `strip()` commute |
| `Text.JoinConcat` | app.py:74 | joining two non-empty runs of parts gives their joins with one separator between them |
| `Text.JoinLength` | app.py:74 | the joined text is as long as all parts together plus one separator between each two |
| `Text.Decimal` | server.js:30 | the decimal form of a count is non-empty, all digits, and has no leading zero |
| `Text.DecimalRoundTrip` | server.js:30 | reading the digits of a count's decimal form back gives the count |
| `Text.DecimalInjective` | server.js:30 | different counts have different decimal forms |
| `Fees.Normalize` | app.py:54 | a normalised subject name has no whitespace at either end and no capital letter |
| `Fees.SubjectFee` | app.py:39-54 | one subject adds between 0 and 700, the dearest price in the table |
| `Fees.SubjectFeeKnown` | app.py:54 | a subject adds a positive amount exactly when its normalised name is in the table; an unknown name adds 0 |
| `Fees.PricesInRange` | app.py:39-46 | every price in the table is positive and at most 700 |
| `Fees.CalculateFees` | app.py:53-54 | the total is never negative and at most 700 times the number of selected subjects |
| `Fees.FeesZeroIffNoneKnown` | app.py:53-54 | the total is 0 exactly when no selected subject is in the table |
| `Fees.FeesAdditive` | app.py:53-54 | the total of `a + b` is the total of `a` plus the total of `b` |
| `Fees.FeesCountDuplicates` | app.py:54 | selecting an already selected subject again adds its fee again; duplicates are not removed |
| `Fees.FeesRemoveOne` | app.py:54 | taking out one selected subject lowers the total by exactly that subject's fee |
| `Fees.FeesIgnoreOrder` | app.py:54 | two selections with the same subjects in any order have the same total |
| `Fees.SubjectFeeIgnoresPadding` | app.py:54 | whitespace around a subject name does not change its fee |
| `Fees.SubjectFeeIgnoresCase` | app.py:54 | names that differ only in the case of their letters have the same fee |
| `FeeExamples.FeesOfNothing` | app.py:53-54 | no subjects cost 0 |
| `FeeExamples.FeesIgnoreCaseAndPadding` | app.py:39-54 | `["Bengali", " HISTORY "]` costs 500 + 400 = 900 |
| `FeeExamples.FeesOfUnknownSubject` | app.py:54 | `["french"]` costs 0 |
| `FeeExamples.FeesOfEnglishAndComputer` | app.py:39-54 | `["english", "computer"]` costs 600 + 700 = 1300 |
| `Uploads.LastIndexOf` | app.py:50 | there is no dot position exactly when the name has no dot; a found position holds a dot and no dot follows it |
| `Uploads.ExtensionOfSplit` | app.py:50 | for `stem.ext` with no dot in `ext`, the text after the last dot is `ext`, whatever dots `stem` holds |
| `Uploads.AllowedFileByExtension` | app.py:49-50 | `stem.ext` (no dot in `ext`) is accepted exactly when lower-cased `ext` is png, jpg, jpeg or gif |
| `Uploads.AllowedFileHasExtension` | app.py:49-50 | every accepted name is a stem, a dot, and an allowed extension that holds no dot |
| `Uploads.NoDotRefused` | app.py:50 | a name without a dot is refused |
| `Uploads.EmptyExtensionRefused` | app.py:50 | a name ending in a dot, such as `photo.`, is refused |
| `Uploads.DoubleExtensionAccepted` | app.py:50 | `a.tar.PNG` is accepted: only the last extension counts, and its case does not |
| `Uploads.ExtensionBeforeLastDotRefused` | app.py:50 | `png.exe` is refused |
| `Admissions.ReadAdmission` | app.py:64-85 | reading the fields in order, joining the subjects, adding up their fees and placing the photo gives exactly the row, or the first missing field, that `Admit` describes |
| `Admissions.NoAbsentFieldIffComplete` | app.py:66-72 | no required field is reported missing exactly when all six are present |
| `Admissions.AdmitReportsFirstMissing` | app.py:66-72 | when required field i is absent and the fields read before it are present, the submission fails naming field i |
| `Admissions.AdmitNeedsEveryField` | app.py:66-72 | a row is built exactly when all six required fields are present |
| `Admissions.AdmitAcceptsCompleteForm` | app.py:66-85 | a built row holds the form's first values and `student-phone` (default empty), the `", "`-joined subjects, `calculate_fees` of them, and a photo path exactly when a photo is present and its name passes `allowed_file`; that path is `uploads/` joined with the sanitised name |
| `Admissions.StoredRow` | app.py:90-92 | a stored row has the table's eleven columns and meets the schema's NOT NULL and type rules |
| `Admissions.StudentTable.constructor` | app.py:17-34 | a new table is empty and meets the schema |
| `Admissions.StudentTable.Submit` | app.py:62-99 | a missing field or a storage failure leaves the table unchanged and reports the error; otherwise exactly the row `Admit` describes is added, and the response carries its fee; the schema invariant is kept |
| `Admissions.AdminView` | app.py:112-126 | one record per fetched row, in the same order; each record's keys are the eleven column names, and key i holds column i of its row |
| `Admissions.RecordHoldsRow` | app.py:114-126 | the dict built from one row holds that row, column by column |
| `Admissions.ListingOfTable` | app.py:107-108 | every row `SELECT *` returns from a table that meets the schema, in whatever order, has the eleven columns `admin_view` reads |
| `Admissions.SubmittedRowListed` | app.py:107-126 | a row that `submit_admission` stored is held by some record of the `admin_view` listing |
| `Admissions.RecordOfStoredRow` | app.py:90-92 | the record that holds a stored submission shows, under each column name, its key, its form values, the joined subjects, the photo path or null, and the fee |
| `Ratings.CommentOrDefault` | server.js:32 | the stored comment is never empty: it is the given comment when that is non-empty, and `No comment provided.` otherwise |
| `Ratings.SubmissionLog.constructor` | server.js:16-18 | a new submissions file holds the empty list |
| `Ratings.SubmissionLog.Submit` | server.js:21-38 | a missing rating, or one below 0 or above 100, is refused and leaves the list unchanged; otherwise exactly one entry is appended, with label `User <old length + 1>`, the rating unchanged and the comment or its default; earlier entries are untouched, and a labelled list stays labelled |
| `Ratings.RatingBounds` | server.js:24 | 0 and 100 are accepted; -1, 101 and a missing rating are refused |
| `Ratings.UserLabelInjective` | server.js:30 | different counts give different user labels |
| `Ratings.LabelledUsersDistinct` | server.js:28-34 | in a list built only by `/submit`, no two entries share a user label |
| `Ratings.FirstLabels` | server.js:30 | the first two labels are `User 1` and `User 2` |

## Left out

- The HTTP layer: routing, `jsonify`, `res.json`, CORS, body parsing and status codes. A response is a plain value: `Submitted`, `Failed` or `Saved`, `InvalidRating`. The static welcome page `home` and the `GET /submissions` listing are left out because neither has any logic.
- SQLite: connections, `CREATE TABLE` and the `INSERT`, `SELECT` and commit statements. The table is a multiset of rows. The schema's column order and NOT NULL rules are kept as the invariant `WellFormedRow`. The row key is a parameter, with no autoincrement or ordering assumed.
- Admissions.StudentTable.Submit: saving the photo and inserting the row are one success flag, `stored`. So the model does not show that a photo can be saved even when the insert that follows fails.
- Admissions.AdminView: the requires clause says every fetched row has at least eleven columns. `ListingOfTable` proves this for every row a valid `StudentTable` holds, so the `IndexError` that a shorter row would raise cannot happen, and it is not modelled.
- `secure_filename` (a werkzeug function), `photo.save` and `os.makedirs`. `secure_filename` is the opaque parameter `sanitize`. The other two are filesystem side effects.
- werkzeug's truth test on the uploaded file object. The model treats a present photo as truthy. This changes no result: a file that werkzeug treats as false has an empty name, and `AllowedFile` refuses an empty name anyway.
- Admissions.JoinPath: it follows `os.path.join` only for a directory with no trailing slash, which is all the `uploads` constant needs.
- The file I/O of server.js (`existsSync`, `readFileSync`, `writeFileSync`) and the JSON parsing and serialisation. The list is a field of `SubmissionLog`.
- The read-modify-write race between concurrent `/submit` requests on `submissions.json`. The model is sequential.
- Floating point. `fees` is a REAL column, but every price is a whole number, so fees are integers. JavaScript ratings are doubles; the model takes integer ratings.
- Ratings.SubmissionLog.Submit: a rating that is not a number is out of scope (null, a string, a fractional value). In particular, `null` passes the guard, because JavaScript compares `null` as 0. A comment that is not a string is also out of scope; the comment is a present or absent string.
- Ratings.CommentOrDefault: of JavaScript's falsy values, it covers only a missing comment and the empty string.
- Python's `str.strip()` and `str.lower()` beyond ASCII. Whitespace is the ASCII characters that `str.isspace()` accepts, and lower-casing changes only A to Z.
