# Assignment upload backend — Dafny model

A model of the decision and state-changing logic of the coursework-submission
backend in `app.py`. Groups upload one assignment each: a title plus five lists
of object-storage references. Graders post rubric scores. Staff list classes
and groups and check whether a group has submitted. Clients fetch a signed,
time-limited policy that lets them upload files directly to the object store.

The database is modelled as the class `Store.Database`. Its four tables are
`seq` fields. `Upload` (`upload_assignment`) may change only `assignments`, and
`SubmitGrade` (`grade_assignment`) may change only `grades`. The invariant
`Valid()` is the uniqueness constraint on `Assignments.group_id`. The schema is
not part of this model. The constraint is assumed because `app.py:75` turns an
`IntegrityError` on that insert into the "already uploaded" reply.

The read-only handlers (`list_classes`, `list_groups`, `is_uploaded`) are pure
functions in `Catalog`. They take the rows of the table they query, and
`Database` applies them to its own tables through members that only read it. The
policy part of `generate_oss_signature` is the function `UploadPolicy.Generate`.
It takes the clock reading as a parameter. The library routines it calls are
passed in as a `Primitives` value of functions.

Modules:
- `Optional`: Python's `None` versus a value.
- `JsonValues`: decoded JSON, plus Python truth testing, `in`, and the values sqlite3 can bind.
- `ArtifactLists`: `", ".join` and the split that reads the string back.
- `Schema`: rows, the `{data, success}` reply, the group-uniqueness invariant and the `count(1)` query.
- `Catalog`: the listings and the submission status.
- `Grading`: the checks the grade handler makes before it inserts.
- `Store`: the database class and its two inserting handlers.
- `UploadPolicy`: the policy document, its expiry, encoding and signature.

Facts about `app.py` that the model keeps as written:
- `app.py` checks no score bound and has no averaging route. `Grading.NoScoreBounds` shows a score of 1000 being stored.
- `grade_assignment` replies `success: false` after a successful insert (`app.py:164`). `SubmitGrade` states this as written.
- In `is_uploaded`, `success: true` means the group has NOT uploaded yet (`app.py:133-136`).

## Model

| member | source | states |
|---|---|---|
| `ArtifactLists.Join` | app.py:67-71 | the stored string's length is the references' total length plus one two-character separator between each pair of references, and 0 for an empty list |
| `ArtifactLists.JoinSmall` | app.py:67-71 | an empty list is stored as "" and a one-element list as that element unchanged |
| `ArtifactLists.JoinSnoc` | app.py:67-71 | adding a reference at the end adds ", " and that reference to the stored string |
| `ArtifactLists.SplitJoin` | app.py:67-71 | when no reference contains a comma, splitting the stored string at ", " gives back exactly the submitted non-empty list, so the column determines the list |
| `ArtifactLists.JoinCollisions` | app.py:67-71 | the storage is lossy: `[]` and `[""]` are stored alike, and so are `["a, b"]` and `["a", "b"]` |
| `Schema.CountZeroIff` | app.py:131-133 | the `count(1)` for a group is zero exactly when no row carries that group id |
| `Schema.CountAppend` | app.py:131 | inserting a row raises its own group's count by one and leaves every other group's count unchanged |
| `Schema.CountUnique` | app.py:62-76 | while the table is unique per group, a group's count is at most one |
| `Schema.InsertKeepsUnique` | app.py:62-78 | inserting a row for a group that has none keeps the table unique per group, and that group then has exactly one row |
| `Store.Database.Upload` | app.py:41-78 | a missing or empty group id or title gives the "required" reply and leaves the table unchanged; a group that already has a row gives the "already uploaded" reply and leaves every row unchanged; otherwise exactly one row is appended, holding the group id, the title and the five joined lists, and the reply is "Upload successful" with `success: true`; `success` is true exactly when a row was added; uniqueness per group is preserved; no other table changes |
| `Catalog.IsUploaded` | app.py:127-136 | replies `success: true` with "has not uploaded" exactly when no row has the group id, and otherwise `success: false` with "has already uploaded"; it reads the table only |
| `Catalog.StatusFlipsOnInsert` | app.py:131-136 | before a group's row is inserted the status says not uploaded; after the insert it says already uploaded |
| `Catalog.ListClasses` | app.py:99-103 | one `{id, name}` entry per Classes row, in table order, carrying that row's id and name |
| `Catalog.ListGroups` | app.py:119-123 | never longer than the table; every entry is the `{id, name}` of some row of the requested class |
| `Catalog.ListGroupsComplete` | app.py:119-123 | every row of the requested class appears in the listing |
| `Catalog.ListGroupsConcat` | app.py:119-123 | the listing of a table made of two parts is the first part's listing followed by the second's, so the listing keeps table order |
| `Catalog.ListGroupsNone` | app.py:119-125 | a class with no groups, or an unknown class, gives an empty list and not an error |
| `Grading.AllKeysIn` | app.py:146-147 | on a `scores` object, the lazy `all(k in scores ...)` test is true exactly when every listed key is present |
| `Grading.ClassifyInvalidIff` | app.py:143-148 | the handler rejects exactly when `assignment_id` is absent or falsy, or when `scores` supports `in` (an object, a list or a string) and one of the four keys is not in it |
| `Grading.ClassifyInsertIff` | app.py:146-162 | a row is inserted exactly when `assignment_id` is truthy, `scores` is an object with all four keys, and every value can be bound; the row carries the id and the four scores exactly as given |
| `Grading.ClassifyScalarScoresCrash` | app.py:144-147 | once `assignment_id` is truthy, a `scores` of null, a bool or a number raises in the `in` test, so the handler fails and inserts nothing |
| `Grading.NoScoreBounds` | app.py:150-162 | out-of-rubric scores (1000, -5) are stored unchanged, because no bound is checked |
| `Store.Database.SubmitGrade` | app.py:140-164 | a rejected body gives "Invalid data provided" and leaves Grades unchanged; a failing body gives HTTP 500 and leaves Grades unchanged; otherwise exactly one row with the given values is appended. Every reply carries `success: false`, including the one for a successful insert. No other table changes |
| `UploadPolicy.Truncate` | app.py:169 | `int()` of the clock reading rounds toward zero: for a non-negative reading it is the whole seconds not above it, and for a negative reading the whole seconds not below it |
| `UploadPolicy.ExpirationWithinWindow` | app.py:168-169 | the expiry is more than 1199 and at most 1200 seconds after a non-negative clock reading |
| `UploadPolicy.Generate` | app.py:167-198 | the reply carries the configured access key id and the formatted `now + 1200` expiry. Its signature is the Base64 HMAC-SHA1 of the returned policy string under the secret key, so recomputing it over the returned policy reproduces it |
| `UploadPolicy.DecodeRecoversPolicy` | app.py:173-184 | decoding the returned policy with inverses of Base64, UTF-8 and JSON yields exactly the policy built for the configured bucket: the reply's expiry and the fixed three conditions, in order |
| `UploadPolicy.PolicyAdmitsExactly` | app.py:173-180 | under the model's reading of the object store's condition rules (exact bucket match, inclusive size range, type in the list), the policy admits exactly uploads into the configured bucket of 0 to 10485760000 bytes with one of the six listed content types. With no bucket configured it admits nothing |

## Left out

- Flask routing, form and JSON request parsing, `jsonify`, CORS and the `__main__` block (app.py:28-29, 200-207): these are framework I/O. Replies are modelled as the `{data, success}` payload. An exception that escapes `grade_assignment` is modelled as `InternalError`.
- `init_db` and the SQL schema script it runs (app.py:33-36) are not part of this model. The tables are modelled abstractly. Row ids are not modelled.
- The uniqueness of `Assignments.group_id` is assumed from the handler at app.py:75, not read from a schema. Foreign keys from Grades to Assignments are not enforced, as in SQLite's default setting. So a grade for a nonexistent assignment is stored.
- SQLite type affinity is not modelled. A group id is compared as the string the form carried. Flask's `<int:...>` conversion of the `is_uploaded` and `list_groups` path parameters is not modelled either.
- JSON numbers are reals. The int/float distinction and the overflow sqlite3 raises when it binds an integer wider than 64 bits are not modelled. A request body that is not a JSON object is not modelled.
- Database faults (connection failures, a locked database) are not modelled. The generic exception wrappers of `list_classes` (app.py:107-112) only report such faults, so they are left out too.
- Loading the environment and the startup check for missing keys (app.py:15-24) are process configuration. The values the signer reads are the `Config` parameter.
- `time.time`, `time.strftime` and `time.gmtime` (app.py:169-170): the clock reading is the parameter `now`, and the ISO-8601 formatting is the given function `formatUtc`.
- `json.dumps`, UTF-8, Base64 (RFC 4648, section 4) and HMAC-SHA1 (RFC 2104), used at app.py:183-191, are given functions and not modelled.
- `list_assignments` (app.py:81-91) is an unfiltered projection of three columns and is not modelled.
- Concurrent requests are not modelled. Each handler is one atomic step on the store.
- Score validation and a per-assignment average do not exist in `app.py`, so they are not modelled.
