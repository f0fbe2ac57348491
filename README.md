# Company directory: registration, login, lookup, search, profile update and photo upload

This project models the request handlers of a Node.js/Express service that
keeps a directory of companies in a MySQL table `companies`, and proves
properties of them in Dafny.

- `controllers/companyController.js`: registration, login by email and/or
  company code, listing, lookup by id and by code, paginated keyword search,
  and profile update.
- `controllers/authController.js`: the "is this email registered" check and
  the password reset.
- `middleware/upload.js`: the multer configuration for company photos. It
  covers the file filter, the stored file name and the 10 MB limit.

The table is an object with state. `Store.CompanyTable` holds the rows in
insertion order and the next auto-increment id. The handlers that write
(`INSERT`, `UPDATE`) are methods that modify it. The handlers that only read
are functions of the rows. The company handlers return a `Result`: either
the data they send with `success: true`, or the HTTP status and message of
their error. The two auth handlers return the `{success, message}` body they
always send with status 200 (`Reply`), and an upload ends in an
`UploadOutcome`: the stored file name or the refusal message.

Modules, one per file:

| file | module | what it holds |
|---|---|---|
| `wrappers.dfy` | `Wrappers` | `Option` and `Result` |
| `strings.dfy` | `Strings` | unanchored substring search, ECMAScript `trim`, ASCII lower-casing, decimal rendering |
| `store.dfy` | `Store` | the row type, column get/set, first-match lookup, the table class |
| `company_controller.dfy` | `CompanyController` | the seven handlers of the company controller |
| `auth_controller.dfy` | `AuthController` | `verifyEmail` and `resetPassword` |
| `upload.dfy` | `Upload` | `fileFilter`, `filename`, the size limit |

The model follows the code as written. In several places that differs from
what a service that stores hashed credentials and hides them would do:

- Registration stores the password exactly as sent.
- Login compares the stored value with the sent password as plain strings.
- `resetPassword` stores a bcrypt hash. As a result, a company that resets
  its password can no longer log in with the new one
  (`AuthController.LoginAfterResetFails`).
- `getAllCompanies`, `getCompanyById` and `getCompanyByCode` return the
  password column.
- A missing identifier and a wrong password give different messages
  ("Invalid credentials" and "Invalid password").
- An update may change `email`, `company_code` and `password`, and can
  break the uniqueness of codes (`CompanyController.UpdateCanDuplicateCode`).
- There is no account status and no OTP in these handlers.

## Model

| member | source | states |
|---|---|---|
| Store.Set | controllers/companyController.js:342-350 | `SET column = v` succeeds exactly for the ten assignable columns; it then gives that column the value and leaves every other column, the id and the timestamps unchanged |
| Store.FirstIndex | controllers/companyController.js:120-129 | the index returned is the first row in table order that satisfies the `WHERE` condition; `None` exactly when no row does |
| Store.IdLookupUnique | controllers/companyController.js:74-77 | in a table with auto-increment ids, the lookup by id finds the one row carrying that id |
| Store.PasswordSetWhere | controllers/authController.js:41-44 | `UPDATE ... SET password = h WHERE email = e` replaces the password of exactly the rows with that email and leaves every other row as it was |
| Store.CompanyTable.Insert | controllers/companyController.js:54-71 | the row is appended under the next auto-increment id, that id is returned as `insertId`, and the counter advances |
| Store.CompanyTable.Replace | controllers/companyController.js:349-352 | the row at the index is replaced and nothing else changes |
| Store.CompanyTable.SetPasswordByEmail | controllers/authController.js:41-44 | the new rows are `PasswordSetWhere` of the old rows; ids stay well formed |
| Strings.ContainsIff | controllers/companyController.js:256-266 | the substring search used for `LIKE '%q%'` and the unanchored regex holds exactly when the needle occurs at some index |
| Strings.Contains | controllers/companyController.js:256-264 | defined as: `t` is a prefix of `s` or occurs in its tail (its meaning is `Strings.ContainsIff`) |
| Strings.Trim | controllers/companyController.js:249 | defined as: `TrimEnd` of `TrimStart`, each of which removes exactly the longest whitespace run at its end |
| Strings.ToLowerAscii | middleware/upload.js:14 | same length, every character lower-cased if it is an ASCII capital and left alone otherwise |
| Strings.TrimEmptyIff | controllers/companyController.js:249 | `trim()` yields `''` exactly when every character is ECMAScript whitespace |
| Strings.NatToString | middleware/upload.js:7 | the decimal rendering of `Date.now()` is all digits, has no leading zero, and denotes the number |
| CompanyController.RegistrationError | controllers/companyController.js:19-51 | checks in the code's order: missing required field, then a taken code (iff some row has it), then a taken email (iff some row has it); no error exactly when all fields are given and both are free |
| CompanyController.RegisterCompany | controllers/companyController.js:3-83 | on an error nothing is inserted and that error is returned; otherwise exactly one row is appended, under the next id, with `role`/`description` null when falsy, `terms_agreed` false when falsy, `photo_url` from the upload; the reply holds the nine columns read back at line 75 (`id`, name, code, email, contact number, address, role, `photo_url`, `created_at`), so not the password, `description`, `terms_agreed` or `updated_at` |
| CompanyController.NewRow | controllers/companyController.js:54-71 | defined as: the inserted row, holding the fields as sent, `role`/`description` null when falsy, `terms_agreed` false when falsy, `photo_url` from the upload, both timestamps the clock |
| CompanyController.Registered | controllers/companyController.js:19-71 | defined as: the rows plus the new row when `RegistrationError` finds nothing, the rows unchanged otherwise |
| CompanyController.RegisteredKeepsKeysUnique | controllers/companyController.js:27-71 | one registration keeps codes and emails pairwise distinct and leaves the existing rows untouched |
| CompanyController.RegisterAllKeepsKeysUnique | controllers/companyController.js:27-71 | any sequence of registrations run one after another keeps codes and emails pairwise distinct and keeps the original rows as a prefix |
| CompanyController.IdentifierOf | controllers/companyController.js:99-118 | an identifier exists iff email or code is given; a row matches the chosen `WHERE` clause iff it matches every identifier that was given |
| CompanyController.WithoutPassword | controllers/companyController.js:141 | `delete company.password` removes the password and nothing else: putting it back gives the row |
| CompanyController.LoginCompany | controllers/companyController.js:95-148 | 400 without password or identifier; 401 "Invalid credentials" iff no row matches; 401 "Invalid password" iff the first matching row holds another password; success iff it holds exactly the one sent, returning that row without its password |
| CompanyController.WrongPasswordRefused | controllers/companyController.js:129-138 | when the first matching row holds a password other than the one sent, login answers 401 "Invalid password" |
| CompanyController.RegisteredCompanyCanLogIn | controllers/companyController.js:54-71 | a company that has just registered logs in by its email, and by its code, with the password it registered with |
| CompanyController.NewestFirst | controllers/companyController.js:163 | `ORDER BY created_at DESC` taken as reverse insertion order: same length, element `i` is row `n-1-i`, same multiset of rows |
| CompanyController.GetAllCompanies | controllers/companyController.js:160-170 | `count` is the number of rows and `data` holds exactly the rows of the table, newest first: element `i` is row `n-1-i` |
| CompanyController.GetCompanyById | controllers/companyController.js:182-201 | success iff some row has the id, returning a row of the table with that id; 404 otherwise |
| CompanyController.GetCompanyByCode | controllers/companyController.js:213-232 | success iff some row has the code, returning the first such row; 404 otherwise |
| CompanyController.MatchesQuery | controllers/companyController.js:260-264 | defined as: the name, code or email contains the query, or the role is not null and contains it |
| CompanyController.Matching | controllers/companyController.js:259-264 | a row is among the hits iff it is in the table and its name, code, email or non-null role contains the query |
| CompanyController.MatchingKeepsOrder | controllers/companyController.js:259-265 | the `WHERE` filter keeps the order of the rows it keeps: hits of rows whose ids decrease have decreasing ids |
| CompanyController.SearchHitsNewestFirst | controllers/companyController.js:259-265 | in a table with auto-increment ids, the search hits come newest first (strictly decreasing ids) |
| CompanyController.HitsAreMatchingRows | controllers/companyController.js:259-268 | every row of a page is a row of the table that matches the query |
| CompanyController.LimitOffset | controllers/companyController.js:266 | `LIMIT l OFFSET o` returns `min(l, n-o)` rows (none past the end), element `k` being row `o+k` |
| CompanyController.CeilDiv | controllers/companyController.js:281 | `Math.ceil(total / limit)` is the least `r` with `r * limit >= total` |
| CompanyController.PageNonEmptyIff | controllers/companyController.js:247-281 | for page >= 1, the page at offset `(page-1)*limit` is non-empty iff `page <= totalPages` |
| CompanyController.ItemOnItsPage | controllers/companyController.js:247-266 | hit `j` appears, at position `j % limit`, on page `j / limit + 1` |
| CompanyController.Offset | controllers/companyController.js:247 | defined as: `(page - 1) * limit` |
| CompanyController.SearchResults | controllers/companyController.js:256-291 | the page holds exactly `min(limit, hits - offset)` rows (none past the last hit), hit `offset+k` at position `k`, each a table row matching the query; `totalItems` is the number of hits; `totalPages` is the ceiling (null for limit 0); `currentPage` and `itemsPerPage` echo the request |
| CompanyController.BlankQueryIff | controllers/companyController.js:249-254 | the query is refused iff it is missing or made only of whitespace |
| CompanyController.SearchCompanies | controllers/companyController.js:244-301 | 400 iff the query is blank; 500 iff it is not blank and the limit or offset is negative; success iff neither, and then the search results for page/limit defaulting to 1/10 and offset `(page-1)*limit` |
| CompanyController.SetKey | controllers/companyController.js:323-325 | assigning a key makes it map to the value, leaves every other key alone and keeps the keys distinct |
| CompanyController.StrippedLookup | controllers/companyController.js:327-332 | after the clean-up `id` is gone, empty values are gone, every other key maps to what was sent, and keys stay distinct |
| CompanyController.WithUpload | controllers/companyController.js:323-325 | defined as: `SetKey` of `photo_url` to `/uploads/` and the stored name when a file came, the body unchanged otherwise |
| CompanyController.Stripped | controllers/companyController.js:327-332 | every entry left has a non-empty value and a key other than `id`, and no more entries than were sent |
| CompanyController.StripFields | controllers/companyController.js:327-332 | the `forEach` loop leaves exactly the entries whose value is not `''` and whose key is not `id`, in order |
| CompanyController.ApplyFields | controllers/companyController.js:341-352 | defined as: `Set` of each remaining key in turn, `None` as soon as one is refused |
| CompanyController.ApplyFieldsSpec | controllers/companyController.js:341-352 | the `SET` clause succeeds iff every key names an assignable column; then each such column holds the value sent and every other column, the id and the timestamps are unchanged |
| CompanyController.UpdateCompanyProfile | controllers/companyController.js:304-364 | 404 and no change for an unknown id; 400 and no change when nothing is left after the clean-up; 500 and no change when a key names no assignable column; otherwise only that row changes, to the applied fields with `updated_at` set to the clock, and is returned |
| CompanyController.UploadedPhotoIsKept | controllers/companyController.js:323-332 | an uploaded photo's URL always survives the clean-up and overrides any `photo_url` in the body |
| CompanyController.UpdateCanDuplicateCode | controllers/companyController.js:328-352 | an update may set a company's code to another company's code, so the table then has two rows with the same code |
| AuthController.VerifyEmail | controllers/authController.js:5-22 | "Email required" without an email; otherwise success iff some row has the email, with "Email verified" or "Email not registered" |
| AuthController.ResetPassword | controllers/authController.js:31-49 | "All fields required" and no change when either field is missing or empty; otherwise success and every row with that email gets `hash(password)` |
| AuthController.ResetTouchesOnlyPasswords | controllers/authController.js:41-44 | a reset changes only the password column, only of rows with that email, and sets it to the hash |
| AuthController.ResetOfUnknownEmailChangesNothing | controllers/authController.js:41-49 | a reset for an email no row has leaves the table unchanged, yet still reports success |
| AuthController.ResetKeepsKeysUnique | controllers/authController.js:41-44 | a reset keeps codes and emails pairwise distinct |
| AuthController.LoginAfterResetFails | controllers/authController.js:39-44 | after a reset, logging in by that email with the new password is refused with "Invalid password" whenever the hash differs from the password |
| Upload.MatchesAllowedTypes | middleware/upload.js:12-16 | defined as: `jpeg`, `jpg`, `png` or `webp` occurs somewhere in the string |
| Upload.SegmentExt | middleware/upload.js:14 | the extension of one path segment is empty exactly when the segment is `..` or has no dot after its first character (`photo`, `.png`); otherwise it is a proper tail of the segment that starts with its last dot |
| Upload.ExtName | middleware/upload.js:14 | `path.extname` is empty, or a dot followed by no other dot and no slash |
| Upload.ExtNameOfPath | middleware/upload.js:14 | `path.extname` is a proper tail of the last path segment (trailing slashes stripped), and is empty exactly when that segment is `..` or has no dot after its first character |
| Upload.StoredFileName | middleware/upload.js:7 | defined as: the decimal rendering of the clock followed by the original extension |
| Upload.AlternativeAnywhereMatches | middleware/upload.js:12-16 | the image-type pattern is unanchored: any string containing `jpeg`, `jpg`, `png` or `webp` passes |
| Upload.NoLowerCaseNeverMatches | middleware/upload.js:12-16 | the test is case-sensitive: a string with no lower-case ASCII letter never passes |
| Upload.ExtNameOfFileName | middleware/upload.js:14 | `path.extname` of `stem.ext`, where `ext` has no dot or slash, is `.ext` |
| Upload.FileFilter | middleware/upload.js:11-23 | the file is accepted iff both the lower-cased extension and the mimetype pass the test; a refusal carries "Only image files are allowed" |
| Upload.ExtensionTestIgnoresCase | middleware/upload.js:13-19 | a file `stem.EXT` whose extension is an allowed type in any mix of cases is accepted when its mimetype passes |
| Upload.UpperCaseMimetypeRejected | middleware/upload.js:16-21 | a mimetype without lower-case letters, such as `IMAGE/PNG`, is refused whatever the file name |
| Upload.StoredFileNameRoundTrip | middleware/upload.js:6-8 | the stored name `Date.now() + extname` reads back into the same timestamp and extension |
| Upload.UploadFile | middleware/upload.js:11-31 | a file is stored iff the filter accepts it and it is at most 10 MB (10485760 bytes), under the timestamped name; a filter refusal gives the filter's message; an accepted file over the limit gives "File too large" |

## Left out

- I/O, logging, the `async` interleaving of requests, the database
  connection and its failures. In particular, the race between the
  uniqueness checks and the `INSERT` of `registerCompany` is not modelled:
  registrations are taken one at a time.
- The `catch` branches that turn a thrown database error into
  "Failed to register company", "Failed to login", "Failed to fetch
  companies/company" or "Server error". They are modelled only where the
  statement itself is refused: a negative search window
  (`SearchCompanies`) and a key naming no assignable column
  (`UpdateCompanyProfile`).
- The clock (`Date.now()`, `CURRENT_TIMESTAMP`) is a parameter `now`.
- bcrypt is a parameter `hash`, an arbitrary function. Its salt and its
  cost are not modelled.
- `NewestFirst`: `ORDER BY created_at DESC` is taken as reverse insertion
  order. Rows created in the same second keep an order MySQL does not fix.
- `Store.FirstIndex`: a `SELECT` without `ORDER BY` (the login, the lookups
  by id and by code) is taken to return its rows in table order, and the
  handlers' `rows[0]` is the first of them. MySQL does not fix that order.
- Equality in `WHERE email = ?` and `WHERE company_code = ?` is exact
  string equality in `RegistrationError`, `LoginCompany`,
  `GetCompanyByCode`, `VerifyEmail` and `PasswordSetWhere`. MySQL compares
  under the table's collation, which usually ignores case and trailing
  spaces: there `A@X.COM` finds the row of `a@x.com`.
- `UpdateCanDuplicateCode` assumes the table has no UNIQUE index on
  `company_code` (the schema is not part of this model). With one, that
  update is refused and the handler answers 500.
- `GetCompanyById`, `UpdateCompanyProfile`: `req.params.id` is a string
  that MySQL converts to a number (`'7abc'` finds id 7). The model takes
  the id as a natural number.
- `Matching`: `LIKE` uses MySQL's collation, which usually ignores case,
  and treats `%` and `_` in the query as wildcards. The model uses exact,
  case-sensitive substring matching.
- Request values that are not strings (numbers, booleans, arrays in JSON
  bodies or repeated query parameters) are left out: every field is an
  optional string.
- `SearchCompanies`: `page` and `limit` are taken as already-parsed
  integers with defaults 1 and 10. The JavaScript arithmetic on strings,
  `parseInt` of non-numeric text and `NaN` are left out.
- `UpdateCompanyProfile`: a body key naming `created_at` or `updated_at`
  is treated as a refused statement (500). MySQL would accept a
  well-formed datetime there.
- `Store.IsTextColumn`: the table is taken to have exactly the columns the
  registration `INSERT` names, plus `id`, `created_at` and `updated_at`
  (the schema is not part of this model). An update key naming any other
  column the real table has would succeed there; the model answers 500.
- `Store.Set`: column names are matched exactly. MySQL column names ignore
  case, so a key `EMAIL` (or a back-quoted name) assigns the `email`
  column, where the model refuses it.
- `CompanyController.ApplyFieldsSpec`: the body's keys are taken as column
  names. The handler splices them into the SQL text unescaped, so a key
  can carry SQL of its own (a key `password='x' WHERE 1=1 #` turns the
  statement into one that rewrites every row's password). The model
  covers only keys that are plain column names.
- `CompanyController.UpdateCompanyProfile`: "only that row changes" and
  the 500 for an unknown key hold under the two lines above. Keys that
  are other spellings of a column, or that carry SQL, are not modelled.
- `UpdateCompanyProfile` requires the body's keys to be distinct, as the
  keys of a JavaScript object always are.
- `UpdateCompanyProfile`: when the id is unknown, the uploaded file stays
  on disk. Files on disk are not modelled.
- MySQL's type coercion of column values (for example `terms_agreed` given
  as a string) is left out. Columns hold the value as sent.
- `FileFilter`: `toLowerCase` is modelled as ASCII lower-casing. The
  decision is unaffected, since no non-ASCII character lower-cases to one
  of the letters in `jpeg`, `jpg`, `png` or `webp`.
- `path.extname` is modelled for POSIX paths only.
- multer's streaming, the `uploads/` destination directory and the error
  object of the size limit (modelled as its message, "File too large") are
  left out.
- `server.js`, `app.js`, the routes, the models, the database
  configuration, the OTP routes and the SMS utility are not part of this
  model.
