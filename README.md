# Gem certificate registry — a Dafny model

The registry stores gemstone certificates and lets clients look one up by its
certificate number or register a new one. This project models the decision logic
of its handlers. Each SQL statement is read as an operation on an in-memory table:

- The PostgreSQL database is `Store.Database`, a class with these fields:
  - the `certificates` and `users` tables, each None until `CREATE TABLE` has run;
  - their SERIAL sequences;
  - a clock standing for `CURRENT_TIMESTAMP`;
  - an `online` flag. While it is false, every statement fails.
- A SELECT is a function over what the table shows (`CertView`, `UserView`). Without `ORDER BY`, the model assumes rows come back in insertion order. PostgreSQL does not promise this order (see "## Left out").
- An INSERT is a method that appends a row.
- The only constraints the database enforces are NOT NULL and the case-sensitive UNIQUE on `certificatenumber` (and on `username`). A statement takes an id from the sequence even when it inserts nothing.

The handlers modelled:

- `server/index.js` (module `ServerIndex`):
  - the in-memory seed records;
  - `getContentType`;
  - the lookup route: the newest row equal under `LOWER`, then the first seed record equal under lower-casing, then 404;
  - `GET` and `POST /api/certificates`. POST checks all twelve fields, refuses a duplicate under `LOWER`, then inserts.
- `server/storage.ts` (`StorageTs`): an exact match, then an `ILIKE` match; `ILIKE` existence; a plain insert.
- `server/storage.js` (`StorageJs`): an `UPPER` match with errors read as null; an exact existence check with errors read as false; an insert with four default values.
- `api/certificates/index.js` (`ApiCertificates`): `OPTIONS`, `GET` newest first, `POST` with an exact duplicate check, and 405.
- `api/setup/database.js` (`ApiSetup`): both tables, the `admin` user and the three sample certificates, each by insert-or-ignore.
- `api/auth/login.js` (`ApiLogin`): the login decision.
- `Variants`: lemmas and small scenarios across the handlers, chiefly where their notions of "the same number" disagree.

Shared pieces:

- `Ascii`: case mapping, the last path segment and `join`.
- `Uri`: `decodeURIComponent` and an encoder to state its round trip.
- `Like`: `LIKE`/`ILIKE` patterns.
- `Sql`: `WHERE`, `ORDER BY createdat DESC` and the users query.
- `Records`: the row and object shapes.
- `Http`: the responses.

The registry is meant to work as follows:

- certificate numbers are unique without regard to case, across the table and the seed records;
- lookups fall back to the seed records when the database cannot be reached;
- duplicate rows are ranked by `createdAt`, then `id`;
- an INSERT that breaks the UNIQUE constraint is reported as a duplicate.

The code differs in the following places, and the model follows the code:

- Case-insensitive uniqueness. The code has three behaviours:
  - `POST` in `server/index.js` checks the table only, so a seed number registers on an empty table (`Variants.SeedNumberRegisters`).
  - The serverless `POST` and `storage.js` compare exactly (`Variants.ExactChecksDiffer`, `Variants.RegisterTwiceServerless`).
  - The UNIQUE constraint is case-sensitive.
- Seed fallback during an outage. `server/index.js` answers 500 instead (`Variants.OutageHidesSeed`).
- Ranking duplicates. No variant breaks ties the intended way:
  - `storage.ts` returns the first match in table order;
  - `getCertificate` in `storage.js` returns an unranked `rows[0]`;
  - the lookup in `server/index.js` orders by `createdat DESC` with no `id` tie-break.
- A UNIQUE violation at insert time. `StorageTs.CreateCertificate` and `StorageJs.CreateCertificate` do no duplicate check of their own, so they can reach one; both throw it. The serverless `POST` checks for an exact duplicate first, so it reaches one only through the check-then-insert race, which the model leaves out. It would then answer 500.
- `server/index.js` sends no response at all to `/api/certificates` with a method other than `GET`, `POST` or `OPTIONS` (`NoResponse`). `OPTIONS` is answered before routing.

## Model

| member | source | states |
|---|---|---|
| ServerIndex.FindByLower | server/index.js:170-172 | finds a seed record exactly when some record's number equals the argument under lower-casing, and returns the first such record |
| ServerIndex.ContentType | server/index.js:68-81 | the mapped type when the extension is one of the eight keys, `text/plain` otherwise |
| ServerIndex.Extname | server/index.js:69 | `path.extname` is empty, a lone `.`, or a dot followed by no dot or slash |
| ServerIndex.TypesKeysAreExtensions | server/index.js:70-79 | every key of the table is an extension shape `path.extname` can return |
| ServerIndex.ExtnameOfFile | server/index.js:69 | for `dir/name.ext` with a dot-free name, the extension is `.ext` |
| ServerIndex.ContentTypeOfFile | server/index.js:68-81 | each of the eight listed extensions after a file name selects its mapped type |
| ServerIndex.ExtnameOfDotFile | server/index.js:69 | a file named only `.png` has no extension |
| ServerIndex.ContentTypeOfDotFile | server/index.js:68-81 | so such a file is served as `text/plain` |
| ServerIndex.TrimTrailingSlashes | server/index.js:69 | `path.extname` first drops trailing slashes: the result is a prefix ending in no slash, and everything it drops is a slash |
| ServerIndex.TrimWithoutTrailingSlash | server/index.js:69 | a path not ending in a slash is kept whole |
| ServerIndex.LastDot | server/index.js:69 | finds the last `.`, or reports that there is none |
| ServerIndex.ExtnameOfSegment | server/index.js:69 | the extension runs from the last dot of the last segment, empty when that dot leads the segment or the segment is `..` |
| ServerIndex.TailFromLastDot | server/index.js:69 | what follows the last dot of a segment holds no other dot or slash |
| ServerIndex.LastDotAt | server/index.js:69 | the last `.` is the one no later `.` follows |
| ServerIndex.Resolve | server/index.js:137-178 | with some row equal under lower-casing, answers 200 with the camelCase form of a matching row that no matching row is newer than; otherwise the first equal seed record, else 404 "Certificate not found" |
| ServerIndex.NewestHitIsLatest | server/index.js:139-147 | the first row of the ordered matches is a match no other match is newer than |
| ServerIndex.NoHitNoMatch | server/index.js:147-172 | no rows from the query means no stored number matches under lower-casing |
| ServerIndex.LookupRoute | server/index.js:133-185 | a malformed escape in the last segment gives the server's 500; a failing query gives 500 "Error fetching certificate" and no seed fallback; otherwise `Resolve` of the decoded segment |
| ServerIndex.LookupPathNumber | server/index.js:133-134 | the route reads back the number that follows the prefix |
| ServerIndex.LookupPathEncodedNumber | server/index.js:134 | a percent-encoded number decodes back to the number |
| ServerIndex.LookupIgnoresCaseAndEncoding | server/index.js:134-142 | looking a number up as typed, upper-cased or URL-encoded gives the same response |
| ServerIndex.ResolveOfUpper | server/index.js:142-171 | both comparisons see the number only through its lower-cased form |
| ServerIndex.WhereLowerOfUpper | server/index.js:142 | `LOWER(x) = LOWER(n)` selects the same rows for `n` and its upper-cased form |
| ServerIndex.FindByLowerOfUpper | server/index.js:170-172 | the seed search is the same for `n` and its upper-cased form |
| ServerIndex.SeedNumberFoundWithoutTableRow | server/index.js:168-174 | with no table row for it, `gie-2024-001234` resolves to the first seed record |
| ServerIndex.Missing | server/index.js:197 | a field is reported exactly when it is required and falsy, and the report keeps the declared order |
| ServerIndex.NoMissingFields | server/index.js:197-199 | nothing is reported exactly when all twelve fields are truthy |
| ServerIndex.AllFalsyAllMissing | server/index.js:197 | when every field is falsy, all of them are reported |
| ServerIndex.NoneFalsyNoneMissing | server/index.js:197 | when every field is truthy, none is reported |
| ServerIndex.EmptyBodyMissesEverything | server/index.js:196-197 | an unparsable body (read as `{}`) is missing all twelve fields, listed in order |
| ServerIndex.RequiredFieldsAreAll | server/index.js:196 | the required list names every one of the twelve fields |
| ServerIndex.NoMissingFieldsAllPresent | server/index.js:197-205 | past the check, every required key holds a non-empty string |
| ServerIndex.FieldNameInjective | server/index.js:196-202 | no two fields share a key, so the message names each missing field unambiguously |
| ServerIndex.PostValues | server/index.js:259-265 | each of the twelve required fields is passed to its column as posted; `imageurl` is null exactly when `imageUrl` is falsy, and otherwise `imageUrl`; a body with nothing missing fills every NOT NULL column |
| ServerIndex.PostCertificate | server/index.js:190-276 | a JSON `null` body is a 500 from reading its first field, with the table unchanged; otherwise 400 with every missing field and the table unchanged; 500 when the table cannot be created; 400 "already used" and the table unchanged when a stored number equals it under `LOWER`, whatever the seed records hold; otherwise exactly one appended row returned with 201 |
| ServerIndex.CertificatesRoute | server/index.js:187-278 | `GET` answers with the seed records, unchanged, whatever the table holds; `POST` as `PostCertificate`; any other method except `OPTIONS` (answered earlier, before routing) gets no response |
| StorageTs.GetCertificate | server/storage.ts:12-28 | an exactly equal number is returned whenever one exists (the first in table order); otherwise the first `ILIKE` match, or nothing; query errors propagate |
| StorageTs.CheckCertificateExists | server/storage.ts:38-46 | true exactly when some stored number matches the argument under `ILIKE` |
| StorageTs.PlainLookupIgnoresCase | server/storage.ts:19-44 | for arguments without `%`, `_` or `\`, both the fallback and the check are case-insensitive equality |
| StorageTs.ExistsThenFound | server/storage.ts:20-46 | a true existence check means the lookup finds a record |
| StorageTs.PercentFindsAnything | server/storage.ts:24-43 | `%` is a wildcard: both queries report the first row of any table without a number `%` |
| StorageTs.ExactNumberMissedByPattern | server/storage.ts:17-43 | a stored `A\B` is found by the exact lookup but not by `ILIKE`'s existence check |
| StorageTs.CreateCertificate | server/storage.ts:30-36 | appends exactly the given row and returns it; a NOT NULL or exact UNIQUE violation is thrown and nothing is stored |
| StorageJs.GetCertificate | server/storage.js:20-32 | the first row (table order) equal under `UPPER`, null if none; a failing query is null, not an error |
| StorageJs.CheckCertificateExists | server/storage.js:67-79 | true exactly when some stored number is exactly equal; false on a failing query |
| StorageJs.ExistsThenFound | server/storage.js:22-74 | an existing number is always found by `getCertificate` |
| StorageJs.FoundButNotExisting | server/storage.js:23-70 | `gie-2024-001234` is found next to `GIE-2024-001234` yet does not "exist" |
| StorageJs.Padded | server/storage.js:55 | exactly `width` digits |
| StorageJs.PaddedValue | server/storage.js:55 | zero-padding keeps the value of a number that fits |
| StorageJs.IsoDate | server/storage.js:55 | `YYYY-MM-DD`: ten characters, dashes at 4 and 7, digits elsewhere |
| StorageJs.IsoDateRoundTrip | server/storage.js:55 | the written date reads back as the same day |
| StorageJs.WithDefaults | server/storage.js:43-57 | `symmetry` defaults to 'Excellent', `fluorescence` to 'None', `issueDate` to today, `imageUrl` to null when falsy; every other field passes through |
| StorageJs.DefaultsNeverNull | server/storage.js:51-56 | the insert meets NOT NULL exactly when the nine fields without a default are given |
| StorageJs.DefaultIssueDateIsToday | server/storage.js:55 | a defaulted issue date names today's date |
| StorageJs.CreateCertificate | server/storage.js:34-65 | inserts the defaulted values and returns the stored row; every insert error is rethrown with nothing stored |
| ApiCertificates.ListResponse | api/certificates/index.js:20-24 | `GET` returns every row, newest first; a failing query is 500 with its error |
| ApiCertificates.ListIsNewestFirst | api/certificates/index.js:22 | on a table the database keeps, the listing is the table in reverse insertion order |
| ApiCertificates.BodyValues | api/certificates/index.js:60-70 | each of the thirteen body values goes to its column unchanged, absent ones as NULL; NOT NULL holds exactly when the twelve fields are present |
| ApiCertificates.Handle | api/certificates/index.js:11-82 | `OPTIONS` is 204 before any database work; only `certificateNumber` is validated; an exactly equal stored number is 400 "already exists", while a differently-cased one passes; a successful insert appends one row returned with 201; a NOT NULL violation or failing query is 500; other methods are 405; nothing is written except by a successful `POST` |
| ApiSetup.SamplesComplete | api/setup/database.js:68-114 | every sample fills every NOT NULL column |
| ApiSetup.InsertIgnore | api/setup/database.js:117-128 | a sample is appended exactly when no stored number equals it, and otherwise nothing changes but the sequence |
| ApiSetup.AddAdmin | api/setup/database.js:61-65 | `admin` is added only when no user of that name exists; an existing row is untouched |
| ApiSetup.SeedCertsKeepsRows | api/setup/database.js:116-129 | the loop leaves the users alone and keeps every existing row in place |
| ApiSetup.SeedCertsCovers | api/setup/database.js:116-129 | after the loop, every sample number is stored |
| ApiSetup.SeedCertsSkipsStored | api/setup/database.js:116-129 | when every sample number is already stored, the loop changes no row |
| ApiSetup.SeedCertsKeepsTableOk | api/setup/database.js:116-129 | the loop keeps ids and times increasing and numbers exactly distinct |
| ApiSetup.AddAdminKeepsTablesOk | api/setup/database.js:61-65 | the admin insert keeps usernames distinct |
| ApiSetup.SetupAddsAdmin | api/setup/database.js:61-65 | after setup `admin` exists; an existing user is left as it was |
| ApiSetup.SetupStoresSamples | api/setup/database.js:116-129 | setup keeps existing rows and stores every sample number |
| ApiSetup.SetupIdempotent | api/setup/database.js:61-129 | running setup twice leaves both tables with the same rows as running it once |
| ApiSetup.SetupStoresEachSampleOnce | api/setup/database.js:116-135 | after a run, each sample number occurs exactly once |
| ApiSetup.StoredNumberOnce | api/setup/database.js:32-33 | under the UNIQUE constraint, a stored number sits at exactly one position |
| ApiSetup.SeedCertsStep | api/setup/database.js:116 | one more turn of the loop is one more insert-or-ignore |
| ApiSetup.CertInsertIgnore | api/setup/database.js:117-123 | the store's `DO NOTHING` insert of a complete value is `InsertIgnore` |
| ApiSetup.SeedOne | api/setup/database.js:117-128 | one turn of the loop changes the tables as `InsertIgnore` says |
| ApiSetup.SeedSamples | api/setup/database.js:116-129 | the loop inserts the samples in order, each unless its number is stored |
| ApiSetup.Populate | api/setup/database.js:61-129 | the admin insert-or-ignore, then the sample loop, as `AddAdmin` then `SeedCerts` |
| ApiSetup.PopulateSamples | api/setup/database.js:61-129 | with the three samples, this is what `SetupTables` says of the tables once both exist |
| ApiSetup.Setup | api/setup/database.js:23-143 | a non-`POST` is 405 and creates or inserts nothing; an unreachable database is 500 "Database setup failed" with nothing changed; otherwise 200 naming the tables `certificates` and `users`, with the tables as `SetupTables` says |
| ApiLogin.Login | api/auth/login.js:16-75 | `OPTIONS` is 200 `{}`; other non-`POST` is 405; a missing or empty username or password is 400; an unknown user is 401 "Invalid credentials"; with both given and the query answering, the result is either the 200 success or that 401; every 401 is that same answer; a failing query or absent body is 500 |
| ApiLogin.LoginSucceedsIff | api/auth/login.js:41-68 | a login succeeds exactly when the first user of that name has that password, and returns that user without its password, all other fields kept |
| ApiLogin.WrongPasswordIsBadCredentials | api/auth/login.js:53-61 | a stored user given the wrong password gets exactly the unknown-user 401 |
| ApiLogin.SuccessKeepsUser | api/auth/login.js:64-68 | the returned user, with its password put back, is a stored row of that name |
| Records.Or | server/index.js:264 | `a \|\| b` is one of its operands, and it is truthy exactly when either operand is |
| Records.ToCertificate | server/index.js:150-166 | the renaming loses nothing: it reads back as the same row |
| Records.FromCertificate | server/index.js:150-166 | a camelCase object reads back as a row exactly when it carries `createdAt` |
| Records.WithoutPassword | api/auth/login.js:64 | removing the password loses nothing else: putting it back gives the stored row |
| Store.FirstNullColumn | api/setup/database.js:31-46 | no NOT NULL column is NULL exactly when all twelve are given |
| Store.RowOf | api/setup/database.js:31-46 | the stored row holds every given value in its own column (it reads back as the same values), with the given id and time |
| Store.ValuesOf | api/setup/database.js:31-46 | a stored row's columns, read back as INSERT values, fill every NOT NULL column |
| Store.InsertKeepsTableOk | api/setup/database.js:32-33 | an insert succeeds exactly when no stored number is exactly equal, is skipped under `DO NOTHING` otherwise, and keeps the table's invariant |
| Store.CertInsertKeepsTableOk | api/setup/database.js:31-47 | whatever one INSERT decides, the table and its sequence keep the invariant |
| Store.Database.CertView | server/index.js:139-144 | a SELECT sees the rows when the database is up and the table exists, and fails otherwise |
| Store.Database.UserView | api/auth/login.js:41-44 | the same for `users` |
| Store.Database.CreateCertificatesTable | api/setup/database.js:30-48 | creates the empty table when it is missing, otherwise changes nothing; fails only when the database is unreachable |
| Store.Database.CreateUsersTable | api/setup/database.js:51-58 | the same for `users` |
| Store.Database.InsertCertificate | api/setup/database.js:117-128 | one INSERT: NOT NULL first, then exact UNIQUE or `DO NOTHING`; appends the row only on success |
| Store.Database.InsertUserIfAbsent | api/setup/database.js:61-65 | appends the user unless its name is stored |
| Sql.Where | server/storage.js:22-27 | keeps exactly the rows satisfying the condition, the first match first |
| Sql.WhereHeadIsFirstMatch | server/storage.js:27 | `rows[0]` is the first matching row in table order |
| Sql.OrderByCreatedDesc | api/certificates/index.js:22 | newest first, and a permutation of the rows |
| Sql.InsertDesc | api/certificates/index.js:22 | one step of the ordering keeps every row and adds one |
| Sql.InsertDescSorted | api/certificates/index.js:22 | that step keeps the rows newest first |
| Sql.InsertOldest | api/certificates/index.js:22 | a row strictly older than every other goes last |
| Sql.ReverseElements | api/certificates/index.js:22 | reading the table back to front keeps exactly its rows |
| Sql.Reverse | api/certificates/index.js:22 | position `i` holds the row `i` places from the end of the table |
| Sql.HeadIsNewest | server/index.js:143-144 | `LIMIT 1` after `ORDER BY createdat DESC` is a newest row |
| Sql.OrderByCreatedDescOfInsertionOrder | api/certificates/index.js:22 | over rows inserted in clock order, the ordering is the table reversed |
| Sql.UsersNamed | api/auth/login.js:41-44 | exactly the users of that name, the first one first |
| Like.PlainMatchesIffEqual | server/storage.ts:24-43 | without `%`, `_` or `\`, `LIKE` is string equality |
| Like.PlainIMatchesIffSameLower | server/storage.ts:24-43 | without wildcards, `ILIKE` is case-insensitive equality |
| Like.LowerKeepsPlain | server/storage.ts:24 | lower-casing adds no wildcard |
| Like.PercentMatchesAll | server/storage.ts:24-43 | `%` matches every string |
| Uri.PercentDecode | server/index.js:134 | a segment without `%` decodes to itself |
| Uri.MalformedEscapeFails | server/index.js:134 | a `%` not followed by two hex digits makes `decodeURIComponent` throw, wherever it stands |
| Uri.DecodeEncodedChar | server/index.js:134 | decoding takes one encoded character off the front |
| Uri.HexDigit | server/index.js:134 | each hex digit written reads back as its value |
| Uri.PercentEncode | server/index.js:134 | the encoding has no `/` and so stays one path segment |
| Uri.DecodeEncode | server/index.js:134 | encoding then decoding an ASCII number gives the number back |
| Ascii.LastSegment | server/index.js:134 | `split('/').pop()`: the slash-free tail after the last slash |
| Ascii.LastSegmentAfterSlash | server/index.js:134 | whatever goes before the last slash does not matter |
| Ascii.Lower | server/index.js:142 | `LOWER` maps each character by itself and keeps the length |
| Ascii.Upper | server/storage.js:23 | `UPPER` likewise |
| Ascii.LowerCharEqIffUpperCharEq | server/storage.js:23 | two characters agree lower-cased exactly when they agree upper-cased |
| Ascii.Join | server/index.js:202 | `join` of one name is that name, of none the empty string |
| Ascii.JoinSnoc | server/index.js:202 | one more part comes after one more separator, so the parts keep their order |
| Ascii.SameLowerIffSameUpper | server/storage.js:23 | equality under `UPPER` and under `LOWER` agree on ASCII |
| Ascii.LowerOfUpper | server/index.js:142 | lower-casing after upper-casing is lower-casing |
| Variants.CaseFoldingChecksMatch | server/index.js:240-251 | with `GIE-2024-001234` stored, `gie-2024-001234` is a duplicate for the Node server and is found by both storage lookups |
| Variants.ExactChecksDiffer | api/certificates/index.js:50-57 | the same number passes the serverless check, the `storage.js` existence check and the UNIQUE constraint |
| Variants.LookupReturnsNewest | server/index.js:139-167 | once both spellings are stored, the lookup returns the newer row |
| Variants.AdminLogsInAfterSetup | api/setup/database.js:61-65 | after setup on a database without `admin`, `admin`/`admin123` logs in |
| Variants.RubyBodyComplete | server/index.js:196-205 | a fully filled-in body passes the required-field check |
| Variants.NewSpellingIsDuplicate | server/index.js:240-251 | a stored `GIE-2024-009999` makes `gie-2024-009999` a duplicate |
| Variants.SpellingsSameLower | server/index.js:142 | the two spellings agree lower-cased and hold no `LIKE` wildcard |
| Variants.RegisterTwiceOnServer | server/index.js:240-270 | `GIE-2024-009999` then `gie-2024-009999`: 201, then 400 "already used" |
| Variants.RegisterTwiceServerless | api/certificates/index.js:49-72 | the same two requests are both stored with 201 |
| Variants.NullBodyDiffers | server/index.js:190-276 | a JSON `null` body is a 500 on the Node server, but the serverless handler reads it as `{}` and answers that the number is required |
| Variants.SeedNumberRegisters | server/index.js:240-270 | a seed number registers on an empty table |
| Variants.OutageHidesSeed | server/index.js:180-183 | with the database down, a seed number's lookup is 500 |

## Left out

- HTTP plumbing is left out: CORS headers, the `OPTIONS` and static-file routes of `server/index.js`, image endpoints and logging. They are I/O with no decision logic.
- `parseBody` is left out because it is stream I/O. A body that does not parse is modelled by its outcome, `Records.EmptyDraft`. A body that parses to `null` is `None`. A body that parses to any other non-object value also reads every field as `undefined`, so it is modelled as `Records.EmptyDraft`.
- The in-memory login and sessions of `server/index.js` are left out. The session id comes from `Math.random`.
- Connection and pool configuration (`server/db.ts`, the config at the top of `api/setup/database.js`, `vercel-setup.js`) is left out as library configuration.
- `initializeDatabase` and the `dbInitialized` flag of `api/certificates/index.js` are left out. Their source lines are damaged, so the handler sees whatever tables exist.
- Connection loss part-way through a request is not modelled. The database is either reachable for the whole request or not at all. A failure of a later statement (for example a duplicate-check query after a successful `CREATE TABLE`) therefore does not occur in the model.
- Concurrency is not modelled, including the race between a duplicate check and its INSERT. Requests run one at a time.
- Timestamps are a counter that only an INSERT advances. Ids come from a counter as well.
- StorageJs.GetCertificate: `rows[0]` is taken to be the first match in insertion order. PostgreSQL gives no order without `ORDER BY`, so when two spellings of one number are stored, which row the source returns is unspecified.
- StorageTs.GetCertificate: the `ILIKE` fallback likewise returns the first match in insertion order. In the source that choice is unspecified. The same holds for the exact match when several rows are exactly equal, which the UNIQUE constraint rules out.
- Sql.WhereHeadIsFirstMatch: a `WHERE` without `ORDER BY` is modelled as keeping insertion order. This is an assumption of the model, not something PostgreSQL guarantees.
- `ORDER BY createdat DESC` among rows with equal `createdat` puts the earlier row first. PostgreSQL leaves that order unspecified. Rows stored by the model never tie.
- Column types and lengths (`VARCHAR(n)`) are not modelled.
- Error messages are not modelled as text: a body carries the error value in place of `error.message`. The server's last-resort 500 body is `InternalFault`, without its `error`, `url` and `method` fields.
- The 500 message for a `null` body (`ServerIndex.NullBodyMessage`) uses the TypeError wording of current Node releases. Older runtimes word it differently.
- JSON values that are not strings (numbers, booleans, objects in a body) are not modelled. A field is a string or absent.
- Ascii: case mapping covers ASCII letters only. Unicode case folding is left out.
- Uri.PercentDecode: escapes of bytes 0x80 and above (UTF-8 sequences) are treated as malformed. Full `decodeURIComponent` would decode valid sequences.
- Like.Matches: a pattern ending in a lone backslash matches the backslash literally. PostgreSQL raises an error for such a pattern. The locale-dependent case folding of `ILIKE` is also left out.
- StorageJs.ValidDate: only years 0-9999 are modelled. `toISOString` writes other years in a six-digit form with a sign.
- StorageTs.CreateCertificate: it takes the column values directly. The camelCase-to-column mapping and any defaults of the ORM schema (`shared/schema.js`) are not part of this model.
- ApiCertificates.Handle: the `inserted[0] ? inserted[0] : inserted` fallback is not modelled, because `RETURNING *` always yields the row.
