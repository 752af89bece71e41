# PruebaSQL users CRUD: a Dafny model

PruebaSQL is a small Express + PostgreSQL users CRUD with a static browser front end.
This project models its logic:

- **Bulk upload (`POST /clientes/upload`).** The handler picks a reader from the file
  extension, compared case-insensitively.
  - A CSV row gives a record whose username is the first truthy alias column (`username`,
    `user`, `name`, `nombre`), trimmed. The role is `row.role || 'member'`.
  - A TXT file is split on `\r?\n`. Each line is trimmed, and blank lines are dropped.
  - A missing file, an unsupported extension or an empty result is answered with 400.
  - Otherwise the handler builds a single `INSERT ... VALUES ('u', 'r'),... RETURNING *`
    statement. It doubles the quotes in usernames.
- **Users table.** `POST /users`, `PATCH /users/:id` and `DELETE /users/:id` act on an
  abstract table `map<int, User>` with a serial id counter. The table is the class
  `UsersApi.UsersTable`. Each handler is a method, proved equal to a pure effect function.
  Lemmas state what those functions promise: defaults, `COALESCE` updates, "nothing else
  changes", and round trips.
- **Front end (`Frontend/app.js`).**
  - `getRoleColor`.
  - The checks `createUser` and `editUser` make before sending anything.
  - `renderUsers`' choice between the placeholder row and one row per user.

Files:

| file | module | contents |
|---|---|---|
| wrappers.dfy | Wrappers | `Option`, `Result` |
| js_text.dfy | JsText | `String.prototype.trim`, `split(/\r?\n/)`, ASCII `toLowerCase`, POSIX `path.extname` |
| ingest.dfy | Ingest | upload record extraction: CSV and TXT readers (loops), dispatch, rejections |
| sql_values.dfy | SqlValues | quote escaping, the VALUES text, a reader for it, the role-injection finding |
| users_api.dfy | UsersApi | the users table class and the POST/PATCH/DELETE/upload endpoints |
| frontend.dfy | Frontend | role colours, create/edit decisions, table rendering |

The database is abstract. `SqlValues.ExecuteInsert` stands for what PostgreSQL does with a
bulk insert statement: it reads the VALUES list back into records with `SqlValues.ParseValues`.
Each inserted record becomes a row under the next serial id.

## Model

| member | source | states |
|---|---|---|
| JsText.ToLower | Backend/server.js:159 | `toLowerCase` of the extension: same length, ASCII letters lowered one by one (see ToLowerAt) |
| JsText.Trim | Backend/server.js:184 | the result of `trim` has no whitespace at either end and is no longer than the input |
| JsText.TrimSlice | Backend/server.js:184 | `trim` keeps one contiguous slice of the text and drops only whitespace before and after it |
| JsText.TrimEmptyIff | Backend/server.js:184-185 | a text trims to "" exactly when it is all whitespace |
| JsText.TrimIdempotent | Backend/server.js:173 | trimming twice is the same as trimming once |
| JsText.TrimKeepsTrimmed | Backend/server.js:173 | a text with no whitespace at either end is left as it is |
| JsText.TrimStartDropsWhitespace | Backend/server.js:184 | everything dropped at the front is whitespace |
| JsText.TrimEndDropsWhitespace | Backend/server.js:184 | everything dropped at the back is whitespace |
| JsText.TrimStartAppend | Backend/server.js:184 | text appended after a non-whitespace character is kept whole by the front trim |
| JsText.TrimIgnoresTrailingCR | Backend/server.js:182-184 | a carriage return left at the end of a line does not change what the line trims to |
| JsText.Lines | Backend/server.js:182 | `split(/\r?\n/)` yields at least one piece |
| JsText.LinesHaveNoLineFeed | Backend/server.js:182 | no piece of the split contains a line feed |
| JsText.LinesWithoutBreak | Backend/server.js:182 | text with no line feed is a single piece, carriage returns included |
| JsText.LinesAtCRLF | Backend/server.js:182 | a "\r\n" break ends the piece before it, without its "\r", and splitting goes on after it |
| JsText.LinesAtLF | Backend/server.js:182 | a bare "\n" break ends the piece before it, when that piece does not end in "\r" |
| JsText.JoinCons | Backend/server.js:182 | joining a piece onto at least one more puts the separator between them |
| JsText.JoinPrepend | Backend/server.js:182 | a character put in front of the first piece comes first in the joined text |
| JsText.JoinLines | Backend/server.js:182 | for text without carriage returns, joining the pieces with "\n" gives back the text |
| JsText.ToLowerAt | Backend/server.js:159 | lower-casing works character by character: A–Z move to a–z, every other character stays |
| JsText.LastIndexOfIsLast | Backend/server.js:159 | the index is -1 exactly when the character is absent, and no occurrence follows it |
| JsText.LastIndexOfAtLeast | Backend/server.js:159 | every occurrence of the character lies at or before the index found |
| JsText.BaseNameOfPlainName | Backend/server.js:159 | a name without '/' is its own last component |
| JsText.ExtName | Backend/server.js:159 | an extension is empty or starts with '.' |
| JsText.ExtNameShape | Backend/server.js:159 | an extension holds a single '.' and no '/' |
| JsText.ExtNameOfFileName | Backend/server.js:159 | the extension of `stem + ".ext"` is ".ext" |
| Ingest.Truthy | Backend/server.js:171-173 | JavaScript truthiness of a CSV cell `row.x`: the column is present and not "", tested before any trim |
| Ingest.FirstAlias | Backend/server.js:171 | the first truthy value among `username`, `user`, `name` and `nombre`, in that order, None when none is |
| Ingest.RoleOf | Backend/server.js:173 | the `role` cell when it is truthy, "member" otherwise |
| Ingest.CsvRecord | Backend/server.js:171-173 | one CSV row's record: the chosen alias trimmed, with RoleOf, or none when no alias is truthy |
| Ingest.TxtRecord | Backend/server.js:184-186 | one line's record: the trimmed line with role "member", or none when it trims to "" |
| Ingest.Collect | Backend/server.js:169-188 | the `push` accumulation: the records the items yield, in item order, skipping items that yield none |
| Ingest.CsvRecords | Backend/server.js:169-174 | the records of the rows, in stream order |
| Ingest.TxtRecords | Backend/server.js:183-188 | the records of the lines, in file order |
| Ingest.KindOf | Backend/server.js:159-179 | the lower-cased extension compared with ".csv", then ".txt" |
| Ingest.Dispatch | Backend/server.js:164-199 | the reader for the kind, the unsupported-format 400, then the empty-result 400 |
| Ingest.Rejection.Message | Backend/server.js:155-198 | the three 400 texts: no file (line 155), unsupported format (line 192), empty or no valid data (line 198) |
| Ingest.Extraction | Backend/server.js:153-199 | the no-file 400, then Dispatch on the file's extension |
| Ingest.FirstTruthy | Backend/server.js:171 | the alias chosen is truthy, and every alias before it is not |
| Ingest.CsvUsernamePriority | Backend/server.js:171-173 | the username is the trimmed value of `username`, else `user`, else `name`, else `nombre`; a row with none of them truthy gives no record |
| Ingest.FirstTruthyAt | Backend/server.js:171 | after a run of falsy aliases, the first truthy one is the alias chosen |
| Ingest.CsvBlankAliasYieldsEmptyUsername | Backend/server.js:171-173 | a whitespace-only chosen alias still gives a record, with an empty username, and hides every lower alias |
| Ingest.CsvBlankUsernameExample | Backend/server.js:171-173 | the row `{username: "  ", name: "Ana"}` gives the record ("", "member") |
| Ingest.CsvRecordRole | Backend/server.js:173 | the role is the `role` cell exactly as written when it is non-empty, and "member" otherwise |
| Ingest.CsvSingleRow | Backend/server.js:169-174 | a file of one row with a trimmed non-empty username and a non-empty role gives exactly that record |
| Ingest.CollectEmpty | Backend/server.js:169-199 | nothing is collected exactly when no row or line yields a record |
| Ingest.CollectAppend | Backend/server.js:169-188 | the records of two consecutive blocks are those of the first, then those of the second |
| Ingest.CollectMembership | Backend/server.js:169-188 | a record is collected exactly when some row or line yields it |
| Ingest.CollectStep | Backend/server.js:169-188 | each row or line pushes its record, if it has one, after the records before it |
| Ingest.CsvRecordsAppend | Backend/server.js:166-174 | the records of consecutive row blocks come out in stream order |
| Ingest.CsvRecordsMembership | Backend/server.js:169-174 | a record is extracted exactly when some row yields it |
| Ingest.CollectCsv | Backend/server.js:169-174 | the `data` callback's pushes leave exactly the records of the rows, in order |
| Ingest.CollectTxt | Backend/server.js:181-188 | the `forEach` pushes leave exactly the records of the file's lines, in order |
| Ingest.TxtRecordsMembership | Backend/server.js:183-188 | a record is extracted exactly when it is a `member` whose username is the non-empty trimmed text of some line |
| Ingest.TxtRecordsAppend | Backend/server.js:183-188 | the records of consecutive line blocks come out in file order |
| Ingest.TxtRecordsEmpty | Backend/server.js:183-188 | a TXT file yields no record exactly when every line trims to "" |
| Ingest.TxtRecordsWellFormed | Backend/server.js:184-186 | every TXT record has role "member" and a non-empty username with no whitespace at either end |
| Ingest.TxtRecordIgnoresTrailingCR | Backend/server.js:182-184 | a line keeps its record whether or not a trailing "\r" is left on it |
| Ingest.ExtractRecords | Backend/server.js:153-199 | the handler up to the insert, with its early returns, decides exactly `Extraction(file)` |
| Ingest.KindIgnoresCase | Backend/server.js:159-179 | any capitalisation of ".csv" or ".txt" is accepted and picks the matching reader |
| Ingest.UpperCaseCsvExample | Backend/server.js:159-164 | "datos.CSV" is read as CSV |
| Ingest.NoExtensionForDotFile | Backend/server.js:159 | a name whose only '.' comes first has no extension |
| Ingest.DotFileIsUnsupported | Backend/server.js:159-192 | a file named just ".csv" is refused as an unsupported format |
| Ingest.MissingFileRejected | Backend/server.js:154-155 | "no file uploaded" is the answer exactly when there is no file |
| Ingest.DispatchRejections | Backend/server.js:164-199 | an unsupported extension is refused; an empty result is refused exactly when the chosen reader yields nothing; a success is never empty |
| Ingest.CsvExtraction | Backend/server.js:164-199 | a CSV file with usable rows is extracted as exactly its row records |
| Ingest.TxtExtraction | Backend/server.js:179-199 | a TXT file with usable lines is extracted as exactly its line records |
| Ingest.TxtRolesQuoteFree | Backend/server.js:186 | no TXT record has a quote in its role |
| Ingest.ExtractionNonEmpty | Backend/server.js:196-199 | a successful extraction always has at least one record |
| SqlValues.Escape | Backend/server.js:206 | `replace(/'/g, "''")`: each quote doubled |
| SqlValues.Unescape | Backend/server.js:203-206 | each `''`, left to right, read back as one quote |
| SqlValues.Tuple | Backend/server.js:206 | ``('${escaped username}', '${role}')`` for one record |
| SqlValues.ValuesText | Backend/server.js:206 | the tuples of the records, in order, joined with "," |
| SqlValues.WrittenInsertQuery | Backend/server.js:206-207 | the bulk insert statement as the handler writes it |
| SqlValues.SafeValuesText | Backend/server.js:206 | the corrected VALUES text, with the role escaped as well |
| SqlValues.InsertQuery | Backend/server.js:206-207 | the corrected bulk insert statement |
| SqlValues.StatementText | Backend/server.js:207 | `INSERT INTO users (username, role) VALUES ${values} RETURNING *` |
| SqlValues.ParseValues | Backend/server.js:212 | how the database reads a VALUES list of `('…', '…')` tuples separated by ",", or None for any other text |
| SqlValues.ExecuteInsert | Backend/server.js:212 | the records `pool.query` inserts for a statement, or None (a 500) when its VALUES list is not a plain tuple list |
| SqlValues.UnescapeEscape | Backend/server.js:206 | replacing each `''` by `'` gives back the original username after escaping |
| SqlValues.EscapeAppend | Backend/server.js:206 | escaping works piece by piece |
| SqlValues.EscapeQuoteFree | Backend/server.js:206 | a quote becomes two quotes; text with no quote is unchanged |
| SqlValues.ValuesTextShape | Backend/server.js:206 | a record's tuple is `('<escaped username>', '<role as is>')`; tuples follow the records in order, with a comma between them |
| SqlValues.ValuesWithAppend | Backend/server.js:206 | the list for `a + b` is the list for `a`, a comma, then the list for `b` |
| SqlValues.LiteralBodyOfEscape | Backend/server.js:206 | an escaped value followed by its closing quote reads back as the value, leaving the rest untouched |
| SqlValues.SafeTupleReadsBack | Backend/server.js:206 | a tuple with both values escaped reads back as its record |
| SqlValues.SafeValuesStep | Backend/server.js:206 | a tuple put in front of a list that reads back keeps the whole list reading back |
| SqlValues.SafeValuesRoundTrip | Backend/server.js:206 | with the role escaped too, the VALUES text reads back as exactly the records |
| SqlValues.ValuesTextSafeWhenRolesQuoteFree | Backend/server.js:206 | when no role holds a quote, the handler's text equals the safely escaped text |
| SqlValues.ValuesTextRoundTrip | Backend/server.js:206-207 | so the handler's statement inserts exactly its records when no role holds a quote |
| SqlValues.TxtValuesRoundTrip | Backend/server.js:186-207 | a TXT upload's statement always inserts exactly its records |
| SqlValues.InjectedTupleText | Backend/server.js:206 | a tuple whose role is `r'),('u2', 'r2` is the text of the tuple for `r`, a comma, and the tuple for (u2, r2) |
| SqlValues.RoleInjection | Backend/server.js:206 | the VALUES text written for the one record (u, `r'),('u2', 'r2`) is identical to the text written for the two records (u, r) and (u2, r2) |
| SqlValues.RoleInjectionInserts | Backend/server.js:206-207 | so the statement as written for that one record inserts the two records |
| SqlValues.RoleInjectionExample | Backend/server.js:206-207 | the record ("a", `x'),('b', 'admin`) makes the written statement insert ("a", "x") and ("b", "admin") |
| UsersApi.IsTruthy | Backend/server.js:62 | the negation of `!username`: a body field that is given and not "" |
| UsersApi.InsertedRole | Backend/server.js:59 | the destructuring default: an absent role becomes "member", a null one stays null, a given one is kept |
| UsersApi.ParseId | Backend/server.js:93-95 | the id test of PATCH and DELETE (also line 120), "no id, or isNaN", as "not an optional sign followed by decimal digits"; otherwise the id |
| UsersApi.Merge | Backend/server.js:100 | `COALESCE($2, username)`, `COALESCE($3, role)` |
| UsersApi.CreateEffect | Backend/server.js:59-75 | POST `/users`: 400 without a truthy username, otherwise the new row under the next serial id |
| UsersApi.PatchEffect | Backend/server.js:90-106 | PATCH `/users/:id`: 400 for a malformed id, null for an unknown one, otherwise the merged row |
| UsersApi.DeleteEffect | Backend/server.js:117-133 | DELETE `/users/:id`: 400 for a malformed id, null for an unknown one, otherwise the removed row |
| UsersApi.NewUsers | Backend/server.js:212-217 | the rows `RETURNING *` gives for inserted records, numbered from the serial value, in order |
| UsersApi.WithUsers | Backend/server.js:212 | the table with those rows stored under their ids |
| UsersApi.CreatedMessage | Backend/server.js:216 | `${r.rowCount} usuarios creados exitosamente.` |
| UsersApi.StatementEffect | Backend/server.js:212-222 | running a bulk insert: the 201 reply with the new rows, or the 500 answer when the statement is not read |
| UsersApi.InsertEffect | Backend/server.js:206-222 | the bulk insert of the extracted records with the corrected statement |
| UsersApi.UploadEffect | Backend/server.js:152-222 | POST `/clientes/upload`: the extraction's 400 answers, otherwise InsertEffect |
| UsersApi.DecimalText | Backend/server.js:93-94 | an id written in decimal is a non-empty string of digits |
| UsersApi.DigitsValueOfDecimal | Backend/server.js:93-94 | the digits written for a number read back as that number |
| UsersApi.IdRoundTrip | Backend/server.js:93-94 | every id written in a URL is accepted and names that id |
| UsersApi.MalformedIds | Backend/server.js:93-94 | "", "abc", "-" and "1a" are rejected; "42" and "-7" are read as 42 and -7 |
| UsersApi.UsersTable.Create | Backend/server.js:55-76 | POST `/users` changes the table exactly as `CreateEffect` says |
| UsersApi.UsersTable.Patch | Backend/server.js:84-107 | PATCH `/users/:id` changes the table exactly as `PatchEffect` says, and keeps the serial counter |
| UsersApi.UsersTable.Delete | Backend/server.js:115-134 | DELETE `/users/:id` changes the table exactly as `DeleteEffect` says, and keeps the serial counter |
| UsersApi.UsersTable.Upload | Backend/server.js:152-222 | the upload changes the table as `UploadEffect` says: rejections first, then the bulk insert with the corrected statement (see Findings) |
| UsersApi.UsersTable.BulkInsert | Backend/server.js:206-218 | the statement, with the role escaped as well (see Findings), is built and run, and its rows are stored and returned, as `InsertEffect` says |
| UsersApi.CreateInsertsOneRow | Backend/server.js:59-75 | 400 with no change exactly when the username is absent, null or ""; otherwise one new row under a fresh id with the username as sent, the role "member" when absent or the sent role, other rows unchanged |
| UsersApi.PatchChangesOnlyThatRow | Backend/server.js:87-106 | a malformed id gets 400 and an unknown id gets null, both with no change; otherwise only that row changes, each field taking the sent value when given and keeping its own otherwise, and the reply is the new row |
| UsersApi.PatchKeepsKeys | Backend/server.js:99-102 | PATCH keeps every row under its own id |
| UsersApi.PatchIdempotent | Backend/server.js:99-106 | sending the same PATCH twice has the effect of sending it once |
| UsersApi.EmptyPatchChangesNothing | Backend/server.js:99-106 | a PATCH with neither field given changes nothing and returns the current row |
| UsersApi.PatchesCompose | Backend/server.js:99-102 | two updates of a row act as one with the later given value of each field |
| UsersApi.DeleteRemovesOnlyThatRow | Backend/server.js:118-133 | a malformed id gets 400 and an unknown id gets null, both with no change; otherwise the row is returned and is the only one removed |
| UsersApi.DeleteTwice | Backend/server.js:126-133 | a second DELETE of the same id gets null and changes nothing |
| UsersApi.CreateThenDelete | Backend/server.js:69-133 | deleting a just-created row by the id in its reply restores the table |
| UsersApi.NewUsersLength | Backend/server.js:212-215 | the insert returns one row per record |
| UsersApi.NewUsersPair | Backend/server.js:212-218 | two records become two rows with consecutive ids, in order |
| UsersApi.NewUsersNumbered | Backend/server.js:212-218 | inserted rows are numbered consecutively in record order and carry the records' fields |
| UsersApi.NewUsersStored | Backend/server.js:212 | storing them adds exactly the new ids, keeps every earlier row and keeps the table well keyed |
| UsersApi.RejectedUploadChangesNothing | Backend/server.js:154-199 | a rejected upload gets 400 with its message and inserts nothing |
| UsersApi.InsertStoresRecords | Backend/server.js:206-218 | with the corrected statement (see Findings), a bulk insert of a non-empty list stores exactly those records, in order, under fresh consecutive ids, and reports their count |
| UsersApi.AcceptedUploadStoresRecords | Backend/server.js:152-218 | with the corrected statement (see Findings), every accepted upload stores exactly the records extracted from its file |
| UsersApi.WrittenInsertAgrees | Backend/server.js:206-218 | when no role holds a quote, the statement as written has the same effect as the corrected one |
| UsersApi.TxtUploadAsWrittenAgrees | Backend/server.js:179-218 | for a TXT upload the statement as written has exactly the corrected upload's effect |
| UsersApi.InsertRoleInjection | Backend/server.js:206-218 | for the record (u, `r'),('u2', 'r2`) the statement as written creates the two users (u, r) and (u2, r2); the corrected one creates the single user with the whole role text |
| UsersApi.UploadRoleInjection | Backend/server.js:164-218 | a one-row file "datos.CSV" with that role yields one record; as written the upload creates two users, corrected it creates one |
| Frontend.RoleColor | Frontend/app.js:79-87 | `getRoleColor`: red, yellow and green for admin, editor and member, grey otherwise |
| Frontend.KnownRoleColors | Frontend/app.js:81-84 | admin is #dc3545, editor is #ffc107, member is #28a745, and these three differ |
| Frontend.OtherRolesGrey | Frontend/app.js:85 | #6c757d is given exactly to every other role value, null included |
| Frontend.CreateDecision | Frontend/app.js:18-23 | `createUser`: the alert when the trimmed name is empty, otherwise POST with the trimmed name and selected role |
| Frontend.CreateSendsTrimmedName | Frontend/app.js:18-28 | the form sends exactly when the input is not all whitespace; it sends the trimmed input and the selected role, otherwise it shows the alert |
| Frontend.ServerAcceptsSentCreate | Frontend/app.js:25-28 | every create the form sends is accepted by the server and stored as sent |
| Frontend.EditDecision | Frontend/app.js:93-111 | an edit that is sent carries the role answered, and that role is one of member, admin and editor |
| Frontend.EditCancelledPrompt | Frontend/app.js:93-102 | a cancelled name prompt, or a cancelled role prompt after a valid name, sends nothing |
| Frontend.EditSendsOnlyValid | Frontend/app.js:93-111 | an edit is sent exactly when neither prompt is cancelled, the name is not blank and the role is member, admin or editor; it sends the trimmed name and that role |
| Frontend.AcceptedRolesColoured | Frontend/app.js:79-87 | each role the edit form accepts has a colour of its own, never the grey one |
| Frontend.SentRoleIsColoured | Frontend/app.js:100-106 | every role an edit sends gets its own colour, never the grey one |
| Frontend.ServerAppliesSentEdit | Frontend/app.js:108-111 | a sent edit replaces both fields of the row it names and no other row |
| Frontend.RoleLabel | Frontend/app.js:66 | `${user.role}` in the badge: the role text, and "null" for a null role |
| Frontend.RowOf | Frontend/app.js:62-73 | one user's row: its id, username, `getRoleColor` colour and role label |
| Frontend.RowsOf | Frontend/app.js:60-74 | `users.map(...)`: one view row per user, in order |
| Frontend.Render | Frontend/app.js:54-74 | `renderUsers`: the placeholder with colspan 5 for no users, otherwise RowsOf |
| Frontend.RowsOfFollowUsers | Frontend/app.js:60-74 | one row per user, in order, with that user's id, name, colour and role |
| Frontend.RenderOneRowPerUser | Frontend/app.js:54-74 | the placeholder (colspan 5) is shown exactly when the list is empty; otherwise one row per user, in order |
| Frontend.RowsOfAppend | Frontend/app.js:60-74 | the rows for two lists are the rows of the first followed by the rows of the second |

## Left out

- I/O is not modelled:
  - the `pg` pool and real SQL execution;
  - `multer`, `fs` (`existsSync`, `mkdirSync`, `readFileSync`, `unlinkSync`) and the temp-file cleanup in `finally`;
  - `app.listen`, `cors`, `express.json` and logging.

  The uploaded file is a parameter carrying its original name, its text and its CSV rows.
- `csv-parser` internals (header parsing, quoting) are not modelled. Each CSV row is given as a `map<string, string>`.
- `GET /clientes` and `GET /health` are not modelled. They read the database or the clock and decide nothing.
- Database failures are not modelled: the 500 answers of the CRUD handlers and, for the upload, any failure other than a VALUES text it cannot read.
- `created_at` and its `toLocaleDateString` formatting are not modelled, since they are clock- and locale-dependent.
- Browser behaviour is not modelled: `loadUsers`, `deleteUser`'s `confirm`, `uploadUsersFile`, `fetch`, `alert`/`prompt`, clearing the inputs, and the HTML text of rows and buttons. Prompt answers are parameters (None for a cancelled prompt).
- JSON body fields that are not strings (numbers, booleans, objects) are not modelled.
- The database schema is not part of the source. The model assumes plain columns with no uniqueness constraint and no column default. Ids come from a serial counter that a failed statement does not advance.
- UsersApi.ParseId: approximates `!userId || isNaN(userId)` as "not an optional sign followed by decimal digits". JavaScript also accepts `" 5 "`, `"1e3"`, `"0x10"` and `"1.5"`. PostgreSQL reads `" 5 "` as 5, so the route acts on row 5 where the model answers 400; `"1e3"` and `"1.5"` get a 500.
- UsersApi.ParseId: does not model 32-bit `int4` overflow of ids.
- JsText.ToLower: lower-cases ASCII letters only. This is exact for comparing an extension with ".csv" and ".txt": no other character lower-cases to one of their letters.
- SqlValues.ExecuteInsert: reads only statements whose VALUES list is a plain list of `('…', '…')` tuples, and treats any other text as the 500 answer. A role can instead inject other SQL. `pool.query` without parameters may run several statements, which the model does not capture.
- The upload route is `/clientes/upload`, but it inserts into table `users`. `GET /clientes` reads table `clientes`, which the model does not have. The page sends `GET /users` (Frontend/app.js:44) and `POST /users/upload` (Frontend/app.js:137), and Backend/server.js defines neither route, so the page's list and upload never reach the handlers modelled here.
- Backend/server.js and Frontend/app.js contain no code for invoice or transaction imports, status/type mapping, deduplication or a normalize-to-file endpoint, so the model has nothing for them.

## Findings

| source | as written | input that shows it | evidently intended | confidence | as-written member | corrected member |
|---|---|---|---|---|---|---|
| Backend/server.js:206 | the role is written into the VALUES text unescaped: `'${user.role}'` | a CSV file "datos.CSV" with one row, `username` = `a`, `role` = `x'),('b', 'admin` | the role escaped like the username, so that each record gives exactly one tuple | high (not executed) | SqlValues.RoleInjection | SqlValues.SafeValuesRoundTrip |

`SqlValues.ValuesText` and `SqlValues.WrittenInsertQuery` model the statement as written. `SqlValues.RoleInjection` shows the discrepancy for any quote-free u, r, u2 and r2: the one record (u, `r'),('u2', 'r2`) gets the very VALUES text of the two records (u, r) and (u2, r2), and `SqlValues.RoleInjectionInserts` shows that this text reads back as those two records. `UsersApi.UploadRoleInjection` carries this through the handler: the one-row CSV file yields a single record, yet the statement as written creates two users, the second with any role chosen, for instance "admin".

`SqlValues.SafeValuesText` and `SqlValues.InsertQuery` are the corrected builder, which escapes both values. `SqlValues.SafeValuesRoundTrip` proves that its text reads back as exactly the records, for every non-empty list. The handler model (`UsersApi.UsersTable.BulkInsert`, `UsersApi.InsertEffect`) sends this corrected statement, and `UsersApi.AcceptedUploadStoresRecords` proves that every accepted upload then stores exactly its extracted records.

`UsersApi.WrittenInsertAgrees` proves that the written and the corrected statement have the same effect whenever no role holds a quote. This always holds for TXT uploads, whose roles are all "member" (`UsersApi.TxtUploadAsWrittenAgrees`).
