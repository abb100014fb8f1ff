# hospo-ops in Dafny

hospo-ops is a small ASP.NET Core API for running hospitality venues. It manages:

- the **stores** of a business;
- the **employees** of each store;
- each store's **end-of-day (EOD) reports**;
- the raw **Square webhook** calls it receives.

The data lives in one SQLite database. Requests pass API-key checks and get a correlation id. Request bodies are checked by FluentValidation validators.

This project models that core and proves its contracts. The parts, by file:

- `data.dfy`: the database, as the class `Data.AppDb`.
  - The four tables are sequences of rows kept in id order. Each table has its own AUTOINCREMENT counter.
  - `Valid()` collects what the schema guarantees:
    - ids are allocated and increasing;
    - the unique `(StoreId, FullName)` and `(StoreId, BizDate)` indexes hold;
    - every employee and report belongs to an existing store;
    - store names are distinct, as the controllers keep them.
  - Each insert, rename, replace and delete method keeps `Valid()`. Each states the table's new contents.
  - Deleting a store cascades to its EOD reports and its employees.
- `stores.dfy`, `employees.dfy`, `eod.dfy` and `webhook.dfy`: the controllers.
  - Each read-only endpoint is a function of the database.
  - Each writing endpoint is a method on `AppDb`. Its `ensures` gives the answer the source picks, in the order the source checks, and the table afterwards.
- `http.dfy`: the part of ASP.NET Core they touch.
  - Action results.
  - Case-insensitive header dictionaries.
  - The per-request `HttpContext`, with its `Items`, its `OnStarting` callbacks and the response-started flag.
  - What the rest of the pipeline can do, written as a sequence of `Step`s.
- `apikey_auth.dfy` and `dev_apikey.dfy`: the two API-key middlewares. Each is a decision function plus a class whose `Invoke` carries it out.
- `correlation.dfy`:
  - a concrete model of the GUID text form, with its round trips;
  - the correlation-id middleware, with the proof that every response goes out with a non-blank id.
- `validators.dfy`: the six validators, each a function from a record to its per-property error lists. It rests on:
  - `dates.dfy`, the exact `yyyy-MM-dd` calendar-date parse and its round trip;
  - `decimals.dfy`, FluentValidation's `PrecisionScale(18, 2, true)` on decimals held as (unscaled, scale) pairs.

Some inputs are parameters, because the model does not define them:

- HMAC-SHA256, Base64 and UTF-8 encoding (`SquareWebhook.Crypto`).
- `Guid.TryParse` (`CorrelationId.GuidParser`) and `Guid.NewGuid()` (the `minted` argument).
- The culture-dependent `DateOnly.TryParse` (`Models.CultureDateParser`).
- `DateTime.UtcNow` (the `now` argument).
- The configuration values.

Where the design's description and the code differ, the model follows the code:

- Store names are meant to be unique, but no index enforces it. Only the checks in `Create` and `Update` keep them distinct, and `Data.StoreNamesUnique` records that.
- An EOD lookup that finds nothing answers 200 with a message, never 404.
- The EOD route reads its date with the culture's `DateOnly.TryParse`, not with the exact `yyyy-MM-dd` parse.
- The three row validators (`EodReportValidator`, `EmployeeValidator`, `StoreValidator`) are registered, but no endpoint takes a row as its body. Automatic validation therefore never runs them. `EodReportDtoValidator` runs only for `POST /api/test-validation`.

## Model

| member | source | states |
|---|---|---|
| Data.StoreIndex | api/Controllers/StoresController.cs:21 | `FindAsync(id)` on Stores: finds an index holding that id exactly when a store with that id exists |
| Data.EmployeeIndex | api/Controllers/EmployeesController.cs:46 | `FindAsync(id)` on Employees: finds an index holding that id, or none when no row has it |
| Data.EmployeesNotOf | api/Models/Employees/Employee.cs:12-13 | the employees surviving a store's deletion are exactly those of other stores (the required relationship cascades) |
| Data.EodReportsNotOf | api/Migrations/20250828140709_InitialCreateSqlite.cs:60-65 | the reports surviving a store's deletion are exactly those of other stores (ON DELETE CASCADE) |
| Data.EmployeesNotOfKeys | api/Models/Employees/Employee.cs:6 | the cascade keeps the unique (StoreId, FullName) index |
| Data.EodReportsNotOfKeys | api/Data/AppDbContext.cs:19 | the cascade keeps the unique (StoreId, BizDate) index |
| Data.CascadeKeepsForeignKeys | api/Migrations/20250828140709_InitialCreateSqlite.cs:60-65 | after the cascade every remaining employee and report still has its store |
| Data.AppDb.constructor | api/Migrations/20250828140709_InitialCreateSqlite.cs:14-72 | the freshly migrated database is empty, valid, and every counter starts at 1 |
| Data.AppDb.InsertStore | api/Controllers/StoresController.cs:33-35 | appends one store under the next id, which no store had, and keeps the invariant |
| Data.AppDb.RenameStore | api/Controllers/StoresController.cs:50-51 | only that row's name changes, its id is kept, and the invariant holds |
| Data.AppDb.DeleteStore | api/Migrations/20250828140709_InitialCreateSqlite.cs:60-65 | removes the store row and cascades to its employees and reports, keeping the invariant |
| Data.AppDb.InsertEmployee | api/Controllers/EmployeesController.cs:83-84 | appends one employee under a fresh id, keeping the unique key and foreign key |
| Data.AppDb.ReplaceEmployee | api/Controllers/EmployeesController.cs:116-122 | replaces the row's fields but keeps its id; no other row changes |
| Data.AppDb.DeleteEmployee | api/Controllers/EmployeesController.cs:133-134 | removes exactly the row at that index, keeping the invariant |
| Data.AppDb.AppendSquareEvent | api/Controllers/SquareWebhookController.cs:44-45 | appends the event under the next id and changes no other table |
| StoresController.List | api/Controllers/StoresController.cs:15-16 | answers 200 with every store and no other, in increasing id order |
| StoresController.Get | api/Controllers/StoresController.cs:19-23 | 200 exactly when a store has the id, and then that store; otherwise 404 |
| StoresController.GetFindsTheStore | api/Controllers/StoresController.cs:19-23 | every stored store is what Get answers for its id |
| StoresController.OwnNameIsFree | api/Controllers/StoresController.cs:47-48 | keeping a store's own name is never a clash with another store |
| StoresController.Create | api/Controllers/StoresController.cs:26-37 | validation problem iff invalid, 409 iff valid and the name exists (table unchanged), else exactly one new store with a fresh id that Get then finds |
| StoresController.Update | api/Controllers/StoresController.cs:40-53 | validation problem, then 404 for an unknown id, then 409 iff another store has the name; on success only that store's name changes |
| StoresController.Delete | api/Controllers/StoresController.cs:56-64 | 404 iff unknown, nothing changes; else exactly that store goes, with its employees and reports, and Get answers 404 |
| StoresController.RemovedStoreIsGone | api/Controllers/StoresController.cs:58-59 | removing the row removes exactly the store with that id |
| EmployeesController.Filter | api/Controllers/EmployeesController.cs:27-30 | keeps exactly the rows matching every given filter, each as many times as the table holds it (a multiset statement), so the total is the number of matching rows |
| EmployeesController.Matches | api/Controllers/EmployeesController.cs:27-30 | a row matches when it has the store asked for, the active flag asked for, and contains the name asked for ordinally; a filter not given, or a blank name, does not constrain |
| EmployeesController.BlankNameFiltersNothing | api/Controllers/EmployeesController.cs:29-30 | with no store or active filter, a blank name filter leaves the table as it is |
| EmployeesController.Insert | api/Controllers/EmployeesController.cs:34 | insertion adds exactly the one row (as a multiset) |
| EmployeesController.InsertSorted | api/Controllers/EmployeesController.cs:34 | insertion into a name-ordered list keeps it ordered |
| EmployeesController.SortByName | api/Controllers/EmployeesController.cs:34 | `OrderBy(FullName)`: ordered by full name ordinally, and a permutation of its input |
| EmployeesController.Window | api/Controllers/EmployeesController.cs:35-36 | `Skip(o).Take(n)`: the rows from max(o, 0) on, at most n of them, and as many as remain |
| EmployeesController.Offset | api/Controllers/EmployeesController.cs:35 | the true offset: a multiple of pageSize, exactly page - 1 pages of rows, never negative for positive page and size |
| EmployeesController.OffsetAsWritten | api/Controllers/EmployeesController.cs:35 | the offset the source computes in 32-bit `int`: the true offset up to a multiple of 2^32 |
| EmployeesController.Wrap32 | api/Controllers/EmployeesController.cs:35 | C#'s unchecked int result: congruent to the true value modulo 2^32, equal to it when it fits |
| EmployeesController.OffsetAsWrittenAgrees | api/Controllers/EmployeesController.cs:35 | while (page-1)*pageSize fits in an int, the 32-bit offset is the true one |
| EmployeesController.OffsetAsWrittenWraps | api/Controllers/EmployeesController.cs:35 | page 85899347 of size 50 means offset 4294967300 but computes offset 4 |
| EmployeesController.PastTheEndIsEmpty | api/Controllers/EmployeesController.cs:33-37 | with the true offset, a page past the end of the filtered rows is empty |
| EmployeesController.EveryRowOnItsPage | api/Controllers/EmployeesController.cs:33-37 | row i of the ordered rows is entry i mod pageSize of page i div pageSize + 1 |
| EmployeesController.List | api/Controllers/EmployeesController.cs:16-40 | 400 iff page or pageSize is not positive; else total is the number of matching rows, page and pageSize are echoed, and items are the name-ordered matching rows windowed at the page's offset, at most pageSize of them |
| EmployeesController.GetById | api/Controllers/EmployeesController.cs:44-48 | 404 iff no row has the id; otherwise a row with that id |
| EmployeesController.EmployeeIdsDistinct | api/Controllers/EmployeesController.cs:46 | in a valid table an id names one row |
| EmployeesController.GetByIdFindsTheRow | api/Controllers/EmployeesController.cs:44-48 | every stored employee is what GetById answers for its id |
| EmployeesController.OwnKeyIsFree | api/Controllers/EmployeesController.cs:112-113 | an employee's own (StoreId, FullName) is never taken by another row |
| EmployeesController.HireDateRecheckPasses | api/Controllers/EmployeesController.cs:62-69 | once the body has passed validation, the controller's HireDate reading cannot fail |
| EmployeesController.EmployeeFrom | api/Controllers/EmployeesController.cs:74-81 | the row takes every field from the body; a blank HireDate becomes none |
| EmployeesController.CreateAnswer | api/Controllers/EmployeesController.cs:54-85 | exactly one of: validation problem iff the body is invalid or its store is unknown (the validator's errors first, else "Store not found." on StoreId); 409 "Employee already exists in this store." iff valid, the store exists and the (StoreId, FullName) key is taken; else Created under the next id with the row built from the body |
| EmployeesController.Create | api/Controllers/EmployeesController.cs:52-86 | answers, in the source's order: validation problem, unknown store (400 on StoreId), duplicate key (409), else one appended row under a fresh id that GetById finds; the table is unchanged unless created |
| EmployeesController.ResaveIsNotConflict | api/Controllers/EmployeesController.cs:112-114 | re-saving a row under its own store and name never gets 409 |
| EmployeesController.UpdateAnswer | api/Controllers/EmployeesController.cs:92-123 | exactly one of: validation problem iff the body is invalid, or the row exists and its new store does not; 404 iff valid and no row has the id; 409 "Another employee with same name exists in this store." iff another row has the key; else 200 with the row rebuilt from the body under the same id |
| EmployeesController.Update | api/Controllers/EmployeesController.cs:90-124 | validation problem, then 404, then unknown store, then 409 for another row's key; on success only that row changes, keeps its id, and GetById gives the new row |
| EmployeesController.Delete | api/Controllers/EmployeesController.cs:128-136 | 404 iff no row has the id, table unchanged; else exactly that row goes and GetById answers 404 |
| EmployeesController.RemovedRowIsGone | api/Controllers/EmployeesController.cs:133-134 | removing the row removes exactly the employee with its id |
| EodController.FirstReport | api/Controllers/EodController.cs:16-17 | the first report with the store and date, or none exactly when no report has them |
| EodController.FirstIsOnly | api/Data/AppDbContext.cs:19 | under the unique (StoreId, BizDate) index, the matching report is the only one |
| EodController.Get | api/Controllers/EodController.cs:12-22 | 400 "invalid date" iff the date does not parse; else 200 with a stored report for that store and date, or 200 "no eod yet" when none matches |
| EodController.FindsStoredReport | api/Controllers/EodController.cs:16-21 | a stored report is what the endpoint answers for its store and date |
| EodController.FindsReportByIsoDate | api/Controllers/EodController.cs:14-21 | with the invariant culture, the report's date written as yyyy-MM-dd finds it |
| SquareWebhook.Secret | api/Controllers/SquareWebhookController.cs:22 | a missing signing key counts as the empty key |
| SquareWebhook.FirstOr | api/Controllers/SquareWebhookController.cs:23 | a header's first value, or the fallback when it is absent or empty |
| SquareWebhook.Computed | api/Controllers/SquareWebhookController.cs:25-31 | Base64 of the HMAC-SHA256 of the UTF-8 body keyed by the secret, or empty without a secret |
| SquareWebhook.SignatureValidIff | api/Controllers/SquareWebhookController.cs:33 | valid iff there is no secret or the signature is exactly the computed one |
| SquareWebhook.AuditRecord | api/Controllers/SquareWebhookController.cs:35-43 | the audit row: store 1, the event type or "unknown", the signature or "", the body verbatim, the time, processed iff valid |
| SquareWebhook.Post | api/Controllers/SquareWebhookController.cs:17-55 | appends exactly one audit row whatever the outcome, then answers 401 iff the signature is not valid and 200 `{ ok = true }` otherwise |
| SquareWebhook.UnsignedCallNeedsEmptyDigest | api/Controllers/SquareWebhookController.cs:23-33 | with a secret, an unsigned call is accepted only if the computed signature is empty |
| Http.FoldIff | api/Infra/ApiKeyAuthMiddleware.cs:49 | two header names reach the same entry iff they are equal ignoring case |
| Http.SetHeader | api/Infra/CorrelationIdMiddleware.cs:39 | the header then holds just that value; every other header is unchanged |
| Http.RemoveHeader | api/Infra/CorrelationIdMiddleware.cs:48 | the header is then absent; every other header is unchanged |
| Http.RunHooksKeeps | api/Infra/CorrelationIdMiddleware.cs:38-39 | OnStarting callbacks never replace a header already present |
| Http.RunHooksSets | api/Infra/CorrelationIdMiddleware.cs:36-41 | after the callbacks run, every header one of them names is present |
| Http.HttpContext.RunNext | api/Infra/CorrelationIdMiddleware.cs:45 | `await _next(ctx)`: the context ends in the state the pipeline's steps produce |
| Http.HttpContext.Start | api/Infra/CorrelationIdMiddleware.cs:36-41 | starting the response runs the OnStarting callbacks, the last registered first |
| Text.JoinValues | api/Infra/ApiKeyAuthMiddleware.cs:55 | `StringValues.ToString()`: one value is itself, even when empty; the result is empty iff every value is |
| Text.OneNonEmptyValue | api/Infra/ApiKeyAuthMiddleware.cs:55 | among several values, when only one is non-empty the join is that one: empty entries are skipped |
| Text.NoEmptyValueJoinsAll | api/Infra/ApiKeyAuthMiddleware.cs:55 | with no empty value, the join is every value with commas between |
| Text.Utf16Length | api/Validators/StoreDtoValidator.cs:12 | `string.Length` in UTF-16 code units: between the number of characters and twice it, equal to it when every character is in the Basic Multilingual Plane, twice it when none is |
| ApiKeyAuth.Decide | api/Infra/ApiKeyAuthMiddleware.cs:31-63 | passes iff the path is anonymous or a key is configured and the header's value equals it ordinally; 403 iff not anonymous, a key is configured, and the header is present but wrong; every other rejection is 401 |
| ApiKeyAuth.IsAnonymous | api/Infra/ApiKeyAuthMiddleware.cs:34 | the path starts with one of the anonymous paths as whole segments, ignoring case; `AnonymousIsTwoSegments` reduces it to two segments |
| ApiKeyAuth.FailsClosed | api/Infra/ApiKeyAuthMiddleware.cs:40-46 | with no key configured, every request outside the anonymous paths gets 401 |
| ApiKeyAuth.AnonymousAlwaysPasses | api/Infra/ApiKeyAuthMiddleware.cs:34-38 | anonymous paths pass whatever the configuration and headers |
| ApiKeyAuth.AnonymousIsTwoSegments | api/Infra/ApiKeyAuthMiddleware.cs:19-22 | the four anonymous paths amount to the `/health` and `/swagger` segments |
| ApiKeyAuth.SegmentExamples | api/Infra/ApiKeyAuthMiddleware.cs:34 | `/healthz` is not anonymous; `/health/ready` and `/HEALTH` are |
| ApiKeyAuth.ApiPathNotAnonymous | api/Infra/ApiKeyAuthMiddleware.cs:34 | `/api/stores` is not anonymous |
| ApiKeyAuth.KeyIsCaseSensitive | api/Infra/ApiKeyAuthMiddleware.cs:55-60 | a key differing only in case gets 403 |
| ApiKeyAuth.EmptyLineBesideKeyPasses | api/Infra/ApiKeyAuthMiddleware.cs:55-60 | an empty header line beside the right key is skipped in the join, so the request passes |
| ApiKeyAuth.ApiKeyAuthMiddleware.constructor | api/Infra/ApiKeyAuthMiddleware.cs:24-29 | the middleware keeps the configured key |
| ApiKeyAuth.ApiKeyAuthMiddleware.Invoke | api/Infra/ApiKeyAuthMiddleware.cs:31-63 | calls next iff the decision passes, leaving the status untouched; otherwise writes the decided 401 or 403 |
| DevApiKey.ExpectedKey | api/Middleware/DevApiKeyMiddleware.cs:16-21 | a key is expected iff in Development with one configured, and it is that key |
| DevApiKey.Decide | api/Middleware/DevApiKeyMiddleware.cs:23-48 | passes iff no key is expected, the path is allow-listed, or the header is present, not blank, and ordinally equal to the key; every failure is 401 |
| DevApiKey.IsAllowListed | api/Middleware/DevApiKeyMiddleware.cs:32 | the path starts with one of the allow-listed prefixes, ignoring case; `AllowListIsTwoPrefixes` reduces it to two prefixes |
| DevApiKey.OpenWithoutKey | api/Middleware/DevApiKeyMiddleware.cs:25-29 | outside Development, or with no key configured, every request passes |
| DevApiKey.BlankKeyRejectsAll | api/Middleware/DevApiKeyMiddleware.cs:38-40 | a blank configured key admits nothing outside the allow list |
| DevApiKey.AllowListIsTwoPrefixes | api/Middleware/DevApiKeyMiddleware.cs:9-14 | the allow list amounts to the `/health` and `/swagger` prefixes, ignoring case |
| DevApiKey.PrefixExamples | api/Middleware/DevApiKeyMiddleware.cs:32 | plain prefixes: `/healthz` and `/SWAGGERx` pass |
| DevApiKey.EmptyLineBesideKeyPasses | api/Middleware/DevApiKeyMiddleware.cs:38-40 | an empty header line beside the right key is skipped in the join, so the request passes |
| DevApiKey.DevApiKeyMiddleware.constructor | api/Middleware/DevApiKeyMiddleware.cs:16-21 | the expected key is the configured one in Development and none otherwise |
| DevApiKey.DevApiKeyMiddleware.Invoke | api/Middleware/DevApiKeyMiddleware.cs:23-48 | calls next iff the decision passes, changing nothing; otherwise 401 with the JSON error "Missing or invalid X-Api-Key" |
| Guids.Format | api/Infra/CorrelationIdMiddleware.cs:28 | `Guid.ToString()`: 36 characters, hyphens at 8, 13, 18, 23, lower-case hexadecimal digits elsewhere |
| Guids.ParseHyphenated | api/Infra/CorrelationIdMiddleware.cs:27 | reads a GUID exactly from the hyphenated form, digits in either case |
| Guids.FormatParse | api/Infra/CorrelationIdMiddleware.cs:27-28 | reading back a formatted GUID gives the GUID |
| Guids.ParseFormat | api/Infra/CorrelationIdMiddleware.cs:27-28 | a GUID that was read is written back as the text that was read, up to letter case |
| Guids.FormatInjective | api/Infra/CorrelationIdMiddleware.cs:28 | distinct GUIDs are written differently |
| Guids.FormatNotBlank | api/Infra/CorrelationIdMiddleware.cs:28 | a formatted GUID is never blank |
| CorrelationId.ChooseId | api/Infra/CorrelationIdMiddleware.cs:24-30 | the incoming GUID in canonical form when the header reads as one, otherwise the new GUID; never blank, 36 characters |
| CorrelationId.EchoesCanonicalId | api.tests/CorrelationIdTests.cs:23-32 | a request sending an id in canonical form gets that same id |
| CorrelationId.EchoesUpToCase | api/Infra/CorrelationIdMiddleware.cs:26-28 | a hyphenated id in any case comes back as itself up to case |
| CorrelationId.MintsForMalformed | api/Infra/CorrelationIdMiddleware.cs:30 | a header that does not read as a GUID is replaced by the new one |
| CorrelationId.EchoesIdBesideEmptyLine | api/Infra/CorrelationIdMiddleware.cs:24-28 | an empty header line beside a canonical id is skipped, and the id is echoed |
| CorrelationId.Restore | api/Infra/CorrelationIdMiddleware.cs:47-53 | a header still present, or a response already started, is left exactly as it is; otherwise a non-blank string id in Items becomes the header's only value |
| CorrelationId.StartedResponseHasHeader | api/Infra/CorrelationIdMiddleware.cs:36-53 | with the callback registered, a started response always carries the header, so the fallback is never needed after the start |
| CorrelationId.Invoke | api/Infra/CorrelationIdMiddleware.cs:20-55 | returns the chosen id, stores it in Items, registers the set-if-absent callback after the earlier ones, runs next, then applies the fallback from Items; a response that was not started on entry and has started carries the header |
| CorrelationId.RunHooksKeepsNoBlankId | api/Infra/CorrelationIdMiddleware.cs:36-41 | callbacks that write no blank id leave no blank id |
| CorrelationId.RunKeepsIdInvariant | api/Infra/CorrelationIdMiddleware.cs:36-45 | whatever the rest of the pipeline does, short of writing a blank id, no blank id appears, and once the response starts it has an id |
| CorrelationId.EveryResponseCarriesId | api.tests/CorrelationIdTests.cs:13-20 | the response that goes out always carries a non-blank X-Correlation-Id |
| CorrelationId.RunKeepsOnlyId | api/Infra/CorrelationIdMiddleware.cs:36-41 | when nothing touches the header or the Items entry, the header is absent until the start and then holds exactly the id |
| CorrelationId.ResponseCarriesChosenId | api/Infra/CorrelationIdMiddleware.cs:33-53 | when nothing touches the header or the Items entry, the response carries exactly the chosen id |
| CorrelationId.Handle | api/Infra/CorrelationIdMiddleware.cs:20-55 | the middleware followed by the server starting the response: started, and carrying a non-blank id |
| Dates.DaysInMonth | api/Validators/EodReportDtoValidator.cs:17 | 28 to 31 days, and 29 exactly in February of a Gregorian leap year |
| Dates.ParseFormat | api/Validators/EodReportDtoValidator.cs:17 | every date written as yyyy-MM-dd parses back to itself |
| Dates.FormatParse | api/Validators/EodReportDtoValidator.cs:17 | every accepted text is the yyyy-MM-dd writing of the date it parses to |
| Dates.ParseExactIff | api/Validators/EodReportDtoValidator.cs:17 | a text parses to a date iff it is that date written as yyyy-MM-dd |
| Dates.LeapDayAccepted | api/Validators/EodReportDtoValidator.cs:17 | `2024-02-29` and `2000-02-29` are accepted |
| Dates.NonexistentDaysRejected | api/Validators/EodReportDtoValidator.cs:17 | `2025-02-29`, `1900-02-29` and `2025-04-31` are rejected |
| Dates.MalformedRejected | api/Validators/EodReportDtoValidator.cs:17 | `2025/01/01`, `2025-1-01` and year 0 are rejected |
| Decimals.FitsPrecisionScaleIff | api/Validators/EodReportDtoValidator.cs:22 | a decimal fits (18, 2) iff, trailing zeros dropped, it has at most 2 fraction digits and at most 16 integer digits |
| Decimals.TwoFractionDigitsFit | api/Validators/EodReportDtoValidator.cs:22 | 123.45 fits |
| Decimals.TrailingZerosIgnored | api/Validators/EodReportDtoValidator.cs:22 | 1.2300 fits, since trailing zeros are ignored |
| Decimals.ThreeFractionDigitsRejected | api/Validators/EodReportDtoValidator.cs:22 | 0.001 does not fit |
| Decimals.IntegerDigitsLimit | api/Validators/EodReportDtoValidator.cs:22 | 10^16 does not fit; 10^16 - 1 does |
| FluentRules.Record | api/Validators/EodReportDtoValidator.cs:11-26 | a property appears in the errors iff its chain produced messages, with exactly those; other properties are untouched |
| EodReportDtoValidator.Validate | api/Validators/EodReportDtoValidator.cs:11-26 | each property fails iff its rule does: StoreId <= 0, BizDate not an exact yyyy-MM-dd date (with an extra NotEmpty message when blank), NetSales negative or not fitting (18, 2), Tickets negative; each with its stated message |
| EodReportDtoValidator.BlankIsNotDate | api/Validators/EodReportDtoValidator.cs:15-18 | a blank BizDate fails both of its rules |
| EodReportDtoValidator.FieldsIndependent | api/Validators/EodReportDtoValidator.cs:11-26 | a property's messages depend on that property alone |
| EodReportDtoValidator.AcceptsWellFormed | api/Validators/EodReportDtoValidator.cs:11-26 | a well-formed body is accepted |
| EodReportDtoValidator.RejectsNegativeNetSales | api/Validators/EodReportDtoValidator.cs:20-21 | for every body with a good StoreId, BizDate and Tickets and a negative NetSales of at most two decimals: NetSales is the only failing property, with exactly "NetSales cannot be negative." |
| EodReportDtoValidator.RejectsThreeDecimals | api/Validators/EodReportDtoValidator.cs:22 | three significant decimals fail the precision rule alone |
| EodReportValidator.Validate | api/Validators/EodReportValidator.cs:9-11 | fails on StoreId <= 0, negative NetSales, and a default BizDate (twice); nothing else |
| EmployeeDtoValidator.Validate | api/Validators/EmployeeDtoValidator.cs:10-19 | fails on StoreId <= 0, a blank FullName or one over 100 UTF-16 units, a Role over 50 UTF-16 units, and a non-blank HireDate the culture cannot read, with "HireDate must be yyyy-MM-dd." |
| EmployeeDtoValidator.AcceptedFitsColumns | api/Models/Employees/Employee.cs:15-19 | an accepted body fits the MaxLength(100) and MaxLength(50) columns, counted in UTF-16 units, with a non-empty FullName |
| EmployeeValidator.Validate | api/Validators/EmployeeValidator.cs:9-13 | fails on StoreId <= 0, a blank FullName or one under 2 UTF-16 units, and a blank Role; HireDate never fails |
| StoreDtoValidator.Validate | api/Validators/StoreDtoValidator.cs:10-12 | accepts exactly the non-blank names of at most 100 UTF-16 units, one message per failing rule |
| StoreDtoValidator.AstralNameTooLong | api/Validators/StoreDtoValidator.cs:12 | 51 characters beyond U+FFFF are 102 UTF-16 units, over MaximumLength(100) |
| StoreValidator.Validate | api/Validators/StoreValidator.cs:9 | accepts exactly the non-blank names of at least 2 UTF-16 units, with no upper bound |
| StoreValidator.AstralCharLongEnough | api/Validators/StoreValidator.cs:9 | one character beyond U+FFFF is two UTF-16 units and meets MinimumLength(2) |
| ValidatorComparison.EmptyRoleOnlyRejectedOnRow | api/Validators/EmployeeValidator.cs:11 | an empty Role passes the body's validator and fails the row's |
| ValidatorComparison.OneLetterNameOnlyRejectedOnRow | api/Validators/StoreValidator.cs:9 | a one-letter store name passes the body's validator and fails the row's |
| ValidatorComparison.NegativeTicketsOnlyRejectedOnBody | api/Validators/EodReportDtoValidator.cs:24-26 | for any body with negative Tickets and any row with the same Tickets and otherwise good fields: the body fails on "Tickets", the row passes, since the row validator has no Tickets rule |

## Left out

- Entity Framework Core, async I/O and `SaveChangesAsync`: each endpoint is one atomic step on the in-memory tables. A race between two requests' duplicate checks is concurrency and is not modelled.
- The Employees table itself: the migration and `AppDbContext` declare no Employees table. Its shape and unique index come from `Employee.cs`. Its cascade on store deletion follows EF Core's convention for a required relationship.
- `Program.cs` wiring: database provider choice, Serilog, Swagger, controller registration. It also registers none of the three middlewares, so the pipeline order is unknown. Each middleware is modelled on its own, and the rest of the pipeline is a parameter.
- Rate limiting, CORS and security headers: the policy the controllers name is not defined in the code.
- `GlobalExceptionMiddleware`, `HealthController` and `TestValidationController` are plumbing.
- `Product` and `StockTxn` are used by no endpoint.
- The automatic 400 that `[ApiController]` answers when model binding fails before validation: the model starts from a bound body.
- HMAC-SHA256, Base64, UTF-8, `Guid.TryParse`, `Guid.NewGuid` and the culture's `DateOnly.TryParse` are parameters, not definitions.
- `DateTime.UtcNow` is the `now` parameter, and configuration values are parameters. Only the exact `yyyy-MM-dd` parse is defined concretely.
- The logger and the logging scope of the correlation middleware, and the warning logs of the key middleware and the webhook.
- Reading the request body as UTF-8 text: the webhook takes the body as a string.
- Writing a status or a header after the response has started: ASP.NET throws, but the model treats it as doing nothing.
- Ignoring case for header names, paths and the allow list: the model folds ASCII letters only, not the full invariant-culture case mapping.
- EmployeesController.List: orders rows with equal full names by their table position, a stable sort. `OrderBy(e => e.FullName)` leaves their order to SQLite, which may order them differently from one page's query to the next. Equal names are possible in different stores. So `EveryRowOnItsPage` promises that each row is on exactly one page only for that fixed order; the source does not promise it among equal names.
- EmployeesController.List: computes the page offset in unbounded arithmetic rather than the source's 32-bit arithmetic. The as-written offset and its wrap-around are modelled beside it; see Findings.
- EmployeesController.Create and EmployeesController.Update: the 400 for an unreadable HireDate is not an outcome of the model. The validator has already rejected such a body, as `HireDateRecheckPasses` proves.
- StoresController.Create and StoresController.Update: the automatic validation answer is modelled by the errors map only, not by ProblemDetails' JSON shape.

## Findings

| source | as written | input that shows it | evidently intended | confidence | as-written member | corrected member |
|---|---|---|---|---|---|---|
| api/Controllers/EmployeesController.cs:35 | `Skip((page - 1) * pageSize)` multiplies two C# `int`s unchecked, so the offset wraps modulo 2^32 | `page = 85899347`, `pageSize = 50`: the true offset 4294967300 wraps to 4 | a page past the end of the rows is empty, and row i is on page i / pageSize + 1 | not executed | EmployeesController.OffsetAsWrittenWraps | EmployeesController.PastTheEndIsEmpty |

With that input the listing returns the rows at positions 4 to 53 again, where it should return an empty page. `EmployeesController.List` uses the corrected, unbounded offset. `EmployeesController.EveryRowOnItsPage` proves that under it every row sits on exactly its own page.
