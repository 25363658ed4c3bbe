# RStudio active-session storage, chat static files and UTC zone parsing, in Dafny

This project models four pieces of RStudio's C++ code and proves properties of them.

- **`DBActiveSessionStorage`** is the database backend of the active-session
  property store. It holds one session's properties in the `active_session_metadata`
  table. It reads single properties, sets of properties and all properties. It writes
  properties with an UPDATE, and falls back to an INSERT when the session has no row.
  It also destroys the session and answers `isEmpty` and `isValid`.
- **The `IActiveSessionStorage` interface helpers** are the default `isValid` and
  `computeSuspendSize`, and the property-name/file-name table of the file backend.
- **The static-file handler of the AI chat pane** (`ChatStaticFiles`) does several
  things:
  - maps the request URI to a file under the installation;
  - refuses paths that leave it;
  - picks the content type and the caching headers;
  - injects the IDE theme into HTML;
  - builds and caches the Content-Security-Policy header.
- **`parseUtcTimeFromZoneString`** splits a timestamp from its zone designator, parses
  both parts and shifts the time to UTC. **`timeFromStdTime`** is also modelled.

Modules:

- `Wrappers`, `Text` and `SortedMap` are shared vocabulary:
  - `Option`;
  - the `std::string` searches the code uses;
  - `std::map<string,string>`, as a key-sorted sequence of pairs.
- `ActiveSessionStorage` holds the interface's error codes and defaults, and the
  file-name table.
- `SessionColumns` holds the pure helpers of the database store:
  - column/property renaming;
  - the SQL list builders;
  - timestamp normalisation;
  - the SET-clause loop.
- `SessionTable` models the table the store writes to. Each statement the store
  issues is a function from table to table: SELECT, UPDATE with its NOT NULL and
  foreign-key checks, INSERT with the licensed-user subquery, DELETE and COUNT.
- `DBOutcomes` gives, for each store method, the status, the values and the new table
  as a function of the old table.
- `DBStorage` holds the classes `Database` (the mutable table) and
  `DBActiveSessionStorage`. Each method is proved equal to its outcome function.
- `DBProperties` proves properties of the outcome functions. `DBScenarios` proves the
  test suite's scenarios over the suite's table.
- `DateTime` holds `timeFromStdTime` and the zone parser. The parser is a method proved
  equal to the `ZoneParse` specification, and lemmas give that specification its
  meaning.
- `ChatStaticFiles` holds the handler. Its mutable state is the class
  `CspHeaderCache`: the backend port and the cached CSP header.

Parameters stand for the code's calls into code that is not modelled:
- connection pool acquisition is a `poolAcquired` flag;
- Boost's ISO conversion and time parsers are function parameters;
- `realPath`, `urlDecode` and file reading are fields of `Files`;
- the theme is a `Theme` value.

## Model

| member | source | states |
|---|---|---|
| ActiveSessionStorage.DefaultIsValid | src/cpp/core/include/core/r_util/RActiveSessionStorage.hpp:51-59 | an error from `isEmpty` is passed through and leaves the flag alone; otherwise the session is valid iff it is not empty |
| ActiveSessionStorage.DefaultValidImpliesNotEmpty | src/cpp/core/include/core/r_util/RActiveSessionStorage.hpp:51-59 | a session the default reports valid is one `isEmpty` successfully found non-empty |
| ActiveSessionStorage.DefaultComputeSuspendSize | src/cpp/core/include/core/r_util/RActiveSessionStorage.hpp:62 | the default suspend size is 0 |
| ActiveSessionStorage.PropertyFileName | src/cpp/core/include/core/r_util/RActiveSessionStorage.hpp:105-111 | a listed property maps to its table entry; an unlisted one to its own name |
| ActiveSessionStorage.FileNamePropertyFirstMatch | src/cpp/core/include/core/r_util/RActiveSessionStorage.hpp:113-125 | the reverse lookup returns the key of the first entry, in key order, whose file is the name; with no such entry, the name itself |
| ActiveSessionStorage.GetFileNameProperty | src/cpp/core/include/core/r_util/RActiveSessionStorage.hpp:113-125 | the iterator loop computes that first-match reverse lookup |
| ActiveSessionStorage.FileNameRoundTrip | src/cpp/core/include/core/r_util/RActiveSessionStorage.hpp:105-125 | with an injective table, property → file → property is the identity on listed properties |
| ActiveSessionStorage.UnlistedRoundTrip | src/cpp/core/include/core/r_util/RActiveSessionStorage.hpp:105-125 | a property neither listed nor used as a file name round-trips to itself |
| ActiveSessionStorage.FileNameInverse | src/cpp/core/include/core/r_util/RActiveSessionStorage.hpp:105-125 | file → property → file is the identity on every file name the table uses |
| ActiveSessionStorage.GetSorted | src/cpp/core/include/core/r_util/RActiveSessionStorage.hpp:107-108 | in a key-sorted table, `find`/`at` on an entry's key returns that entry's value |
| SessionColumns.PropertyColumnRoundTrip | src/cpp/server/DBActiveSessionStorage.cpp:50-67 | property → column → property is the identity exactly for properties other than "project_id" and "workbench"; the editor round-trips |
| SessionColumns.ColumnPropertyRoundTrip | src/cpp/server/DBActiveSessionStorage.cpp:50-67 | column → property → column is the identity exactly for columns other than "editor" and "project_id" |
| SessionColumns.ColumnNameCollisions | src/cpp/server/DBActiveSessionStorage.cpp:50-59 | the only distinct properties sharing a column are editor/"workbench" and "project_id"/"project" |
| SessionColumns.PrefixedColumns | src/cpp/server/DBActiveSessionStorage.cpp:69-93 | one prefixed column per name |
| SessionColumns.ColumnsOf | src/cpp/server/DBActiveSessionStorage.cpp:166-176 | element i is the column of name i |
| SessionColumns.ColumnsOfUnprefixed | src/cpp/server/DBActiveSessionStorage.cpp:69-80 | with the empty prefix the prefixed list is the plain column list |
| SessionColumns.AccumulateIsJoin | src/cpp/server/DBActiveSessionStorage.cpp:69-106 | the `std::accumulate` fold of the builders equals joining the prefixed columns with the separator |
| SessionColumns.PropNamesSql | src/cpp/server/DBActiveSessionStorage.cpp:69-80 | the INSERT column list is the columns joined by ", " |
| SessionColumns.VarNamesSql | src/cpp/server/DBActiveSessionStorage.cpp:82-93 | the placeholder list is ":column" for each name, joined by ", " |
| SessionColumns.KeyString | src/cpp/server/DBActiveSessionStorage.cpp:95-106 | the list is the columns of the map's keys in key order, joined by ", " |
| SessionColumns.ColumnNameList | src/cpp/server/DBActiveSessionStorage.cpp:166-176 | the select list is the columns of the names in order, joined by ", " |
| SessionColumns.ConvertTimestampCases | src/cpp/server/DBActiveSessionStorage.cpp:108-125 | strings without '-' are kept; "not-a-date-time" and `bad_cast` failures give ""; a converted string gives its basic ISO form; only other exceptions escape |
| SessionColumns.ConvertTimestampIdempotent | src/cpp/server/DBActiveSessionStorage.cpp:108-125 | normalising a normalised timestamp changes nothing when the converter emits the basic form |
| SessionColumns.ConvertProperty | src/cpp/server/DBActiveSessionStorage.cpp:127-134 | only "last_resumed" and "suspend_timestamp" are normalised; every other value is kept |
| SessionColumns.ConvertedValues | src/cpp/server/DBActiveSessionStorage.cpp:136-164 | all values convert iff each does, and then value i is the conversion of entry i |
| SessionColumns.SetItems | src/cpp/server/DBActiveSessionStorage.cpp:147-160 | item i is "column = :column " for name i |
| SessionColumns.GetUpdateStringAndValues | src/cpp/server/DBActiveSessionStorage.cpp:136-164 | the loop reports an exception iff a conversion throws; otherwise it returns the keys in order, their converted values and the SET clause as the items joined by ", " |
| SessionColumns.ConvertAllProperties | src/cpp/server/DBActiveSessionStorage.cpp:429-439 | the INSERT branch's loop gives the same keys and converted values, or reports the exception |
| SessionTable.CountMatching | src/cpp/server/DBActiveSessionStorage.cpp:208-220 | the session count is at most the table size and is 0 iff no row has the session id |
| DBStorage.Database.constructor | src/cpp/server/DBActiveSessionStorageTests.cpp:90-111 | a database over a well-formed schema and a fitting table |
| DBStorage.DBActiveSessionStorage.constructor | src/cpp/server/DBActiveSessionStorage.cpp:246-250 | a store for the session and user, without an override connection |
| DBStorage.DBActiveSessionStorage.WithOverride | src/cpp/server/DBActiveSessionStorage.cpp:252-257 | a store for the session and user with an override connection |
| DBStorage.DBActiveSessionStorage.GetConnectionOrOverride | src/cpp/server/DBActiveSessionStorage.cpp:235-244 | success iff there is an override or the pool gives a connection; otherwise `ConnectionFailed` |
| DBStorage.DBActiveSessionStorage.ReadProperty | src/cpp/server/DBActiveSessionStorage.cpp:259-313 | the status and value are `ReadPropertyOutcome` of the current table |
| DBStorage.DBActiveSessionStorage.ReadProperties | src/cpp/server/DBActiveSessionStorage.cpp:315-356 | the status and map are `ReadPropertiesOutcome` of the current table |
| DBStorage.DBActiveSessionStorage.ReadAllProperties | src/cpp/server/DBActiveSessionStorage.cpp:358-367 | reading all properties is reading the list `*` |
| DBStorage.DBActiveSessionStorage.WriteProperty | src/cpp/server/DBActiveSessionStorage.cpp:369-390 | the status and new table are `WritePropertyOutcome` of the old table; the table still fits the schema |
| DBStorage.DBActiveSessionStorage.WriteProperties | src/cpp/server/DBActiveSessionStorage.cpp:392-472 | the status and new table are `WritePropertiesOutcome` (UPDATE, then INSERT when no row matched); the table still fits the schema |
| DBStorage.DBActiveSessionStorage.Destroy | src/cpp/server/DBActiveSessionStorage.cpp:474-496 | the status and new table are `DestroyOutcome` of the old table: `ConnectionFailed` without a connection, `DBError` and no change when the DELETE fails, otherwise the session's rows removed |
| DBStorage.DBActiveSessionStorage.ClearScratchPath | src/cpp/server/DBActiveSessionStorage.cpp:498-501 | always succeeds |
| DBStorage.DBActiveSessionStorage.ComputeSuspendSize | src/cpp/core/include/core/r_util/RActiveSessionStorage.hpp:62 | the database store reports the interface default |
| DBStorage.DBActiveSessionStorage.IsEmpty | src/cpp/server/DBActiveSessionStorage.cpp:504-534 | the status and flag are `IsEmptyOutcome` of the table |
| DBStorage.DBActiveSessionStorage.IsValid | src/cpp/server/DBActiveSessionStorage.cpp:536-570 | the status and flag are `IsValidOutcome` of the table |
| DBStorage.PopulateMapWithRow | src/cpp/server/DBActiveSessionStorage.cpp:181-206 | the loop computes the emplace-fold `Populate` of the row into the map |
| DBStorage.BindColumns | src/cpp/server/DBActiveSessionStorage.cpp:416-420 | bind parameter i is named after the column of name i |
| DBProperties.SelectFirst | src/cpp/server/DBActiveSessionStorage.cpp:286-298 | a SELECT's first row is the first matching row of the table |
| DBProperties.ReadPropertyCases | src/cpp/server/DBActiveSessionStorage.cpp:259-313 | no connection, an unknown column, no row, an unreadable cell and several rows each give their error; with one row the value is the cell read as text ("" for NULL) |
| DBProperties.PopulateFirstWins | src/cpp/server/DBActiveSessionStorage.cpp:181-206 | populating keeps the map sorted, never overwrites a key, and a new key takes its first column's value |
| DBProperties.ReadPropertiesCases | src/cpp/server/DBActiveSessionStorage.cpp:315-356 | the map starts empty; each error case gives its status; with one row the map holds exactly the selected columns' property values |
| DBProperties.ReadAllSelectsEveryColumn | src/cpp/server/DBActiveSessionStorage.cpp:358-367 | `*` selects every column of the table, in order |
| DBProperties.WritePropertyOnlyUpdates | src/cpp/server/DBActiveSessionStorage.cpp:369-390 | `writeProperty` never inserts or deletes: rows of other sessions are unchanged and the table keeps its length |
| DBProperties.WritePropertyStores | src/cpp/server/DBActiveSessionStorage.cpp:369-390 | on success every row of the session holds the bound value in the property's column, and every other column of that row keeps its value |
| DBProperties.WritePropertyForeignKey | src/cpp/server/DBActiveSessionStorage.cpp:369-390 | a `user_id` that names no licensed user fails with `DBError` and changes nothing |
| DBProperties.WritePropertyAccepted | src/cpp/server/DBActiveSessionStorage.cpp:369-390 | with a connection, success exactly when the column exists, the value binds to its type, and, when the column is `user_id` and the session has a row, the bound value names a licensed user (the foreign key) |
| DBProperties.WritePropertyThenRead | src/cpp/server/DBActiveSessionStorage.cpp:259-390 | after a successful write on a one-row session, of any column but `session_id`: a text column reads back as the written value; `user_id` reads back as the decimal form of the written id; any other integer column (`suspend_size`) makes the read throw, since the property is read as text |
| DBProperties.WritePropertiesFailureUnchanged | src/cpp/server/DBActiveSessionStorage.cpp:392-472 | a failed `writeProperties` leaves the table unchanged |
| DBProperties.WritePropertiesUpdatePath | src/cpp/server/DBActiveSessionStorage.cpp:413-426 | when the session has a row, success updates in place and adds no row; in each row of the session the columns not written keep their values |
| DBProperties.WritePropertiesInsertPath | src/cpp/server/DBActiveSessionStorage.cpp:428-470 | when the session has no row, success appends one row holding the session id, the licensed user's id and the converted values |
| DBProperties.WritePropertiesMissingRequired | src/cpp/server/DBActiveSessionStorage.cpp:428-470 | a new session leaving a NOT NULL column unset fails with `DBError` |
| DBProperties.WritePropertiesUnlicensedUser | src/cpp/server/DBActiveSessionStorage.cpp:428-470 | a new session for a user with no licensed-user record fails with `DBError` and leaves the table unchanged when every value converts; when a value does not convert the failure is the thrown conversion error, again with no change |
| DBProperties.WritePropertiesThenRead | src/cpp/server/DBActiveSessionStorage.cpp:315-472 | after a successful write on a session with at most one row, reading back gives each written property's converted value |
| DBProperties.DestroyEmpties | src/cpp/server/DBActiveSessionStorage.cpp:474-534 | after a successful `destroy`, `isEmpty` reports true; a failing DELETE gives `DBError` and leaves the table as it was |
| DBProperties.IsEmptyCounts | src/cpp/server/DBActiveSessionStorage.cpp:504-534 | with a connection: no row gives (Success, true), one row gives (Success, false), several rows give `TooManySessionsReturned` with the flag left at its initial true |
| DBProperties.IsValidNeedsOneRow | src/cpp/server/DBActiveSessionStorage.cpp:536-570 | `isValid` reports a valid session only when the session has exactly one row |
| DBProperties.IsValidReadFailure | src/cpp/server/DBActiveSessionStorage.cpp:536-570 | an `isEmpty` error is passed through with the flag false; a failed editor read, or a failed project read after an RStudio or empty editor, gives (Success, false) |
| DBProperties.IsValidDecision | src/cpp/server/DBActiveSessionStorage.cpp:536-570 | with one readable row, a session is valid iff its editor is not RStudio/empty, or it has a project |
| DBScenarios.InitialInsert | src/cpp/server/DBActiveSessionStorageTests.cpp:210-260 | the first `writeProperties(initialProps)` succeeds and appends the initial row |
| DBScenarios.InitialReadEditor | src/cpp/server/DBActiveSessionStorageTests.cpp:210-260 | the editor property reads back as written |
| DBScenarios.InitialReadOwner | src/cpp/server/DBActiveSessionStorageTests.cpp:210-260 | `user_id` reads as "7" |
| DBScenarios.InitialReadOwnerSet | src/cpp/server/DBActiveSessionStorageTests.cpp:210-260 | reading the set {"user_id"} gives the map {"user_id": "7"} |
| DBScenarios.InitialReadUnset | src/cpp/server/DBActiveSessionStorageTests.cpp:210-260 | a property never written reads as "" |
| DBScenarios.ReadNonColumn | src/cpp/server/DBActiveSessionStorageTests.cpp:210-260 | a name that is no column fails with `DBError` |
| DBScenarios.UpdateRVersion | src/cpp/server/DBActiveSessionStorageTests.cpp:263-315 | a NULL property is assigned and reads back |
| DBScenarios.TransferToLicensedUser | src/cpp/server/DBActiveSessionStorageTests.cpp:263-315 | ownership moves to licensed user 8 and reads back as "8" |
| DBScenarios.TransferToUnknownUser | src/cpp/server/DBActiveSessionStorageTests.cpp:335-346 | transferring to user 10, who does not exist, fails with `DBError` |
| DBScenarios.NonexistentRead | src/cpp/server/DBActiveSessionStorageTests.cpp:189-207 | a single read of an absent session gives `SessionNotFound` |
| DBScenarios.NonexistentReadAll | src/cpp/server/DBActiveSessionStorageTests.cpp:189-207 | reading all properties of an absent session gives `SessionNotFound` and an empty map |
| DBScenarios.NonexistentReadList | src/cpp/server/DBActiveSessionStorageTests.cpp:189-207 | reading `propList` of an absent session gives `SessionNotFound` and an empty map |
| DBScenarios.TooFewProperties | src/cpp/server/DBActiveSessionStorageTests.cpp:318-332 | the test's map, `r_version_label` plus `session_id`, fails with `DBError` and leaves the table unchanged; the `DBError` comes from `session_id` being bound twice |
| DBScenarios.TooFewPropertiesMissingRequired | src/cpp/server/DBActiveSessionStorageTests.cpp:318-332 | a new session given only `r_version_label` fails with `DBError` because the NOT NULL `workbench` column is left unset, and the table is unchanged |
| DBScenarios.WriteTextProperty | src/cpp/server/DBActiveSessionStorage.cpp:369-390 | writing a text property on the session's only row sets that column and nothing else |
| DBScenarios.IsValidInitial | src/cpp/server/DBActiveSessionStorageTests.cpp:508-597 | an R session without a project is not valid |
| DBScenarios.IsValidWithProject | src/cpp/server/DBActiveSessionStorageTests.cpp:508-597 | after writing a project, the R session is valid |
| DBScenarios.IsValidOtherEditor | src/cpp/server/DBActiveSessionStorageTests.cpp:508-597 | a session whose editor is not RStudio is valid without a project |
| DBScenarios.DestroyRemovesSession | src/cpp/server/DBActiveSessionStorageTests.cpp:619-635 | the session exists before `destroy` and `isEmpty` is true after it |
| DateTime.StdTimeRoundTrip | src/cpp/shared_core/include/shared_core/DateTime.hpp:39-43 | converting a `time_t` to a time and back gives the seconds that survive `static_cast<long>`; they equal `t` exactly when `t` fits the `long`, which every 64-bit `time_t` does where `long` has 64 bits |
| DateTime.StdTimeTruncatedOnLong32 | src/cpp/shared_core/include/shared_core/DateTime.hpp:39-43 | with a 32-bit `long`, the `time_t` 2^31 (2038-01-19 03:14:08 UTC) comes back as -2^31; with a 64-bit `long` it comes back unchanged |
| DateTime.StollDigits | src/cpp/shared_core/include/shared_core/DateTime.hpp:119-125 | a digit string parses iff it is non-empty and within `long long`, to its decimal value |
| DateTime.StoiSignedTwoDigits | src/cpp/shared_core/include/shared_core/DateTime.hpp:162-183 | `std::stoi` of a sign and two digits is the signed two-digit value |
| DateTime.StoiTwoDigits | src/cpp/shared_core/include/shared_core/DateTime.hpp:162-183 | `std::stoi` of two digits is their value |
| DateTime.ZonePos | src/cpp/shared_core/include/shared_core/DateTime.hpp:127-142 | the zone designator, when there is one, starts inside the string |
| DateTime.SplitZoneJoins | src/cpp/shared_core/include/shared_core/DateTime.hpp:127-142 | the time part followed by the zone part is the input |
| DateTime.SplitZoneNone | src/cpp/shared_core/include/shared_core/DateTime.hpp:127-142 | the zone part is empty iff there is no 'Z', no '+', and no '-' among the last six characters |
| DateTime.SplitZoneUtc | src/cpp/shared_core/include/shared_core/DateTime.hpp:127-142 | a string containing 'Z' splits at its last 'Z' |
| DateTime.SplitZonePlus | src/cpp/shared_core/include/shared_core/DateTime.hpp:129-142 | without 'Z', a string containing '+' splits at its last '+' |
| DateTime.SplitZoneMinus | src/cpp/shared_core/include/shared_core/DateTime.hpp:132-142 | without 'Z' or '+', the split is at the first '-' among the last six characters |
| DateTime.ZoneOffsetUtc | src/cpp/shared_core/include/shared_core/DateTime.hpp:162 | an empty zone and "Z" both mean offset 0 |
| DateTime.ZoneOffsetHours | src/cpp/shared_core/include/shared_core/DateTime.hpp:164-169 | a signed two-digit zone is that many hours |
| DateTime.ZoneOffsetHoursMinutes | src/cpp/shared_core/include/shared_core/DateTime.hpp:170-182 | "+hh:mm" is 60h+m; "-hh:mm" with h>0 is -(60h+m); "-00:mm" is +m |
| DateTime.NegativeZeroHourZone | src/cpp/shared_core/include/shared_core/DateTime.hpp:170-182 | "-00:30" and "+00:30" are the same offset, 30 minutes |
| DateTime.SeparatorPos | src/cpp/shared_core/include/shared_core/DateTime.hpp:144-146 | the separator found is a 'T' or a ' ' inside the string |
| DateTime.ReadZoneOffset | src/cpp/shared_core/include/shared_core/DateTime.hpp:162-183 | the offset block computes `ZoneOffsetMinutes` |
| DateTime.ParseUtcTimeFromZoneString | src/cpp/shared_core/include/shared_core/DateTime.hpp:115-198 | the success flag and output time are `ZoneParse`; the output keeps its prior value only when parsing fails before the zone is read; a bad zone leaves the parsed, unshifted time |
| DateTime.ParseTimestamp | src/cpp/shared_core/include/shared_core/DateTime.hpp:119-125 | an all-digit string is seconds since the epoch when it fits `long long`, and fails otherwise |
| DateTime.ParseBasic | src/cpp/shared_core/include/shared_core/DateTime.hpp:148-154 | a time part with 'T' and no '-' is parsed by the basic ISO parser alone |
| DateTime.ParseExtended | src/cpp/shared_core/include/shared_core/DateTime.hpp:155-160 | a time part with a separator and a '-' is parsed with the "%Y-%m-%d %H:%M:%S" format |
| DateTime.ParseNegativeZeroHour | src/cpp/shared_core/include/shared_core/DateTime.hpp:127-183 | a time with zone "-00:30" parses to the same UTC time as with "+00:30" |
| DateTime.SameZoneOffsetSameParse | src/cpp/shared_core/include/shared_core/DateTime.hpp:127-183 | two inputs with the same date-time part and zones of equal offset parse alike, and a successful parse is some parsed time moved back by exactly the zone's offset in minutes |
| DateTime.ParseExtendedWestExample | src/cpp/shared_core/include/shared_core/DateTime.hpp:115-198 | "2020-04-30T10:00:00-05:00" parses to the local time plus five hours |
| DateTime.ParseBadZoneExample | src/cpp/shared_core/include/shared_core/DateTime.hpp:155-197 | "2020-04-30T10:00:00-ab:cd" fails, and the output holds the local time parsed before the zone, not the prior value |
| DateTime.ParseBasicUtcExample | src/cpp/shared_core/include/shared_core/DateTime.hpp:115-198 | "20200430T100000Z" parses to the basic parser's time unchanged |
| ChatStaticFiles.GetContentType | src/cpp/session/modules/chat/ChatStaticFiles.cpp:291-316 | a listed extension gets its table entry; any other gets application/octet-stream |
| ChatStaticFiles.ContentTypeGenericIff | src/cpp/session/modules/chat/ChatStaticFiles.cpp:291-316 | the generic type is returned iff the extension is not in the table |
| ChatStaticFiles.ContentTypeHtml | src/cpp/session/modules/chat/ChatStaticFiles.cpp:291-316 | ".html" is text/html and ".htm" is served as octet-stream |
| ChatStaticFiles.RequestPath | src/cpp/session/modules/chat/ChatStaticFiles.cpp:402-414 | there is no path iff the URI lacks the AI chat prefix |
| ChatStaticFiles.CleanPathSpec | src/cpp/session/modules/chat/ChatStaticFiles.cpp:322-330 | the cleaned path is the longest prefix without '?' or '#' |
| ChatStaticFiles.ValidateAndResolvePath | src/cpp/session/modules/chat/ChatStaticFiles.cpp:318-384 | a resolved path always starts with the canonical client root |
| ChatStaticFiles.CachingHeadersSpec | src/cpp/session/modules/chat/ChatStaticFiles.cpp:453-468 | no-cache headers iff the request path ends with the index file name, ".js" or ".css"; otherwise a one-year cache iff the path contains a '.'; otherwise no caching header |
| ChatStaticFiles.IndexIsNotCached | src/cpp/session/modules/chat/ChatStaticFiles.cpp:453-468 | the prefix URI itself, which serves the index file, is sent with no-cache headers |
| ChatStaticFiles.QueryStringCaching | src/cpp/session/modules/chat/ChatStaticFiles.cpp:453-468 | the caching decision reads the path before the query string is cut: "app.js?v=2" is cached for a year while "app.js" is not, though both name the file "app.js" |
| ChatStaticFiles.AddDarkClass | src/cpp/session/modules/chat/ChatStaticFiles.cpp:82-111 | the `<html>` class edit computes `WithDarkClass` |
| ChatStaticFiles.InjectThemeInfo | src/cpp/session/modules/chat/ChatStaticFiles.cpp:78-132 | the result is the dark-class edit (dark themes only) followed by the meta-tag insertion |
| ChatStaticFiles.DarkClassPlacement | src/cpp/session/modules/chat/ChatStaticFiles.cpp:82-111 | the dark class goes right after the `class="` of the first `<html` tag, or a new ` class="dark"` goes just before the tag's closing '>'; without `<html`, or without a '>' after it, nothing changes |
| ChatStaticFiles.ThemeMetaPlacement | src/cpp/session/modules/chat/ChatStaticFiles.cpp:113-131 | the theme meta tags go just before the first `</head>`; without one nothing changes |
| ChatStaticFiles.WithDefaultsSpec | src/cpp/session/modules/chat/ChatStaticFiles.cpp:219-228 | default-src is added only when csp.json yields no directives at all; frame-ancestors is added when it is missing; every other directive is kept |
| ChatStaticFiles.WithConnectSrcSpec | src/cpp/session/modules/chat/ChatStaticFiles.cpp:238-252 | outside server mode with a known port, connect-src becomes its old value, or 'self' when it is absent or empty, followed by one " ws://127.0.0.1:<port>"; every other directive, and everything in server mode or without a port, is unchanged |
| ChatStaticFiles.DirectiveTexts | src/cpp/session/modules/chat/ChatStaticFiles.cpp:254-266 | each directive is written as its name, a space and its value |
| ChatStaticFiles.SerializeDirectives | src/cpp/session/modules/chat/ChatStaticFiles.cpp:254-266 | the loop joins the directive texts with "; " |
| ChatStaticFiles.CspHeaderHasFrameAncestors | src/cpp/session/modules/chat/ChatStaticFiles.cpp:217-266 | the built header always contains a frame-ancestors directive |
| ChatStaticFiles.CspHeaderCache.constructor | src/cpp/session/modules/chat/ChatStaticFiles.cpp:62 | a fresh cache over the sorted loaded directives, with the initial port and no header built |
| ChatStaticFiles.CspHeaderCache.Rebuild | src/cpp/session/modules/chat/ChatStaticFiles.cpp:217-266 | the cached header becomes the header for the loaded directives and the current port |
| ChatStaticFiles.CspHeaderCache.BuildCspHeader | src/cpp/session/modules/chat/ChatStaticFiles.cpp:277-287 | returns the header for the current port, building it only on first use; the header is never empty |
| ChatStaticFiles.CspHeaderCache.SetChatBackendPort | src/cpp/session/modules/chat/ChatStaticFiles.cpp:476-480 | records the port and rebuilds the cached header for it |
| ChatStaticFiles.CspHeaderCache.HandleAIChatRequest | src/cpp/session/modules/chat/ChatStaticFiles.cpp:386-474 | the response is `ChatResponse` of the request with the current CSP header |
| ChatStaticFiles.CspHeaderCache.ServeFile | src/cpp/session/modules/chat/ChatStaticFiles.cpp:441-473 | the response for a resolved, readable file is `ServedFile` |
| ChatStaticFiles.ServedFromRoot | src/cpp/session/modules/chat/ChatStaticFiles.cpp:416-451 | a 200 response is only sent for an existing, readable file inside the client root; the body of a non-HTML file, or of any file not named as the index, is the file unchanged |
| ChatStaticFiles.ChatResponseStatus | src/cpp/session/modules/chat/ChatStaticFiles.cpp:386-474 | 400 is returned iff the URI lacks the AI chat prefix; the error flag is set iff the status is 500; the status is always one of 200, 400, 403, 404 and 500 |
| ChatStaticFiles.ServedHeaders | src/cpp/session/modules/chat/ChatStaticFiles.cpp:441-468 | a served file carries its content type and caching headers, and HTML also carries the CSP header |

## Left out

- Logging, `LOG_*` calls and error locations are not modelled.
- The connection pool's 500 ms timeout is not modelled. Each connection request is a `poolAcquired` flag.
- The SQL text of each statement is not parsed. `SessionTable` models what the engine does with the statement the store builds. The builders' string outputs are proved separately (`PropNamesSql`, `VarNamesSql`, `KeyString`, `ColumnNameList`, `GetUpdateStringAndValues`).
- The engine is assumed to enforce NOT NULL and the `licensed_users` foreign key, to store integer columns as integers, and to reject unknown columns with an error.
- SessionTable.ExecUpdate: an UPDATE that assigns the same column twice, or binds the same placeholder twice, fails. This follows PostgreSQL; SQLite would keep the rightmost assignment and accept the repeated placeholder.
- SessionTable.ExecInsert: an INSERT that names the same column twice, or binds the same placeholder twice, fails. This follows PostgreSQL; SQLite would accept it.
- SessionTable.LicensedIdOf: a `licensed_users` subquery that finds several rows is an error. This follows PostgreSQL; SQLite would take the first row.
- DBScenarios.TooFewProperties: with the test's own map, the `DBError` comes from `SessionTable.ExecUpdate`, which rejects the UPDATE because it binds the `session_id` placeholder twice (once from the map, once for the WHERE clause), before any INSERT is tried. This is a rule of this model's engine. `DBScenarios.TooFewPropertiesMissingRequired` proves the missing NOT NULL column as a cause of its own.
- Engine failures other than the modelled constraint violations are not modelled for `readProperty`, `readProperties`, `writeProperty`, `writeProperties`, `isEmpty` and `isValid`: a statement on a live connection fails only for an unknown column, a value that does not bind to its column's type, a NOT NULL column left unset, a duplicate column or placeholder, or the `licensed_users` foreign key. `destroy` is the exception: its DELETE's failure is a `deleteExecutes` flag.
- DBProperties.WritePropertyThenRead: a write of `session_id` is excluded. That write moves the row to the new id, so the read-back is about another session.
- `getSessionCount`'s own error path (a failing COUNT query) is not modelled; the in-memory COUNT cannot fail.
- `get<int>` of `user_id` is read as an unbounded integer, without the 32-bit range check.
- `ActiveSession`'s property-name constants are taken from the tests. RActiveSessions.hpp is not part of this model.
- The file and RPC storage backends are not modelled, beyond the interface's file-name table.
- ActiveSessionStorage.DefaultComputeSuspendSize: the interface default of 0 is modelled; the file backend's directory-size computation is not.
- DBScenarios.IsValidOtherEditor: the VS Code session of the test is reached by `writeProperty` of the editor on the initial row, not by a second `writeProperties` call.
- The scenario lemmas state what the tests observe of the initial row (`LooksInitial`) over any table of the suite's shape (`SuiteSchema`), rather than one concrete schema.
- `writeProperties` and the SQL builders dereference the first element without a check, so an empty property list is excluded by `requires`.
- `parseUtcTimeFromZoneString` indexes the time part at a separator it has not checked for. The `Parsable` precondition excludes inputs where no separator exists (undefined behaviour in the code).
- Boost's `from_iso_string`, `time_from_string` and `from_iso_extended_string`/`to_iso_string` are function parameters. Fractional seconds and Boost's own format rules are not modelled.
- `from_time_t` of a `time_t` beyond Boost's range is not modelled; time is an unbounded count of microseconds.
- `std::stoi`'s handling of leading `+`, whitespace and range is modelled; its locale dependence is not.
- csp.json loading (`loadCspDirectives`), its file I/O and its JSON parsing are not modelled. The loaded directives are a constructor parameter of `CspHeaderCache`.
- The mutex around the CSP cache and the atomic backend port are not modelled. `CspHeaderCache` is single-threaded.
- `realPath`, `urlDecode`, file existence and reading, and `FilePath::getExtension`/`getFilename` are fields of `Files`. `htmlEscape` and the theme source are folded into the `Theme` value.
- `locatePositAiInstallation` is reduced to the `installed` flag and the canonical root in `Files`.
- ChatConstants.hpp is not part of this model. The index file name and the initial backend port are parameters.
- The `http::Response` object is modelled as a `Response` value: status, header list, body and error.
