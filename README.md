# IEEE Sampark portal: the spreadsheet core, in Dafny

The portal keeps its data in one Google spreadsheet. The tab "Form Responses 1"
has one row per registered participant. The tab "Connections" has one row per
connection request, in columns A to G: source e-mail, target e-mail, timestamp,
source name, source phone, note and status.

Two data layers work on these tabs. The Express server has `GoogleSheetService`,
and the Next.js application has `google-sheets.ts`. Over time they drifted apart:

- their column layouts differ;
- their rules for recognising an accepted connection differ;
- their default values differ.

Each is modelled as written. Every Sheets call becomes a read or a write of a
`Table` (`seq<seq<string>>`). A cell past the end of a row reads as `None`,
which stands for JavaScript's `undefined`. A read whose error the source catches
is an `Option<Table>`, where `None` means the read failed. The two tabs are the
fields of a `Workbook.Spreadsheet` object. Each write is a method that changes
only those fields, and it is specified by a function of the old table.

The model also covers:

- the two configuration modules: the `col` letter-to-index conversion (a
  bijective base-26 numeral) and their field tables;
- the certificate route's Drive file-id extraction and its rule for serving
  the file;
- the itinerary's grouping by time;
- the profile card's button decision table;
- the dashboard's NFC target extraction and its local status patch.

Logic that the two data layers implement with identical code is modelled once
in `ConnectionsTab`. This covers the partner count, the status lookup, adding a
request and answering one. Its rows cite the server copy and name the client
copy.

Files:

- `text.dfy`: the ECMAScript string operations used: `trim`, ASCII
  `toLowerCase`, `includes`, `split`, decimal printing.
- `seqs.dfy`: find-first, set collection, map building, filter, reverse, take.
- `cells.dfy`: row and cell access, `||` defaults, cell and range writes, and
  the `Spreadsheet` class.
- `column_letters.dfy`, `server_config.dfy`, `client_config.dfy`: the two
  configuration modules.
- `credentials.dfy`: `generateCredentials`.
- `connections_tab.dfy`: the shared Connections-tab operations.
- `server_service.dfy`: the server's `GoogleSheetService`.
- `client_sheets.dfy`: the Next.js `google-sheets.ts`.
- `certificate.dfy`, `itinerary.dfy`, `profile_card.dfy`, `dashboard.dfy`: the
  helpers from the components and the route.

## Model

| member | source | states |
|---|---|---|
| ColumnLetters.Col | server/src/config/googleSheets.ts:6-13 | The accumulating loop of `col` computes the letters' bijective base-26 value minus one. The client copy at src/lib/googleSheets/config.ts:6-13 is the same code. |
| ColumnLetters.OneAndTwoLetters | server/src/config/googleSheets.ts:9-12 | One letter gives its code minus 65, so 'A' is 0 and 'Z' is 25. Two letters XY give 26·(X−64)+(Y−64)−1, so "AA" is 26. |
| ColumnLetters.Letters | server/src/config/googleSheets.ts:6-13 | The inverse of `col`: for every n ≥ 1 it yields a non-empty upper-case column name. |
| ColumnLetters.NumeralOfLetters | server/src/config/googleSheets.ts:6-13 | Reading back the name that `Letters` makes for n gives n. |
| ColumnLetters.LettersOfNumeral | server/src/config/googleSheets.ts:6-13 | Every non-empty upper-case string is the name of its own value. |
| ColumnLetters.ColInjective | server/src/config/googleSheets.ts:6-13 | `col` never maps two different upper-case column names to the same index. |
| ColumnLetters.ColSurjective | server/src/config/googleSheets.ts:6-13 | Every index k ≥ 0 is `col` of some column name. |
| ServerConfig.Index | server/src/config/googleSheets.ts:43-62 | `INDEX` is defined for every field except SLUG. Each defined entry is `col` of that field's letter. |
| ServerConfig.LettersDistinct | server/src/config/googleSheets.ts:22-41 | Every `COLUMNS` letter is one upper-case letter, and no two fields share one. |
| ServerConfig.IndexDistinct | server/src/config/googleSheets.ts:43-62 | No two fields have the same index, so no two fields read the same cell. |
| ServerConfig.IndexValues | server/src/config/googleSheets.ts:43-62 | Lists the server indices: STATUS 'U' is 20, PASSWORD 'V' is 21, SLUG is undefined although 'Y' would give 24, and so on for every field. |
| ClientConfig.LettersDistinct | src/lib/googleSheets/config.ts:22-40 | Every letter of the client's `COLUMNS` is one upper-case letter, and the letters are pairwise distinct. |
| ClientConfig.IndexDistinct | src/lib/googleSheets/config.ts:42-62 | The client `INDEX` gives every field, SLUG included, its own index. |
| ClientConfig.IndexValues | src/lib/googleSheets/config.ts:42-62 | Every client index lies in 0..25 and is its letter's position. STATUS 'O' is 14, PASSWORD 'P' is 15 and SLUG 'S' is 18. |
| Credentials.GenerateCredentials | server/src/services/googleSheetService.ts:26-34 | The username is "SMPK" followed by 1000 + row id. The password has six characters, each taken from the alphabet at the picked position. The client copy is at src/lib/google-sheets.ts:69-77. |
| Credentials.AlphabetUnambiguous | server/src/services/googleSheetService.ts:28 | The password alphabet has 32 characters and contains no I, O, 0 or 1. |
| Credentials.UsernamesDistinct | server/src/services/googleSheetService.ts:27 | Different row ids give different usernames. |
| Cells.WriteCell | server/src/services/googleSheetService.ts:324-330 | A single-cell `values.update` at 1-based sheet row r and column c changes only that cell. A row it writes past pads with empty cells. |
| Cells.SetCells | src/lib/google-sheets.ts:199-233 | A range write puts each non-null value at its column. A `null` value leaves its cell as it was. |
| Cells.WriteCells | src/lib/google-sheets.ts:199-233 | A range write on sheet row r changes only that row, which becomes the result of `SetCells` on it. |
| ConnectionsTab.RowPartner | server/src/services/googleSheetService.ts:427-434 | A row yields a partner exactly when it touches `me` (after trim and lower-case), its trimmed status is exactly "Accepted", and its other end is present and non-empty. |
| ConnectionsTab.PartnersMembership | server/src/services/googleSheetService.ts:422-437 | p is counted as a partner if and only if some accepted row pairs p with `me`. Repeated rows and A→B plus B→A count once. |
| ConnectionsTab.CountConnections | server/src/services/googleSheetService.ts:410-442 | `getConnectionsCount`: the loop returns the number of distinct partners, and 0 on a failed read. The client copy is at src/lib/google-sheets.ts:273-311. |
| ConnectionsTab.StatusBetween | server/src/services/googleSheetService.ts:571-594 | `getConnectionStatus` returns "None" when no row links the two people in either direction, compared case-insensitively. |
| ConnectionsTab.StatusOfFirstLink | server/src/services/googleSheetService.ts:580-593 | Otherwise the result is the status cell of the first linking row, or "Pending" when that cell is absent or empty. |
| ConnectionsTab.StatusSymmetric | server/src/services/googleSheetService.ts:582-588 | `getConnectionStatus(a, b)` equals `getConnectionStatus(b, a)`. The client copy is at src/lib/google-sheets.ts:444-451. |
| ConnectionsTab.NewConnectionRow | server/src/services/googleSheetService.ts:392-400 | The appended row is [source or "", target, timestamp, name or "", phone or "", note or "", "Pending"]. |
| ConnectionsTab.AddConnection | server/src/services/googleSheetService.ts:377-408 | `addConnection` appends exactly that row to the Connections tab and leaves the other tab alone. The client copy is at src/lib/google-sheets.ts:238-271. |
| ConnectionsTab.Responded | server/src/services/googleSheetService.ts:316-333 | Only column G of the first row changes, namely the first row whose trimmed source and target equal the arguments, compared case-sensitively. With no match nothing changes. |
| ConnectionsTab.UpdateConnectionStatus | server/src/services/googleSheetService.ts:309-334 | The call returns true if and only if a row matches, and the new tab is `Responded(old, ...)`. It writes sheet row index + 1. The client copy is at src/lib/google-sheets.ts:541-582. |
| ConnectionsTab.AcceptedRequestPartners | server/src/services/googleSheetService.ts:427-434 | Once a request from a to b is accepted, each side counts the other. |
| ConnectionsTab.RequestTwiceThenAccept | server/src/services/googleSheetService.ts:309-442 | Sending the same request twice and then accepting it has three effects. a's partners become exactly {b}, counted once. b counts a. The status read back is "Accepted". |
| ConnectionsTab.EarlierReverseRowShadowsAnswer | server/src/services/googleSheetService.ts:580-593 | Accepting the request a→b does not change the reported status when an earlier pending row b→a exists, because the lookup finds that row first. |
| ConnectionsTab.OtherName | server/src/services/googleSheetService.ts:275 | The other party's displayed name comes from the registered-name map, then from the stored source name (incoming rows only), then "Anonymous". It is never empty. |
| ConnectionsTab.Touching | server/src/services/googleSheetService.ts:264-267 | The kept rows are exactly the rows with `me` as source or target, compared case-insensitively. |
| ServerSheets.ColumnsFromConfig | server/src/config/googleSheets.ts:43-62 | The server service's column constants are the configuration's `INDEX` values. SLUG is the only field with no `INDEX` entry. |
| ServerSheets.ToUser | server/src/services/googleSheetService.ts:150-167 | A user record takes its row index, e-mail and name from the row. The status is the cell's value, or "Pending" when that is empty. |
| ServerSheets.AllUsers | server/src/services/googleSheetService.ts:139-169 | `getAllUsers` skips the header and returns one record per row, in order, with `rowIndex` = position + 2. |
| ServerSheets.Authenticate | server/src/services/googleSheetService.ts:44-80 | A session exists if and only if some row's trimmed e-mail (C) equals the trimmed username and its non-empty trimmed password cell (V) equals the trimmed password. A blank password never logs in. |
| ServerSheets.SessionOf | server/src/services/googleSheetService.ts:67-74 | The session holds the row's name (B), e-mail (C) and phone (D), and its slug read from Y. |
| ServerSheets.AuthenticateFirstMatch | server/src/services/googleSheetService.ts:57-74 | The session describes the first matching row. |
| ServerSheets.NameMapLastWins | server/src/services/googleSheetService.ts:259-260 | Every lower-cased registered e-mail is a key of the name map. It maps to the name of the last user with that e-mail. |
| ServerSheets.View | server/src/services/googleSheetService.ts:268-287 | The direction is incoming if and only if `me` is the target. The status defaults to "Pending" and the name is never empty. |
| ServerSheets.UserConnections | server/src/services/googleSheetService.ts:245-289 | There is one view per touching row. The call throws (`None`) if and only if a registered row lacks an e-mail while the tab is non-empty. |
| ServerSheets.UserConnectionsNewestFirst | server/src/services/googleSheetService.ts:262-288 | Entry k is the view of the k-th touching row counted from the end of the sheet. |
| ServerSheets.Matching | server/src/services/googleSheetService.ts:296-300 | The kept users are exactly those whose lower-cased name or e-mail contains the lower-cased query. |
| ServerSheets.SearchUsers | server/src/services/googleSheetService.ts:291-307 | The result holds at most 10 entries: the first min(10, matches) matches, in sheet order, as name, selectedEvent and slug. |
| ServerSheets.GetUser | server/src/services/googleSheetService.ts:339-372 | The call finds a profile if and only if some row's trimmed e-mail equals the argument. The profile is the full projection (`ServerSheets.ProfileOf`) of the FIRST such row, with `getConnectionsCount(email)` as its count. Its role is "user" and its id is its e-mail. |
| ServerSheets.SlugLookupAsWrittenNeverFinds | server/src/services/googleSheetService.ts:547 | With `INDEX.SLUG` undefined, the lookup as written matches no row. |
| ServerSheets.GetUserBySlug | server/src/services/googleSheetService.ts:536-569 | Reading column Y, the call finds a profile if and only if some row's trimmed slug equals the argument. The profile is the public projection (`ServerSheets.PublicProfileOf`) of the FIRST such row. Its count is that of that row's e-mail, or 0 without one. |
| ServerSheets.Link | server/src/services/googleSheetService.ts:472-475 | Adding y to x's set (creating it if missing) changes only x's set. |
| ServerSheets.AddRowPeers | server/src/services/googleSheetService.ts:466-477 | One row adds to x's set exactly the other end of an accepted row that has x at one end. |
| ServerSheets.DirectoryPartnerSymmetric | server/src/services/googleSheetService.ts:472-475 | A row names y as x's partner if and only if it names x as y's partner. |
| ServerSheets.PeersCollect | server/src/services/googleSheetService.ts:465-477 | The set of x holds the other ends of all rows whose lower-cased status is "accepted" and that have x at one end. |
| ServerSheets.PeersSymmetric | server/src/services/googleSheetService.ts:465-477 | The directory map is symmetric: A's set holds B if and only if B's set holds A. |
| ServerSheets.BuildConnectionsMap | server/src/services/googleSheetService.ts:465-477 | The `forEach` builds `ConnectionsMap(rows)`. |
| ServerSheets.Directory | server/src/services/googleSheetService.ts:447-495 | There is one entry per row after the header, in order. Each is the full entry the source returns (`ServerSheets.EntryOf`): id and e-mail from C, name, selected event, poster theme and slug, with `rowIndex` = position + 2. The count is the size of the e-mail's set, or 0 when the e-mail has none. |
| ServerSheets.DirectoryCountsLowerCaseAccepted | server/src/services/googleSheetService.ts:468-471 | A row with status "accepted" in lower case counts in the directory but not in `getConnectionsCount`. |
| ServerSheets.BlankSlugs | server/src/services/googleSheetService.ts:513-521 | Counts the rows after the header that have no slug. The count is at most the number of those rows. |
| ServerSheets.BackfillSlugs | server/src/services/googleSheetService.ts:497-534 | Only rows after the header whose column Y is missing or blank get the next slug. The call returns their number, and every other row is unchanged. |
| ServerSheets.BackfillIdempotent | server/src/services/googleSheetService.ts:513-533 | With non-blank slugs, every row has a slug after the backfill, so a second run counts 0. |
| ServerSheets.BackfillAsWrittenRewritesEveryRow | server/src/services/googleSheetService.ts:509-521 | As written, with `INDEX.SLUG` undefined, every row after the header is counted and overwritten. |
| ServerSheets.BackfillAsWrittenExample | server/src/services/googleSheetService.ts:509-521 | In a concrete sheet with one row whose slug is "abc", the as-written backfill counts 1 and overwrites it. Reading column Y counts 0 and changes nothing. |
| ClientSheets.ConfigDisagreesWithDataLayer | src/lib/googleSheets/config.ts:35-39 | The client configuration puts STATUS, PASSWORD and SLUG at 14, 15 and 18. `google-sheets.ts` uses 12, 13 and 16. |
| ClientSheets.Authenticate | src/lib/google-sheets.ts:25-67 | A session exists if and only if some row's trimmed e-mail (C) equals the trimmed username and the password matches. It must match trimmed column N, or as a fallback column L, and that cell must be non-empty. A failed read or a blank password gives none. |
| ClientSheets.AuthenticateFirstMatch | src/lib/google-sheets.ts:38-62 | The session holds the name, e-mail and phone of the first matching row. |
| ClientSheets.RegistrationRow | src/lib/google-sheets.ts:103-123 | A registration row has 19 cells A..S. M is "Pending", N is the password, Q is the slug, and P and R are empty. |
| ClientSheets.AppendUserAndGetCredentials | src/lib/google-sheets.ts:86-128 | The username is made for the sheet row the new entry lands on. The password is six alphabet characters, and the row is appended. |
| ClientSheets.GetPassword | src/lib/google-sheets.ts:375-388 | The call returns column N of that sheet row when the cell is non-empty. A failed read, row 0, a missing row or an empty cell give null. |
| ClientSheets.RegisteredUserCanLogIn | src/lib/google-sheets.ts:103-123 | After registration, the e-mail and the returned password log in, and `getPassword` on that sheet row returns that password. |
| ClientSheets.ToUser | src/lib/google-sheets.ts:142-163 | The status is the cell's value, or "Pending" when that is empty. The row index and e-mail come from the row. |
| ClientSheets.GetAllUsers | src/lib/google-sheets.ts:130-168 | The header is skipped, and there is one record per row in order, with `rowIndex` = position + 2. |
| ClientSheets.UpdateUserStatus | src/lib/google-sheets.ts:170-181 | The call writes column M of that sheet row and nothing else. |
| ClientSheets.StatusUpdateRoundTrip | src/lib/google-sheets.ts:142-181 | Updating the `rowIndex` that `getAllUsers` reports changes that user's status, and every other user reads the same as before. |
| ClientSheets.MainValues | src/lib/google-sheets.ts:186-196 | Nine values go to B..J. |
| ClientSheets.UpdateUserDetails | src/lib/google-sheets.ts:183-236 | The three range writes B..J, O..P and R..S change only the addressed row. |
| ClientSheets.DetailsKeepProtectedColumns | src/lib/google-sheets.ts:199-233 | A, K, L, M (status), N (password) and Q (slug) read the same after the update. |
| ClientSheets.DetailsWrittenWhereExpected | src/lib/google-sheets.ts:199-233 | Each given main field lands in B..J. O, P, R and S get their value, or '' when it is absent. |
| ClientSheets.BuildNameMap | src/lib/google-sheets.ts:331-334 | The `forEach` over the B:C rows builds the name map. |
| ClientSheets.NameMapLastWins | src/lib/google-sheets.ts:331-334 | A row with an e-mail maps its normalised e-mail to its name, unless a later row has the same e-mail. |
| ClientSheets.View | src/lib/google-sheets.ts:343-365 | The direction is incoming if and only if `me` is the target. `sourceName` defaults to "Anonymous" and the status to "Pending". The name is never empty. |
| ClientSheets.GetUserConnections | src/lib/google-sheets.ts:313-373 | Returns the touching rows, newest first, each as its view. A failed read gives []. |
| ClientSheets.GetUser | src/lib/google-sheets.ts:390-429 | The call finds a profile if and only if some row's trimmed C equals the argument. The profile is the full projection (`ClientSheets.ProfileOf`, with "" for missing optional cells) of the FIRST such row. Its count is `getConnectionsCount(email)`. |
| ClientSheets.GetUserBySlug | src/lib/google-sheets.ts:465-505 | The call finds a profile if and only if some row's trimmed Q equals the slug. The profile is the public projection (`ClientSheets.PublicProfileOf`) of the FIRST such row. Its count is that of that row's e-mail, or 0 without one. |
| ClientSheets.ConnectionStatus | src/lib/google-sheets.ts:431-463 | Returns "None" on a failed read or when no row links the two people. |
| ClientSheets.ConnectionStatusSymmetric | src/lib/google-sheets.ts:443-462 | The answer does not depend on the order of the two e-mails. |
| ClientSheets.Matching | src/lib/google-sheets.ts:521-527 | The header is skipped. The kept rows are exactly the later rows whose lower-cased name or e-mail contains the query. |
| ClientSheets.SearchUsers | src/lib/google-sheets.ts:507-539 | Returns at most 10 hits, the first matches in order, with name, theme and slug only. A failed read gives []. |
| Certificate.QueryParam | src/app/api/certificate/download/route.ts:36-37 | A value is found if and only if some `&`-separated pair is named `id`. |
| Certificate.QueryParamFirstPair | src/app/api/certificate/download/route.ts:36-37 | The value is that of the first pair so named. |
| Certificate.FileIdFromUrl | src/app/api/certificate/download/route.ts:26-41 | A null or empty link gives null. A result only comes from a link containing "/file/d/" or "id=". |
| Certificate.SlashNoLaterThanMarker | src/app/api/certificate/download/route.ts:31-33 | The first '/' of the text after the marker comes no later than the next "/file/d/". |
| Certificate.FileIdFromDrivePath | src/app/api/certificate/download/route.ts:30-34 | With "/file/d/", the id is the text after its first occurrence up to the next '/'. This holds even when the link also contains "id=". |
| Certificate.FileIdFromQuery | src/app/api/certificate/download/route.ts:35-38 | Otherwise, with "id=", the id is the `id` parameter of the text between the first and second '?', or null when there is no '?'. |
| Certificate.DownloadPlan | src/app/api/certificate/download/route.ts:76-103 | Google Apps types are exported as application/pdf, and ".pdf" is appended unless the name already ends in it, ignoring case. An exported name equals the stored name exactly when that name already ends in ".pdf", ignoring case. Other types keep their own type and name. The defaults are certificate.pdf and application/pdf. |
| Certificate.LowerAppendPdf | src/app/api/certificate/download/route.ts:89-91 | A name with ".pdf" appended ends in ".pdf" in lower case. |
| Certificate.ExportNameStable | src/app/api/certificate/download/route.ts:89-91 | Choosing the name again from an exported name appends nothing more. |
| Certificate.Route | src/app/api/certificate/download/route.ts:47-67 | No `userId` gives 400 before the lookup. A lookup that throws is answered by the `catch`. No user or no certificate gives 404. A link with no usable id gives 400. Otherwise the id is served. |
| Certificate.CatchAnswer | src/app/api/certificate/download/route.ts:124-148 | A message containing "has not been used in project" gives 500 "Google Drive API Disabled". Otherwise a 403 code or response status gives 403 "Access Denied". Anything else gives 500 "Download Failed". The status is always 403 or 500. |
| Certificate.ServedIdFromLink | src/app/api/certificate/download/route.ts:62-67 | A served id comes only from a successful lookup of a non-empty `userId`. It is non-empty and is the id extracted from the user's link. |
| Itinerary.Push | src/components/ConferenceItinerary.tsx:51-57 | One reduce step keeps every group non-empty. |
| Itinerary.Grouped | src/components/ConferenceItinerary.tsx:50-58 | Every group of the reduce is non-empty. |
| Itinerary.GroupByTime | src/components/ConferenceItinerary.tsx:50-58 | The in-place reduce computes `Grouped(schedule)`. |
| Itinerary.PushFlatten | src/components/ConferenceItinerary.tsx:51-57 | One step appends the entry to the flattened groups. |
| Itinerary.GroupedFlatten | src/components/ConferenceItinerary.tsx:50-58 | Concatenating the groups gives back the schedule, in order. |
| Itinerary.PushWellGrouped | src/components/ConferenceItinerary.tsx:51-56 | One step keeps the groups well formed. |
| Itinerary.GroupedWellGrouped | src/components/ConferenceItinerary.tsx:51-56 | Groups are non-empty and share their first entry's time, and neighbouring groups differ. |
| Itinerary.GroupingUnique | src/components/ConferenceItinerary.tsx:50-58 | Any well-formed grouping of the schedule is the one computed: only consecutive equal times merge. |
| Itinerary.Visible | src/components/ConferenceItinerary.tsx:60 | Expanded shows all groups. Collapsed shows the first min(5, n) groups. |
| Itinerary.TypeStyles | src/components/ConferenceItinerary.tsx:34-44 | As a list of three classes: a type gets a style other than the neutral default exactly when it is one of the six known types. |
| Itinerary.TypeStylesDistinct | src/components/ConferenceItinerary.tsx:34-44 | The six known types have six different styles, and every other string gets the default, which no known type uses. |
| ProfileCard.MainAction | src/components/ParticipantProfileCard.tsx:38-46 | A logged-out user goes to login and never connects. `onConnect` is called if and only if the user is logged in and the status is None. |
| ProfileCard.ButtonLabel | src/components/ParticipantProfileCard.tsx:48-54 | The label follows the priority logged out, loading, Accepted, Pending, else Connect. |
| ProfileCard.ButtonDisabled | src/components/ParticipantProfileCard.tsx:56-60 | The button is disabled if and only if the user is logged in and either the status is not None or a request is loading. A logged-out user's button is never disabled. |
| ProfileCard.ButtonStyle | src/components/ParticipantProfileCard.tsx:63-71 | As a class list: the default cursor appears exactly when a connection exists, the hover colour exactly when none does, green exactly when accepted and grey exactly when pending. |
| ProfileCard.StylesDistinct | src/components/ParticipantProfileCard.tsx:63-71 | The style depends on the status alone, and the three statuses have three styles. |
| ProfileCard.ButtonConsistent | src/components/ParticipantProfileCard.tsx:38-60 | An enabled button of a logged-in user asks to connect and reads "Connect". A connect button is disabled only while loading. |
| Dashboard.NfcTarget | src/app/dashboard/page.tsx:156-163 | Input without "/p/" is used unchanged, and the target is never longer than the input. |
| Dashboard.NfcTargetFromProfileUrl | src/app/dashboard/page.tsx:158-162 | With "/p/", the target is the text after the first "/p/", up to the next "/p/" or '?', whichever comes first. |
| Dashboard.Responded | src/app/dashboard/page.tsx:203-211 | On success, entries from `sourceEmail` take the new status and all others are unchanged. On failure the list is untouched, and the length always stays the same. |
| Dashboard.RespondedIdempotent | src/app/dashboard/page.tsx:204-206 | Applying the same answer twice gives the same list as once. |

## Left out

- I/O is not modelled: the Google Sheets and Drive clients, authentication, stream piping and the `SHEET_ID` check. Reads and writes act on the two tables of a `Spreadsheet`.
- Uncaught failures are not modelled. A read whose error the source catches takes an `Option<Table>`. A read that the source lets throw, or that returns no `values`, is modelled as an empty table.
- Randomness and clocks are parameters: the six `Math.random` password picks, the `randomUUID` slugs and the timestamps.
- `URLSearchParams` percent-decoding and `+` handling (application/x-www-form-urlencoded parsing in section 5.1 of the WHATWG URL Standard) are not modelled. Pairs are split plainly at `&` and `=`.
- `toLowerCase` is modelled for ASCII letters only. No Unicode case mapping is done.
- The module `@/lib/googleSheets/service` is not part of this model. The certificate route's user lookup therefore becomes the `lookup` parameter of `Certificate.Route`: it either throws (`Threw`) or returns the user's certificate link, if any (`Found`).
- Certificate.Route: stops before the Drive calls. The Drive metadata and download calls are not modelled, and neither are their own answers. Their errors reach the same `catch`, which `Certificate.CatchAnswer` models.
- ProfileCard.ButtonStyle: the class string is modelled as its list of classes. The source writes the same classes joined by single spaces.
- Itinerary.TypeStyles: the class string is modelled as its list of three classes (background, text, border). The source writes them joined by single spaces.
- The server's `appendUserRegistration`, `updateUserStatus`, `updateUserDetails` and `getPassword` are not part of this model. Their client counterparts are modelled.
- ClientSheets.AppendUserAndGetCredentials: the next row number uses the length of the whole tab in place of the length of column A:A. The two agree when every row has a timestamp.
- ClientSheets.GetUserConnections: a failed read of the B:C name range is not modelled. The name rows are given.
- ClientSheets.GetAllUsers: the rethrow on a failed read is not modelled. The table is given.
- ClientSheets.UpdateUserStatus: requires a sheet row of at least 1. Row 0 is an invalid range that the Sheets API rejects, and that error is not modelled.
- ClientSheets.UpdateUserDetails: requires a sheet row of at least 1, for the same reason.
- Cells.WriteCell, Cells.SetCells, Cells.WriteCells, ConnectionsTab.AddConnection, ConnectionsTab.UpdateConnectionStatus, ClientSheets.AppendUserAndGetCredentials, ClientSheets.UpdateUserStatus, ClientSheets.UpdateUserDetails and ServerSheets.BackfillSlugs: every write stores its text verbatim. The source writes with `valueInputOption: 'USER_ENTERED'`, under which Sheets parses number-like and date-like text and later reads return the formatted value. That parsing is not modelled. The round-trip lemmas (ClientSheets.RegisteredUserCanLogIn, ClientSheets.StatusUpdateRoundTrip, ClientSheets.DetailsKeepProtectedColumns, ClientSheets.DetailsWrittenWhereExpected, ServerSheets.BackfillIdempotent, ConnectionsTab.AcceptedRequestPartners) therefore hold for values the sheet keeps as text.
- ClientSheets.RegisteredUserCanLogIn: holds only for passwords the sheet keeps as text. A generated password that Sheets reads as a number, such as "22E222", would come back formatted under `USER_ENTERED` and would not log in. The model does not capture this.
- ConnectionsTab.AddConnection: always reports true. The caught failure of the append, which returns false, is not modelled.
- ServerSheets.ToUser, ServerSheets.SessionOf, ServerSheets.Directory and ServerSheets.GetUser read the slug from column Y. The source reads `row[undefined]` there, which is always undefined; see Findings.
- React state, effects, routing and NFC scanning are not modelled. `ProfileCard.MainAction` returns the action taken, and `Dashboard.Responded` takes the response's `ok`.
- Concurrent writers to the spreadsheet are not modelled. Every request runs alone.

## Findings

| source | as written | input that shows it | evidently intended | confidence | as-written member | corrected member |
|---|---|---|---|---|---|---|
| server/src/services/googleSheetService.ts:509-518 | `SHEET_CONFIG.INDEX` has no SLUG, so `slugIndex` is undefined. Every row then looks slug-less: it is counted and gets a new slug. | A header plus one row whose column Y is "abc": the backfill returns 1 and overwrites "abc". | Read column Y (index 24), fill only blank cells, and count only those. | not executed | ServerSheets.BackfillAsWrittenExample | ServerSheets.BackfillSlugs |
| server/src/services/googleSheetService.ts:547 | `row[SHEET_CONFIG.INDEX.SLUG]` is `row[undefined]`, so no row ever matches. | Any sheet and any slug: the result is null. | Compare column Y with the slug. | not executed | ServerSheets.SlugLookupAsWrittenNeverFinds | ServerSheets.GetUserBySlug |
