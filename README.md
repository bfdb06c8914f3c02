# Hotspot monitor: usage analytics, operator accounts and access rules

A Dafny model of the logic of a hotspot monitoring web application that sits
on a MySQL schema shared with a RADIUS accounting server. The application
reads the accounting tables (`radacct` sessions, `rm_dailyacct` per-day byte
totals) and the identity tables (`rm_users`, `rm_services`) to build its
dashboard, and keeps its own table of operator logins (`web_users`).

What is modelled, module by module:

- `Schema`, `Base`, `Text`: the rows of the tables as datatypes, MySQL date
  arithmetic (a timestamp is seconds, a date its day number, `NOW()` a
  parameter), SQL filtering, ordering and grouping over sequences, and the
  JavaScript string operations the code relies on.
- `DashboardData`: the five dashboard queries (summary counts and
  percentage, login trend, daily traffic, top consumers, inactive accounts),
  each a function over row sequences.
- `OnlineUsers`: the open-session view (`acctstoptime IS NULL`, latest
  start first, one detail record per row).
- `InactiveDetails`: the per-user detail lookup with its `null` results and
  `||` defaults.
- `WebUsers`: the operator-account table as a class over a
  `map<int, WebUser>` with an AUTO_INCREMENT counter, and the server actions
  that list, insert, update and delete its rows; bcrypt hashing is the
  opaque function `hash`.
- `Auth`: the login guard chain and the session payload.
- `UsersRoute`: the hotspot-user collection route (POST validation, `srvid`
  normalisation, error-to-status mapping; GET passthrough).
- `Middleware`: the redirect/allow decision and the path matcher.
- `UserTable`, `UserModal`: the client-side list filter, service label,
  initial form and submit validation.
- `Csv`, `CsvExport`, `Reports`: the generic CSV export and the two CSV
  report routes, each checked against an RFC 4180 (section 2) reader
  written as their partner. Reading what was written gives the table back
  for the corrected generic export; for the generic export as written only
  when no value holds a line feed (see "Findings"), and for the two reports
  only when no value holds a '"' (they wrap values without escaping).
- `DotEnv`: the hand-written `.env` reader, as a loop that updates the
  process environment in place.

Foreign calls (bcrypt hash/compare, `encodeURIComponent`, ISO date
formatting, `Number` on a string, the byte-to-GB text) are function-typed
parameters; "the query throws" is a boolean parameter `fault`.

Points where the code does less, or otherwise, than its names suggest, and
which the model follows:

- Inactive accounts are selected by `MAX(acctstarttime) < NOW() - n days`
  (a timestamp comparison), not by a day difference greater than `n`.
- Accounts that never connected have a NULL `daysInactive`, and MySQL sorts
  NULL lowest, so `ORDER BY daysInactive DESC` lists them last, not first.
- The top-consumer ranking orders by summed bytes; the GB figures are
  computed afterwards.
- Hotspot accounts with their credential rows are created, changed and
  deleted by functions whose bodies are outside this model (see "Left out").

## Model

| member | source | states |
|---|---|---|
| `DashboardData.GetDashboardSummary` | src/lib/dashboard-data.ts:25-54 | total is the number of `rm_users` rows, active the number of distinct `rm_users` usernames with a session started in the last 90 days; active + inactive = total; 0 <= active <= total; percentage "0.00" with no users, otherwise active/total*100 rounded to hundredths |
| `DashboardData.ActiveAtMostTotal` | src/lib/dashboard-data.ts:36-42 | the active count never exceeds the number of `rm_users` rows (the join keeps only usernames found there) |
| `DashboardData.PercentHundredths` | src/lib/dashboard-data.ts:45-47 | the result is active/total*100 in hundredths rounded half up (bracketing inequality); at most 100.00 when active <= total, exactly 100.00 when all are active |
| `DashboardData.FormatHundredths` | src/lib/dashboard-data.ts:46-47 | two decimals: the whole part without leading zeros, a '.', then two digits, and 100 * whole + fraction is the given number of hundredths |
| `DashboardData.NoUsersZeroPercent` | src/lib/dashboard-data.ts:45-47 | an empty `rm_users` gives "0.00" and no active users, whatever the sessions |
| `DashboardData.GetLoginTrends` | src/lib/dashboard-data.ts:60-71 | dates strictly ascending; each row's count is the number of distinct usernames that started a session in the window on that date |
| `DashboardData.LoginTrendDatesSound` | src/lib/dashboard-data.ts:63-71 | every reported date had a session start in the window, so no count is zero (no zero-filled days) |
| `DashboardData.LoginTrendDatesComplete` | src/lib/dashboard-data.ts:63-71 | every date with a session start in the window is reported |
| `DashboardData.GetDailyNetworkUsage` | src/lib/dashboard-data.ts:121-139 | dates strictly ascending; each entry's download and upload are the sums of `dlbytes` and `ulbytes` of that date's rows in the window |
| `DashboardData.DailyUsageDates` | src/lib/dashboard-data.ts:124-133 | sparse series: every entry sums at least one row, and every row of the window is summed into the entry of its date |
| `DashboardData.SumTrafficSplits` | src/lib/dashboard-data.ts:154-156 | SUM(dlbytes + ulbytes) equals SUM(dlbytes) + SUM(ulbytes) |
| `DashboardData.GetTopDataUsers` | src/lib/dashboard-data.ts:145-162 | at most `limit` rows (exactly min(limit, number of users with usage)), usage non-increasing, a prefix of the full ranking |
| `DashboardData.TopUserRows` | src/lib/dashboard-data.ts:149-171 | each row is one distinct username of `rm_dailyacct` with its whole-history download and upload sums, usage = download + upload |
| `DashboardData.TopUserWithoutProfile` | src/lib/dashboard-data.ts:157-159 | the LEFT JOIN keeps a username with no `rm_users` row, with no names |
| `DashboardData.TopUsersAreTheHeaviest` | src/lib/dashboard-data.ts:160-161 | a user left out by LIMIT used no more than anyone listed |
| `DashboardData.TopUsersComplete` | src/lib/dashboard-data.ts:157-161 | with a limit of at least the number of users, every user with usage is listed |
| `DashboardData.ActivityOf` | src/lib/dashboard-data.ts:86-95 | an account's row carries MAX(acctstarttime) of its sessions and, exactly when that exists, the whole-day DATEDIFF from now |
| `DashboardData.GetInactiveUsers` | src/lib/dashboard-data.ts:79-98 | the rows are exactly the HAVING survivors (as a multiset); dated rows come first by daysInactive descending, never-connected rows after all of them |
| `DashboardData.InCandidates` | src/lib/dashboard-data.ts:93-96 | a row is reported iff it is some account's activity row and passes the HAVING test |
| `DashboardData.InactiveUsersExact` | src/lib/dashboard-data.ts:93-96 | an account is reported iff it has no session or all its sessions started before now minus the threshold |
| `DashboardData.InactiveUsersSound` | src/lib/dashboard-data.ts:93-96 | every reported row belongs to an `rm_users` account that is inactive |
| `DashboardData.AccountReportedIffInactive` | src/lib/dashboard-data.ts:93-96 | an account is reported iff its activity row passes the HAVING test |
| `DashboardData.InactiveIffNoRecentSession` | src/lib/dashboard-data.ts:91-96 | the HAVING test on the maximum start time, restated over the account's sessions |
| `DashboardData.InactiveUsersOnce` | src/lib/dashboard-data.ts:93-95 | with usernames unique in `rm_users`, each account appears at most once |
| `DashboardData.InactiveDaysAtLeastThreshold` | src/lib/dashboard-data.ts:92-96 | every reported daysInactive is at least the threshold |
| `Schema.LastStart` | src/lib/dashboard-data.ts:91 | MAX(acctstarttime): NULL iff the user has no session, otherwise the start of one of their sessions and no smaller than any |
| `Schema.StaleLoginDays` | src/lib/dashboard-data.ts:92-96 | a start before now minus n days is at least n calendar days old |
| `Schema.FindUser` | src/app/actions/get-inactive-user-details.ts:24-34 | the lookup by username: none iff no row has it, otherwise a row with that username |
| `OnlineUsers.OrderedOpen` | src/app/actions/get-online-users.ts:30-32 | exactly the open rows, each as often as in the table, ordered by start time descending |
| `OnlineUsers.TimeDiff` | src/app/actions/get-online-users.ts:29 | TIMEDIFF(NOW(), start) in seconds: the difference when it lies within ±838:59:59, else the nearer bound |
| `OnlineUsers.Detail` | src/app/actions/get-online-users.ts:35-44 | username, IP, MAC, NAS IP and start copied; download from `acctoutputoctets`, upload from `acctinputoctets`; session time is TIMEDIFF(now, start), clamped |
| `OnlineUsers.SessionTimesAscend` | src/app/actions/get-online-users.ts:29-32 | latest start first means session times never decrease down the list |
| `OnlineUsers.GetOnlineUsersDetails` | src/app/actions/get-online-users.ts:17-44 | one record per ordered open row, same order, start times non-increasing |
| `OnlineUsers.OnlineRowsAreOpen` | src/app/actions/get-online-users.ts:31 | every record comes from an open `radacct` row |
| `OnlineUsers.OpenRowsAreOnline` | src/app/actions/get-online-users.ts:30-35 | every open row is reported |
| `OnlineUsers.OnlineCountIsOpenCount` | src/app/actions/get-online-users.ts:30-35 | no de-duplication: the result length is the number of open rows |
| `OnlineUsers.ClosingRemovesSession` | src/app/actions/get-online-users.ts:31 | setting a session's stop time takes exactly that row out of the view |
| `OnlineUsers.ClosingLowersCount` | src/app/actions/get-online-users.ts:31 | closing one open session lowers the number of online rows by one |
| `InactiveDetails.ServiceName` | src/app/actions/get-inactive-user-details.ts:24-31 | the name of the first plan row with the user's `srvid` whenever one exists (such a row exists iff any row matches); none when no plan row matches |
| `InactiveDetails.LastSession` | src/app/actions/get-inactive-user-details.ts:46-55 | none iff the user has no session, otherwise one of their sessions with the greatest start |
| `InactiveDetails.GetInactiveUserDetails` | src/app/actions/get-inactive-user-details.ts:20-77 | null iff a query throws or no `rm_users` row has the username; otherwise the totals are the output and input octet sums over that user's sessions |
| `InactiveDetails.DetailsDefaults` | src/app/actions/get-inactive-user-details.ts:60-66 | present names and company are copied and missing ones become ''; a non-empty plan name is copied and a missing or empty one becomes 'Unknown'; the creation date is its ISO text, or '' when missing |
| `InactiveDetails.NoSessionsDetails` | src/app/actions/get-inactive-user-details.ts:57-71 | an existing user without sessions gets zero totals and null last login, MAC and IP |
| `InactiveDetails.LastFieldsFromLatestSession` | src/app/actions/get-inactive-user-details.ts:46-71 | last login, MAC and IP all come from one session of the user with the greatest start |
| `InactiveDetails.OtherUsersIgnored` | src/app/actions/get-inactive-user-details.ts:37-55 | another user's session never changes the result |
| `WebUsers.Listing` | src/app/actions/web-users.ts:22 | every row once, ids strictly ascending, nothing else |
| `WebUsers.PublicListing` | src/app/actions/web-users.ts:22 | the ordered rows with the password hash left out |
| `WebUsers.Public` | src/app/actions/web-users.ts:22 | a listed entry carries id, username, fullname, role, status and creation time of its row, and no password hash |
| `WebUsers.WebUserStore.GetWebUsers` | src/app/actions/web-users.ts:19-27 | getWebUsers: one entry per row (without hash), ordered by id ascending |
| `WebUsers.ListingAfterInsert` | src/app/actions/web-users.ts:41-44 | a row inserted with the next AUTO_INCREMENT id is listed last, after the old listing unchanged |
| `WebUsers.EnumMember` | src/app/api/setup-web-users/route.ts:19 | a value names an ENUM member iff some member equals it up to letter case, and then the stored text is that member |
| `WebUsers.MemberNamesItself` | src/scripts/add-status-col.js:23 | a lower-case member is stored as given |
| `WebUsers.CaseFoldedMembers` | src/app/actions/web-users.ts:41-44 | 'Admin' is stored as 'admin' and 'Disabled' as 'disabled' |
| `WebUsers.UnknownRoleRefused` | src/app/api/setup-web-users/route.ts:19 | a role that is no member in any letter case is refused |
| `WebUsers.OrDefault` | src/app/actions/web-users.ts:44 | `f || fallback`: the value when truthy, the fallback otherwise |
| `WebUsers.WebUserStore.CreateWebUser` | src/app/actions/web-users.ts:29-54 | empty username or password: error, table and counter unchanged; a username over 50 characters, a fullname over 100 or a role or status outside its ENUM: 'Failed to create user', nothing changes (role and status are matched to their ENUM member up to letter case); duplicate username: 'Username already exists', table unchanged but the AUTO_INCREMENT value used up; other failure: 'Failed to create user'; success inserts one row with the next id, the hash, the '', 'user', 'active' defaults and the matched ENUM members as role and status; keys, username uniqueness and ENUM-only columns kept |
| `WebUsers.WebUserStore.UpdateWebUser` | src/app/actions/web-users.ts:56-82 | only row `id` changes: fullname set, role and status set to the ENUM members they name up to letter case, hash replaced only when a password is given; a value the columns reject fails and changes nothing |
| `WebUsers.WebUserStore.DeleteWebUser` | src/app/actions/web-users.ts:84-98 | removes exactly row `id`; on failure nothing changes |
| `WebUsers.WebUserStore.UpdateProfile` | src/app/actions/web-users.ts:100-146 | no session: 'Unauthorized' and nothing changes; a fullname over 100 characters for an existing row fails and changes nothing; otherwise only the session user's row changes (fullname, hash when a password is given) and the new session carries the new fullname |
| `Auth.FindByUsername` | src/app/actions/auth.ts:20-24 | `rows[0]` of the lookup: a row with that username, none iff there is none |
| `Auth.Payload` | src/app/actions/auth.ts:36-43 | the session payload holds exactly id, username, role and fullname of the row |
| `Auth.Login` | src/app/actions/auth.ts:10-56 | empty credentials: 'Missing credentials'; a thrown lookup: 'Internal server error'; success only for a found row with a verified password and status 'active', with the payload and an expiry 24 h after now |
| `Auth.InvalidCredentialsIff` | src/app/actions/auth.ts:24-28 | the invalid-credentials message is given iff the username is unknown or the password does not verify |
| `Auth.DisabledOnlyAfterPassword` | src/app/actions/auth.ts:26-32 | the disabled message is given iff the password verified and the status is not 'active' |
| `Auth.LoginSucceedsIff` | src/app/actions/auth.ts:14-43 | login succeeds iff every guard passes |
| `Auth.LoginOutcomes` | src/app/actions/auth.ts:14-56 | every failure carries one of the four messages |
| `UsersRoute.NormaliseSrvid` | src/app/api/users/route.ts:22 | null iff `body.srvid` is falsy, otherwise `Number(body.srvid)` |
| `UsersRoute.ToNumber` | src/app/api/users/route.ts:22 | `Number(x)`: a number is kept, a boolean is 1 or 0, a string goes through the parse |
| `UsersRoute.ToUserData` | src/app/api/users/route.ts:16-23 | the record sent copies the five body fields and the normalised `srvid` |
| `UsersRoute.ErrorResponse` | src/app/api/users/route.ts:31-36 | a duplicate-key error is 409 'Username already exists', any other 500 with its message |
| `UsersRoute.Post` | src/app/api/users/route.ts:13-38 | a missing username or password is 400 and createUser is not called; success only after createUser returned for the record sent |
| `UsersRoute.PostStatus` | src/app/api/users/route.ts:13-38 | 200, 400, 409 and 500 each iff their condition on body, validation and the thrown error |
| `UsersRoute.SuccessOnlyAfterCreate` | src/app/api/users/route.ts:29-30 | status 200 implies createUser was called and returned |
| `UsersRoute.FalsySrvidIsNull` | src/app/api/users/route.ts:22 | 0, '' and false become null; the string "0" is converted |
| `UsersRoute.Get` | src/app/api/users/route.ts:4-11 | the list passes through with 200, a thrown error becomes 500 with its message |
| `Middleware.Decide` | src/middleware.ts:5-42 | the redirect/allow rule in its order: no session off the public paths to /login, a session on a public path to /, a non-admin in the /users prefix to /?error=Unauthorized, else pass |
| `Middleware.PublicIsNotAdmin` | src/middleware.ts:12-33 | no public path lies under the /users prefix |
| `Middleware.LoggedInNeverSeesLogin` | src/middleware.ts:27-29 | a logged-in request for /login is redirected to / |
| `Middleware.SessionlessAdminPathGoesToLogin` | src/middleware.ts:22-39 | without a session the /users area goes to /login, not to Unauthorized |
| `Middleware.AdminPrefixIsTextual` | src/middleware.ts:33-39 | the admin check is a prefix test: '/usersX' is guarded too |
| `Middleware.AdminPasses` | src/middleware.ts:22-42 | an admin session passes on every non-public path |
| `Middleware.Handle` | src/middleware.ts:46-57 | paths the matcher excludes pass untouched; the others get the decision |
| `Middleware.SetupRouteNeverSeen` | src/middleware.ts:55 | the matcher excludes every '/api' path, so the '/api/setup-web-users' public rule is never reached |
| `UserTable.FilteredUsers` | src/components/users/UserManagementTable.tsx:22-39 | a user is kept iff it is in the list and matches both the search and the service filter |
| `UserTable.FilteredIsSubsequence` | src/components/users/UserManagementTable.tsx:22 | the filtered list is an order-preserving subsequence of the list |
| `UserTable.EmptySearchMatches` | src/components/users/UserManagementTable.tsx:23-27 | an empty search matches every user |
| `UserTable.NoFilterShowsAll` | src/components/users/UserManagementTable.tsx:22-39 | empty search and 'all' show the whole list |
| `UserTable.SearchIsCaseInsensitive` | src/components/users/UserManagementTable.tsx:23-27 | the search answer depends only on the lower-cased texts |
| `UserTable.LowerCaseSearch` | src/components/users/UserManagementTable.tsx:23-27 | lower-casing the search text changes nothing |
| `UserTable.UsernameHitMatches` | src/components/users/UserManagementTable.tsx:24 | a search occurring in the username matches |
| `UserTable.ServiceFilterCases` | src/components/users/UserManagementTable.tsx:33-36 | 'all' keeps everyone; another value keeps no user without `srvid` and nobody when it is not a number |
| `UserTable.ServiceLabel` | src/components/users/UserManagementTable.tsx:161 | 'Default' for 'Default service', 'Unknown' for a missing or empty name, the name otherwise |
| `UserTable.DefaultFilterMatchesLabel` | src/components/users/UserManagementTable.tsx:35 | the 'default' filter keeps exactly the users labelled 'Default' or 'Unknown' (up to plans literally named so) |
| `UserModal.InitialForm` | src/components/users/UserModal.tsx:28-47 | the password starts blank; edit mode copies the user; create mode is empty with the first plan's `srvid`, or null without plans |
| `UserModal.Submit` | src/components/users/UserModal.tsx:53-81 | empty username: 'Username is required'; create without password: 'Password is required for new users'; edit sends PUT to /api/users/<encoded original name>, create POST to /api/users, with the form as body |
| `UserModal.SendIff` | src/components/users/UserModal.tsx:59-68 | a request is sent iff the username is filled and, in create mode, the password |
| `UserModal.UsernameCheckFirst` | src/components/users/UserModal.tsx:59-68 | with both fields empty only the username error is reported |
| `UserModal.EditTargetsOriginalName` | src/components/users/UserModal.tsx:71-75 | edit addresses the name the user had when the dialog opened |
| `UserModal.FreshFormIsRejected` | src/components/users/UserModal.tsx:38-63 | the untouched create form never sends |
| `UserModal.ResponseError` | src/components/users/UserModal.tsx:77-92 | no error iff the response is ok and neither `fetch` nor `res.json()` threw; a thrown message is shown whatever the status; otherwise the server's error text, or 'Operation failed' |
| `CsvExport.Display` | src/components/dashboard/ExportButton.tsx:27 | null and undefined become '', strings are kept, numbers are their decimal text |
| `CsvExport.NonStringIsPlain` | src/components/dashboard/ExportButton.tsx:24-27 | a non-string value never needs quoting |
| `CsvExport.CellAsWritten` | src/components/dashboard/ExportButton.tsx:21-27 | a string with ',' or '"' is quoted with quotes doubled; anything else is emitted as its text |
| `CsvExport.Cells` | src/components/dashboard/ExportButton.tsx:20-21 | a row is projected onto exactly the header keys, in their order |
| `CsvExport.Build` | src/components/dashboard/ExportButton.tsx:12-30 | no output iff there is no row |
| `CsvExport.ExportAsWritten` | src/components/dashboard/ExportButton.tsx:11-30 | the export as written: no output for no data |
| `CsvExport.Table` | src/components/dashboard/ExportButton.tsx:15-21 | what the export stands for: the first row's keys, then one record per row of that many fields |
| `CsvExport.Export` | src/components/dashboard/ExportButton.tsx:18-30 | the export with line feeds quoted too: no output for no data |
| `CsvExport.ExportReadsBack` | src/components/dashboard/ExportButton.tsx:15-30 | read back, the corrected export is the header and each row's values in input order |
| `CsvExport.CellsAgree` | src/components/dashboard/ExportButton.tsx:24-27 | without line feeds the written and the corrected cell agree |
| `CsvExport.AsWrittenReadsBackWithoutLineFeeds` | src/components/dashboard/ExportButton.tsx:18-30 | without line feeds in the values the export as written reads back as the table |
| `CsvExport.LineFeedSplitsRecord` | src/components/dashboard/ExportButton.tsx:24-27 | a value holding a line feed but no comma or quote splits its row into two records |
| `CsvExport.LineFeedExport` | src/components/dashboard/ExportButton.tsx:18-30 | the export as written of one row `{note: "a\nb"}` is `note\na\nb` |
| `Csv.Field` | src/components/dashboard/ExportButton.tsx:24-27 | RFC 4180 rule 6: quoted exactly when the field holds ',', '"' or a line feed |
| `Csv.Unquote` | src/components/dashboard/ExportButton.tsx:25 | stripping the outer quotes and collapsing doubled quotes recovers the string |
| `Csv.ReadQuotedDoubled` | src/components/dashboard/ExportButton.tsx:25 | the doubled content followed by the closing quote reads back as the content |
| `Csv.ReadWritten` | src/components/dashboard/ExportButton.tsx:24-27 | every written cell reads back as its field, leaving what follows |
| `Csv.ReadJoinedRecord` | src/components/dashboard/ExportButton.tsx:21-28 | comma-joined written cells read back as the record |
| `Csv.ReadJoinedFile` | src/components/dashboard/ExportButton.tsx:18-30 | line-feed-joined lines read back as the records, in order |
| `Reports.Wrap` | src/app/api/reports/inactive-users/route.ts:13 | a field is the text between two double quotes, nothing escaped |
| `Reports.WrapIsQuote` | src/app/api/reports/inactive-users/route.ts:13 | without a '"' in the value, the wrapped field is a conforming quoted field |
| `Reports.QuotedLineReads` | src/app/api/reports/inactive-users/route.ts:13 | a line of wrapped fields without '"' reads back as those fields |
| `Reports.LastLoginText` | src/app/api/reports/inactive-users/route.ts:12 | 'Never' for no last login, otherwise the longest prefix of the ISO text without 'T': all of it, or up to its first 'T' |
| `Reports.DaysText` | src/app/api/reports/inactive-users/route.ts:13 | empty iff daysInactive is null or 0 |
| `Reports.InactiveFields` | src/app/api/reports/inactive-users/route.ts:13 | the six values of a line, missing names and company as '' |
| `Reports.GetInactiveReport` | src/app/api/reports/inactive-users/route.ts:6-27 | the report of getInactiveUsers(90); a 500 error when the query fails or a listed last login is an invalid date (`toISOString` throws inside the `try`) |
| `Reports.InactiveReportReadsBack` | src/app/api/reports/inactive-users/route.ts:10-16 | read back: the fixed column names, then one record per user in input order |
| `Reports.EmptyReport` | src/app/api/reports/inactive-users/route.ts:10-16 | with no rows the report is the header line with its line feed |
| `Reports.HeaderLine` | src/app/api/reports/inactive-users/route.ts:10 | the header is the column names joined by commas with a line feed, and reads back as them |
| `Reports.InactiveReportDays` | src/app/api/reports/inactive-users/route.ts:8-13 | every Days Inactive figure is at least 90; never-connected users get an empty field |
| `Reports.TopFields` | src/app/api/reports/top-usage/route.ts:13 | the six values of a line, missing names as '' |
| `Reports.GetTopUsageReport` | src/app/api/reports/top-usage/route.ts:6-27 | the report of getTopDataUsers(50), or a 500 error on failure |
| `Reports.TopUsageReportReadsBack` | src/app/api/reports/top-usage/route.ts:11-16 | read back: the fixed column names, then one six-field record per user in input order |
| `Reports.TopUsageAtMostFifty` | src/app/api/reports/top-usage/route.ts:9 | the report has at most 50 user lines |
| `Text.Split` | scripts/inspect-all-schema.js:9-10 | `split(c)`: at least one piece, none holding the separator |
| `Text.SplitJoin` | scripts/inspect-all-schema.js:9-10 | the pieces joined with the separator give the text back |
| `Text.Trim` | scripts/inspect-all-schema.js:12 | the input is the result with white space before and after it, and the result neither starts nor ends with white space (ASCII white space) |
| `Text.Before` | src/app/api/reports/inactive-users/route.ts:12 | `split('T')[0]`: the longest prefix without the separator |
| `Text.Lower` | src/components/users/UserManagementTable.tsx:23-27 | `toLowerCase` restricted to ASCII: same length, 'A'-'Z' lowered, every other character kept |
| `Text.NatToString` | src/components/dashboard/ExportButton.tsx:27 | the decimal text of a natural number: digits without a leading zero whose value is the number |
| `Text.NatToStringOfDigits` | src/components/dashboard/ExportButton.tsx:27 | every digit string without a leading zero is the text of the number it denotes, so the text is unique |
| `Text.IntToString` | src/app/api/reports/inactive-users/route.ts:13 | `String(n)`: the digits of the magnitude without a leading zero, after a '-' exactly when n is negative |
| `DotEnv.ParseLine` | scripts/inspect-all-schema.js:10-12 | a line without '=' assigns nothing; an assignment's key and value hold no '=' |
| `DotEnv.ApplyLine` | scripts/inspect-all-schema.js:11-12 | a non-assigning line keeps the environment, and so does one whose key trims to the empty name (setenv refuses it and the error is ignored); any other assigning line sets its key |
| `DotEnv.Environment.LoadDotEnv` | scripts/inspect-all-schema.js:6-17 | a missing file changes nothing; otherwise the environment is the old one with the lines applied in order |
| `DotEnv.LastAssignmentWins` | scripts/inspect-all-schema.js:9-13 | the last line assigning a key decides its value |
| `DotEnv.KeptBySuffix` | scripts/inspect-all-schema.js:9-13 | lines that do not assign a key keep the value the earlier lines gave it |
| `DotEnv.UnassignedKeyUnchanged` | scripts/inspect-all-schema.js:9-13 | a key no line assigns keeps its value, or stays absent |
| `DotEnv.EmptyNameNeverSet` | scripts/inspect-all-schema.js:9-13 | no `.env` file sets or changes the empty name |
| `DotEnv.ValueTruncatedAtEquals` | scripts/inspect-all-schema.js:10 | a value containing '=' is cut at it |
| `DotEnv.SingleAssignment` | scripts/inspect-all-schema.js:10-12 | `key=value` assigns the trimmed pair |
| `DotEnv.EmptySideAssignsNothing` | scripts/inspect-all-schema.js:11 | an empty key or empty value assigns nothing |
| `DotEnv.BlankKeyAssignsNothing` | scripts/inspect-all-schema.js:11-12 | the emptiness test runs before trimming: a blank key passes it and asks for the empty name, which leaves the environment unchanged |

## Left out

- Hotspot-account creation, update, deletion and listing (`createUser`, `getAllUsers`, `getServices`, the `/api/users/[username]` handlers) are called from the modelled code but their bodies are not part of this model; `createUser` is an opaque call that returns or throws, and the identity/credential consistency it would keep is not modelled.
- Connection-pool acquire and release, the MySQL driver and SQL text: tables are sequences, queries functions.
- Cookies, `redirect`, `revalidatePath`, `NextResponse` headers, the Blob and download link, React state and rendering.
- JWT encryption and decryption of the session token: the middleware receives the decrypted session, `login` returns the payload.
- Setup, migration and diagnostic scripts (DDL, seeding, network checks).
- `GetDailyNetworkUsage`: entries carry byte sums; the division by 2^30 and `toFixed(2)` rounding to GB is floating point and is left out.
- `GetTopDataUsers`: totals are bytes; the GB figures are the opaque `gb` of the report. Duplicate usernames in `rm_users` (which would multiply the joined rows) are not modelled; the first profile row is used.
- `GetOnlineUsersDetails`: byte counters stay integers (no MB conversion) and the session time is seconds, clamped to the TIME range as TIMEDIFF clamps it, not TIMEDIFF's `hh:mm:ss` text.
- `GetDashboardSummary`: the percentage is computed exactly and rounded half up; the floating-point artefacts of `toFixed` on a double are not modelled.
- `GetInactiveUsers`: ties in `daysInactive` keep table order; SQL leaves their order unspecified.
- `WebUserStore.UpdateWebUser`: absent form fields, which the source writes as NULL, are not modelled (the inputs are strings), so the NOT NULL failure they cause is not either.
- `WebUserStore.CreateWebUser`: a store failure is decided before the uniqueness check; the ordering of two simultaneous failures is not modelled.
- `WebUserStore.UpdateProfile`: a failure after the UPDATE (token signing, cookie write) reports an error although the row has changed; the model's `fault` fails before any write.
- `Login`: a throwing bcrypt comparison is folded into `fault`.
- Auth.FindByUsername: the username is compared exactly, while `WHERE username = ?` under MySQL's default collation also matches other letter case (and, for PAD SPACE collations, trailing spaces); a login as "ADMIN" for the row 'admin' fails in the model and succeeds in the source.
- WebUserStore.CreateWebUser: the UNIQUE check (`UsernameTaken`, `UniqueUsernames`) is exact, so "Admin" beside 'admin' is inserted in the model where the collation reports a duplicate key.
- Schema.FindUser, Schema.LastStart, DashboardData.ActiveUsernames and DashboardData.UsageOf: the username joins compare exactly, where the collation would also join rows differing in letter case or trailing spaces.
- GetLoginTrends (and DashboardData.UsersStartingOn): `COUNT(DISTINCT username)` counts exact username strings; under the default collation 'Bob' and 'bob' starting on one day count once in the source and twice in the model.
- LastSession (and InactiveDetails.SessionsOf, GetInactiveUserDetails' totals): `WHERE username = ?` is matched exactly; under the default collation a 'BOB' session is summed and can be the latest session for 'bob' in the source, not in the model.
- OtherUsersIgnored: its premise `other.username != username` is exact comparison; a session whose username differs only in letter case does change the source's result for that user, so the lemma holds of the source only for usernames that differ beyond letter case.
- Schema.Session: `start` is always present; a NULL `acctstarttime` is not modelled. In the source MAX skips it (Schema.LastStart: a user whose only sessions have a NULL start counts as never connected), ORDER BY ... DESC puts it last (OnlineUsers.OrderedOpen, InactiveDetails.LastSession), and GetInactiveUserDetails reports its last login as null.
- WebUsers.EnumMember: a value names an ENUM member up to ASCII letter case only (Text.Lower); the collation's folding of other letters and accents, and its PAD SPACE match of a value with trailing spaces, are not modelled, so 'admin ' is refused in the model.
- WebUserStore.CreateWebUser: strict SQL mode (the server default) is assumed for the column limits, lengths are counted in characters, and after a failure other than a duplicate key the AUTO_INCREMENT counter is left as it was.
- Text.Lower: only 'A'-'Z' are lowered; `toLowerCase` folds every cased letter ('É' to 'é'), and 'İ' becomes two code units, so the user-table search is case-insensitive only for ASCII letters.
- Text.Trim: only the ASCII white space (space, tab, line feed, carriage return, vertical tab, form feed) is stripped; JavaScript's `trim` also strips the other Unicode white space and U+FEFF, so a `.env` saved with a byte-order mark keeps it in the first key.
- UserModal.ResponseError: a JSON body that is not an object (`null`) when the status is not ok makes `data.error` throw; that message is not modelled apart from other thrown messages.
- GetTopDataUsers, OnlineUsers.OrderedOpen and InactiveDetails.LastSession: ties in the ORDER BY key (and so which tied row LIMIT keeps) follow table order; SQL leaves them unspecified.
- GetInactiveUserDetails: the ISO date text is the total parameter `iso`; `toISOString` throws on an invalid date (such as MySQL's zero date), which the source's catch turns into null.
- UsersRoute.Post: the body is one of the modelled JSON values (no fractions, objects or arrays); a `null` body, for which `body.username` throws and the route answers 500, is not modelled.
- CsvExport.Value: a Date (the inactive-user table passes the `lastLogin` the query returned, which can be one) and a fractional number are not among the modelled values; their `String` text (`Mon Jan 01 2024 10:00:00 GMT+0000 (Coordinated Universal Time)`, `1.5`) holds no ',', '"' or line feed, so they are written unquoted like the modelled numbers.
- CsvExport.Row: `keys` is taken as given; `Object.keys` lists integer-like keys ("0", "42") first in ascending numeric order and then the others in insertion order, and that ordering rule is not derived.
- `formatBytes` of the inactive-user table uses `Math.log`/`Math.pow` and is left out.
- The dashboard page reads `summary.onlineUsers` (src/app/page.tsx:35), which the summary never returns; the top-users card calls its ranking "Last 30 Days" although the query has no window. Both are page code and are not modelled.

## Findings

| source | as written | input that shows it | evidently intended | confidence | as-written member | corrected member |
|---|---|---|---|---|---|---|
| src/components/dashboard/ExportButton.tsx:24-27 | a string value is quoted only when it holds ',' or '"' | one row `{note: "a\nb"}`: the export is `note\na\nb`, three records for a two-line table | quote values holding a line feed too (RFC 4180 section 2, rule 6) so every row stays one record | medium, not executed | `CsvExport.LineFeedSplitsRecord` | `CsvExport.ExportReadsBack` |
