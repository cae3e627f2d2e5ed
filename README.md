# Content-Rights-AI compliance rule engine in Dafny

Content-Rights-AI stores licensing contracts. For each one it keeps the details a language
model extracted from the text: title, parties, allowed regions, and start and end dates. Around
that store it runs a set of compliance rules:

- Role-based authorization guards every route.
- Contracts are listed as active or expired, counted in an overview and rated in a compliance
  rate.
- A geo check records a violation when a request comes from a country a contract does not allow.
- Two expiry checks record violations for contracts past their end date: an HTTP route and a
  scheduled sweep.
- Re-analysing a contract or editing one of its clauses first stores a version snapshot.
- Contracts can be searched, filtered, sorted and limited.
- A compliance report groups a date window's violations by contract, as JSON or CSV.
- Scheduled jobs warn about contracts nearing expiry and mail a weekly summary.
- The audit log list can be filtered by an end date.

This project models that engine over an in-memory store and proves what the rules promise.

The modules follow the program:

| module | models |
|---|---|
| `Auth` | the role table and the permission check |
| `Lifecycle` | how an `end_date` is read at each site; the derived day counts and the compliance rate |
| `Records` | the stored documents |
| `Store.ContractStore` | the Firestore collections as one class, with the invariant the writes keep: `violationCount` equals the number of charged ledger records |
| `Notify` | recipient and settings gating |
| `Expiry` | the expiry selection shared by both expiry checks |
| `Dashboard` | the listings and the overview |
| `ComplianceApi` | the geo check and the HTTP expiry check |
| `ContractApi` | `analyze-contract` and `edit-contract-clause` |
| `Search` | `search-contracts` |
| `Report` | `export-compliance-report` |
| `Users` | the role update and the audit-log filter |
| `ScheduledJobs` | the three scheduled functions |

`Seqs` and `Text` hold generic sequence and string helpers.

## How the model reads the code

The sites disagree about some data. The model keeps each site's own reading.

- **End dates.** A stored `end_date` is one of four things: absent (or ""), `null`, a string
  that does not parse, or an instant (`Lifecycle.DateField`).
  - The listings and the overview test the field first, so `null` counts as no date.
  - Both expiry checks and the weekly "newly expired" count call `new Date(end_date)` without
    that test, so `null` is the epoch and counts as past.
  - An unparsable date is neither active nor expired in the listings. The overview counts it as
    expired. The expiry checks skip it.
  - `Lifecycle.ListingsClassify` and `Lifecycle.SweepVersusListing` prove these differences.
- **Timestamps on violations.** Each writer uses its own timestamp field.
  - The geo check writes `violationTimestamp`.
  - Both expiry writers write `timestamp`.
  - So the overview's "recent", and the report window, see only geo records: both query
    `violationTimestamp`. The weekly count sees only expiry records: it queries `timestamp`.
- **Charging.** The sweep and the geo check increment `violationCount`. The HTTP expiry check
  does not.
  - The sweep sets no guard against running again, so a second run charges the same contract
    again (`ScheduledJobs.SweepTwiceChargesTwice`).
- **Recipients.** The server's handlers read `NOTIFICATION_EMAILS` only when it is non-empty.
  The jobs use `?.split(',')`, so an empty variable becomes the one address `""`
  (`Notify.RecipientsDisagreeOnlyOnEmpty`).
- **Failed edits.** `edit-contract-clause` writes its version snapshot before it validates the
  edit. An edit that fails afterwards leaves that version behind, and `versionCount` does not
  move.
  - A remove does not test `clauseContent`. Sent without it, the remove rewrites the contract
    (and raises `versionCount`), and then the edit record fails: its `clauseContent` is
    `undefined`, which Firestore refuses. The answer is 500, and no edit record is written.
    A `null` content is stored as it is and is read as "" here.
- **Near-expiry notices.** The send helper reports failure by returning `false`. The
  near-expiry job ignores that value, so its `notifications` record is written whether or not
  the mail went out. The weekly job writes its `reports` record only after a successful send.
- **Title fallbacks.**
  - The listings, the report and search use "Untitled Contract".
  - The geo record and the expiry lists use "Unknown".
  - The mails use "Unknown Contract".
- **CSV.** CSV fields are written without escaping (`Report.CsvLine`).
- **The report start date.** `export-compliance-report` moves its start back 30 days whether
  or not a start date was given, so a given date opens the window 30 days early
  (`Report.WindowBounds`).
- **Contract order.** A query without `orderBy` returns documents in id order, and `add()`
  picks a random id. So a new contract takes its place in that order, not at the end
  (`Store.ContractStore.AddContract`). The listings, the report, the CSV and the near-expiry
  ids follow it, and so do ties in the search sort.
- **The report window** uses `violationTimestamp`, so expiry records never appear in a report
  (`Report.WindowHoldsOnlyGeoRecords`).

## Model

| member | source | states |
|---|---|---|
| Auth.RoleNameRoundTrip | server.js:109-113 | the three role names and the roles correspond one to one |
| Auth.EffectiveRoleName | server.js:163 | a missing stored role is read as "viewer"; a present one is kept |
| Auth.UserPermissionsByRole | server.js:164 | the permissions are the table entry of the role; an unknown role gets exactly `read` |
| Auth.Authorize | server.js:185-209 | a request passes iff every required permission is granted; an empty requirement always passes |
| Auth.AuthorizeMonotone | server.js:195-197 | granting more permissions never turns a pass into a refusal |
| Auth.RolesNest | server.js:115-119 | viewer ⊆ editor ⊆ admin in the permission table |
| Auth.RouteAccess | server.js:300 | on every guarded route, a user passes iff their role ranks at least the route's minimum role |
| Auth.AuthorizeOne | server.js:194-197 | a one-permission requirement passes iff that permission is granted |
| Auth.ValidateNewRole | server.js:305-310 | a role update accepts exactly "admin", "editor" and "viewer", whose permissions are that role's row |
| Lifecycle.UnguardedDate | functions.js:80 | `new Date(end_date)` gives an instant for a date and for `null` (the epoch), and none otherwise |
| Lifecycle.ListingsClassify | server.js:1054-1058 | for `ListedActive` (no date, `null`, or a date not before now, server.js:1058) and `ListedExpired` (a date before now, server.js:1098): no contract is both; a contract is neither iff its date does not parse; the overview counts exactly those two kinds as expired |
| Lifecycle.SweepVersusListing | functions.js:76-81 | `SweepExpired` (`new Date(end_date)` parses and is before now, functions.js:78-80) holds iff the listing shows the contract as expired, or its date is `null` |
| Lifecycle.NearExpiryDisjointFromSweep | functions.js:183-200 | for `NearExpiry` (a date after now and at most the warning days ahead, functions.js:193-198): no contract is both nearing expiry and selected by the sweep |
| Lifecycle.DaysExpired | server.js:1106 | `Math.floor` of the elapsed days: the whole days elapsed, and ≥ 0 once past |
| Lifecycle.DaysUntil | functions.js:204 | `Math.ceil` of the remaining days: ≥ 1 while in the future, and no more than any whole-day bound on the remaining time |
| Lifecycle.ComplianceRate | server.js:1217-1219 | 100 with no contracts; otherwise the share without violations rounded half up, between 0 and 100 |
| Lifecycle.RoundedShare | server.js:1218 | the rounding of `(total - with) / total * 100` to the nearest integer, with halves rounded up |
| Lifecycle.ComplianceRateAntitone | functions.js:337-339 | more contracts with violations never raise the rate |
| Lifecycle.DaysExpiredExample | functions.js:122 | four years (2020-01-01 to 2024-01-01) are 1461 days expired |
| Notify.ServerRecipients | server.js:604-606 | the handlers mail nobody iff `NOTIFICATION_EMAILS` is unset or empty; otherwise its comma-separated parts |
| Notify.JobRecipients | functions.js:63-65 | non-empty stored emails win; otherwise the environment's parts; nobody iff neither is set |
| Notify.RecipientsDisagreeOnlyOnEmpty | functions.js:175 | the jobs and the handlers pick the same recipients from the environment, except for the empty string, which the jobs read as one empty address |
| Notify.WarningDays | functions.js:172 | the warning window is the stored number, or 30 when it is missing, 0 or there are no settings |
| Records.TitleOr | server.js:1061 | the stored title when non-empty, the site's fallback otherwise |
| Records.NewContract | server.js:483-492 | a new contract is version 1 with no violations, no edit and no expiry mark |
| Records.SnapshotOf | server.js:860-866 | a version holds the prior details, text and timestamp, the time it was made and the edit reason |
| Records.TypeField | server.js:664-670 | only the HTTP expiry notice has no `type` field |
| Records.ViolationTimestampField | server.js:1246-1248 | only geo records carry `violationTimestamp` |
| Records.TimestampField | functions.js:314-316 | only the expiry records carry `timestamp` |
| Store.DocsOf | server.js:1046 | a snapshot lists each stored contract under its id, in the order of the ids |
| Store.IdPosition | server.js:483 | a new id goes after every stored id that does not sort after it, and before the first one that does |
| Store.InsertByIdAt | server.js:483 | the new id sits at its position, the ids before it keep their places and the ids after it move up by one |
| Store.InsertByIdContents | server.js:483 | inserting a new id adds exactly that id |
| Store.BeforeInsertionPoint | server.js:483 | every stored id placed before a new id sorts before it |
| Store.InsertByIdOrdered | server.js:483 | ids in document-id order stay in that order when a new id is inserted |
| Store.OrderedDistinct | server.js:1046 | ids in document-id order are distinct |
| Store.IdBeforeTotal | server.js:1046 | two different ids are always ordered one way or the other |
| Store.IdBeforeTransitive | server.js:1046 | document-id order is transitive |
| Store.IdBeforeIrreflexive | server.js:1046 | no id sorts before itself |
| Store.CountWhereAppend | server.js:586-600 | appending a record adds one to the count of its contract iff it matches |
| Store.CountWhereUnnamed | server.js:483-492 | a contract no record names has a count of zero |
| Store.ContractStore.constructor | server.js:483-492 | an empty store with the given settings and users |
| Store.ContractStore.Snapshot | server.js:1046 | `contracts.get()`: every stored document, in document-id order |
| Store.ContractStore.AddVersion | server.js:460-466 | appends one version to the contract's history; nothing else changes |
| Store.ContractStore.AddEdit | server.js:1020-1026 | appends one edit record to the contract's history; nothing else changes |
| Store.ContractStore.AddNotification | functions.js:238-247 | appends one notification record |
| Store.ContractStore.AddReport | functions.js:379-395 | appends one weekly report record |
| Store.ContractStore.PutUser | server.js:320-324 | replaces one user profile |
| Store.ContractStore.AddAuditEntry | server.js:327-335 | appends one audit entry |
| Store.ContractStore.UpdateContract | server.js:470-482 | replaces one contract, keeping the violation count in step with the ledger |
| Store.ContractStore.AddContract | server.js:483-492 | adds a contract under a fresh id, placed in document-id order before the first stored id that sorts after it |
| Store.ContractStore.AddNotice | server.js:663-670 | appends an uncharged record; no contract changes |
| Store.ContractStore.AddCharged | server.js:586-600 | appends a charged record and the contract with its count one higher, together |
| Store.ReplacePreserves | server.js:1010-1017 | a contract replaced with the same counts keeps the store consistent |
| Store.AddVersionPreserves | server.js:460-466 | a version append keeps each contract's version count within its history |
| Store.AddEditPreserves | server.js:1020-1026 | an edit append keeps the store consistent |
| Store.AddContractPreserves | server.js:483-492 | a new contract with no violations keeps the store consistent |
| Store.AppendUnchargedPreserves | server.js:663-670 | an uncharged notice leaves every count matching the ledger |
| Store.AppendChargedPreserves | functions.js:88-101 | a charged record together with a count one higher keeps every count matching the ledger |
| Dashboard.ActiveListExactly | server.js:1054-1069 | the active listing holds exactly the contracts with no date or a date not before now, and it is as long as the overview's `activeContracts` |
| Dashboard.ActiveContracts | server.js:1042-1079 | the loop builds that listing, in store order |
| Dashboard.ExpiredListEntryOf | server.js:1099-1107 | an expired entry's `daysExpired` is never negative |
| Dashboard.ExpiredList | server.js:1094-1107 | no entry of the expired listing has negative `daysExpired` |
| Dashboard.ExpiredListExactly | server.js:1094-1107 | the expired listing holds exactly the contracts dated before now |
| Dashboard.ExpiredContracts | server.js:1082-1117 | the loop builds that listing, in store order |
| Dashboard.ListingsDisjoint | server.js:1058 | no contract is in both listings, and one with an unparsable date is in neither |
| Dashboard.ActivePlusExpired | server.js:1186-1190 | the overview's active and expired counts add up to the total |
| Dashboard.CountWithViolations | server.js:1193 | at most every contract has violations |
| Dashboard.WithViolationsAtMostTotal | server.js:1193-1196 | `contractsWithViolations ≤ totalViolations`, and one is 0 iff the other is |
| Dashboard.ComplianceOverview | server.js:1163-1223 | every counter of the overview, active + expired = total, and a rate in [0, 100]; `recentViolations` is `CountRecent`, the records whose `violationTimestamp` is at most 30 days old (server.js:1199-1205) |
| Dashboard.SumChargedAppend | server.js:586-600 | one record raises the per-contract sum by one for each holder of its id |
| Dashboard.SumChargedIsCharged | server.js:1195 | over distinct ids that cover the ledger, the per-contract sum is the number of charged records |
| Dashboard.SumChargedEmpty | server.js:1195 | an empty ledger sums to 0 |
| Dashboard.SumViolationsOfSnapshot | server.js:1195 | `totalViolations` is the sum of the per-contract ledger counts |
| Dashboard.TotalViolationsIsLedger | server.js:1193-1196 | in a consistent store, `totalViolations` equals the number of charged records in the ledger |
| Expiry.ExpiredEntryOf | server.js:657-661 | a contract is listed iff its unguarded end date is before now, with that date and its id |
| Expiry.ExpiredEntriesStep | server.js:653-662 | the shared scan grows by one document at a time |
| Expiry.ExpiredEntriesExactly | functions.js:76-86 | the expiry scan lists exactly the selected contracts |
| ComplianceApi.GeoStatus | server.js:583 | compliant iff the country is one of the allowed regions, exactly as written |
| ComplianceApi.NoRegionsNoCompliance | server.js:570 | a contract without allowed regions allows no country |
| ComplianceApi.CheckGeoCompliance | server.js:546-640 | the order of the 400/404/500 checks; compliant writes nothing; out of region appends one record and raises the count by one; mail only then |
| ComplianceApi.Notices | server.js:663-669 | one notice per expired entry, with its id, date and the check time |
| ComplianceApi.NoticesStep | server.js:663-669 | the notices grow with the expired list |
| ComplianceApi.NoticeOne | server.js:656-670 | one document of the scan: a notice iff it is expired |
| ComplianceApi.CheckExpiredContracts | server.js:643-704 | one notice per expired contract, and no contract (so no count) changes |
| ContractApi.AnalyzeContract | server.js:378-500 | the order of the checks (`FormatAccepted`: no format, or one of text, pdf and docx, server.js:395-396) and nothing written on error; an update stores the prior state as a version, replaces details and text and adds one to `versionCount`; a new contract starts at version 1 with no violations |
| ContractApi.EditContractClause | server.js:842-1026 | 400/404 write nothing; `EditAccepted` is the `switch` of server.js:872-961 (add and edit need content, remove does not, anything else is 400); the snapshot is written once the contract is found, even if the edit then fails; the contract is rewritten iff the edit passes and both requests answer (`Rewritten`); a remove without `clauseContent` is then 500 with no edit record, because Firestore refuses the `undefined` field; success replaces the text, keeps or replaces the details, adds one version and one edit record |
| ScheduledJobs.Charge | functions.js:95-100 | one more violation, the expiry mark set at the run time, details and versions kept |
| ScheduledJobs.SweptContracts | functions.js:76-103 | the sweep keeps the set of contracts |
| ScheduledJobs.SweepRecords | functions.js:88-94 | one `expiry_violation` record per expired entry |
| ScheduledJobs.SweepTwiceChargesTwice | functions.js:95-100 | a second sweep charges an expired contract again |
| ScheduledJobs.SweepLeavesOthers | functions.js:80 | a contract the sweep does not select is unchanged |
| ScheduledJobs.ExpiryMailRows | functions.js:122 | each mailed row shows the entry's title and a non-negative day count |
| ScheduledJobs.SweptAlongAt | functions.js:77-101 | with distinct ids, the loop charges each selected contract exactly once |
| ScheduledJobs.SweptAlongAll | functions.js:77-101 | the loop's effect is the whole-store sweep |
| ScheduledJobs.SweptAlongKeys | functions.js:77-101 | the loop adds no contract |
| ScheduledJobs.SnapshotCovers | functions.js:76 | the snapshot holds every stored contract once, as stored |
| ScheduledJobs.SweepOne | functions.js:78-101 | one document: a record and a charge iff it is selected |
| ScheduledJobs.SweepRecordsStep | functions.js:88-94 | the records grow with the expired list |
| ScheduledJobs.SweepContracts | functions.js:76-103 | one record and one charge per selected contract, nothing else |
| ScheduledJobs.CheckExpiredContracts | functions.js:47-150 | disabled alerts change nothing; otherwise the sweep is done whether or not there are recipients, and mail goes out iff both lists are non-empty |
| ScheduledJobs.NearEntryOf | functions.js:195-205 | listed iff dated after now and within the warning window, with at least one day to go |
| ScheduledJobs.NearEntriesExactly | functions.js:190-206 | the near-expiry list holds exactly the contracts in the window |
| ScheduledJobs.NearAndExpiredDisjoint | functions.js:195 | no contract is both nearing expiry and swept |
| ScheduledJobs.NearIds | functions.js:244 | the notification lists the ids of the near entries, in order |
| ScheduledJobs.ScanNearing | functions.js:190-206 | the loop builds that list |
| ScheduledJobs.CheckContractsNearingExpiry | functions.js:153-262 | disabled alerts or no recipients change nothing; otherwise one notification iff the list is non-empty |
| ScheduledJobs.CountNewlyExpired | functions.js:321-330 | at most every contract is newly expired |
| ScheduledJobs.WeeklyStatistics | functions.js:288-339 | every weekly counter; active + expired = total; a rate in [0, 100] |
| ScheduledJobs.SendWeeklyComplianceReport | functions.js:265-410 | disabled or no recipients change nothing; otherwise the statistics, and a `reports` record iff the send succeeded |
| Search.FieldFromName | server.js:1340 | no field means "all"; a given field is accepted iff it is one of the four names |
| Search.LimitFromParam | server.js:1343 | no limit means 20; a given limit is accepted iff it is in 1..100 |
| Search.NoQueryMatchesAll | server.js:1364 | with no query, every contract passes `TextMatch`, the text test of server.js:1364-1410 |
| Search.BlankQueryMatchesNothing | server.js:1366-1368 | a whitespace-only query matches nothing |
| Search.TextMatchIgnoresCase | server.js:1368 | the text test does not depend on the query's letter case |
| Search.AllIsAnyField | server.js:1394-1409 | "all" matches iff the title, a party or a region matches |
| Search.UndatedContractsKept | server.js:1415-1433 | `DatesKept` drops a contract only for a parsed start before `startDate` or a parsed end after `endDate`, so it never drops a contract without dates |
| Search.RowOf | server.js:1436-1447 | a result row carries the contract's id, timestamp and title or fallback |
| Search.FilteredExactly | server.js:1360-1448 | the matched rows are exactly those of the contracts passing both tests |
| Search.FilteredStep | server.js:1360-1448 | the matches grow by one document at a time |
| Search.FilterContracts | server.js:1360-1448 | the loop builds the matched rows, in store order |
| Search.Insert | server.js:1451 | inserting adds one row and keeps or replaces the head |
| Search.InsertSorted | server.js:1451 | inserting into a newest-first list keeps it newest first |
| Search.InsertAfter | server.js:1451 | a row no older than the head can go in front |
| Search.InsertPermutes | server.js:1451 | inserting adds exactly that row |
| Search.NewestFirstSort | server.js:1451 | the sort keeps the number of rows |
| Search.SortSortsAndPermutes | server.js:1451 | the sort gives a newest-first permutation of the matches |
| Search.Take | server.js:1452 | the slice is the first `min(n, limit)` rows |
| Search.SearchContracts | server.js:1335-1458 | 400 iff a parameter is bad; otherwise the newest matches up to the limit, newest first, with their count |
| Search.TakeKeepsOrder | server.js:1452 | the slice stays newest first |
| Search.ResultIsMostRecent | server.js:1451-1452 | every result is a match, and no omitted match is newer than a returned one |
| Report.WindowBounds | server.js:1236-1240 | without dates the window is the 30 days up to now; a given start date is moved back 30 days too |
| Report.Windowed | server.js:1245-1248 | the window holds exactly the records whose `violationTimestamp` is in range |
| Report.WindowHoldsOnlyGeoRecords | server.js:1246-1247 | only geo records can be in a report window |
| Report.EntryOf | server.js:1281-1285 | a geo record's entry is its type, country and timestamp |
| Report.EntriesFor | server.js:1275-1287 | a contract's entries come from the window |
| Report.EntriesForStep | server.js:1275-1287 | the grouping takes one record at a time |
| Report.RowWith | server.js:1258-1270 | a row carries the contract's id, count, fallback title and grouped entries; its dates stay the stored `DateField` (the handler sends the stored value or `null`, a rendering not modelled) |
| Report.ReportRows | server.js:1254-1287 | one row per contract, in order, each with its own grouped entries |
| Report.CollectRows | server.js:1252-1287 | the two loops and the id map build exactly those rows |
| Report.StartRows | server.js:1254-1272 | the first loop gives each contract an empty row and its index in the map |
| Report.SkipEntry | server.js:1277 | a record for an unknown contract is dropped |
| Report.AddEntry | server.js:1277-1286 | a record for a known contract goes into that row only |
| Report.RowsWithViolationsAgree | server.js:1298 | the report's `contractsWithViolations` equals the overview's |
| Report.TotalListedIsListedFor | server.js:1275-1287 | the rows list the records naming their contracts |
| Report.ListedForStep | server.js:1275-1287 | one record is listed once iff its contract is known |
| Report.EveryRecordListedOnce | server.js:1275-1287 | the rows list each record of a known contract exactly once |
| Report.ListedForAll | server.js:1275-1287 | the listed total counts the records of known contracts |
| Report.ListedForEmpty | server.js:1275-1287 | an empty window lists nothing |
| Report.KnownCountAll | server.js:1277 | when every record names a known contract, all are counted |
| Report.BuildCsv | server.js:1306-1314 | the CSV is the header followed by one line per row |
| Report.CsvStep | server.js:1309-1311 | the CSV grows by one line per row |
| Report.CsvLineBreaks | server.js:1310 | a row with no line break in its fields is one CSV line |
| Report.CsvLines | server.js:1306-1314 | n such rows give exactly n + 1 lines |
| Report.HeaderIsOneLine | server.js:1307 | the header is one line |
| Report.CsvBodyLines | server.js:1309-1311 | the body has one line per row |
| Report.ExportComplianceReport | server.js:1232-1323 | 500 iff a date does not parse; otherwise JSON or CSV of the rows. Every window record is listed once under its contract, and the `contractsWithViolations` count matches the overview's |
| Report.SnapshotDistinct | server.js:1254 | the snapshot's ids are distinct |
| Report.WindowNamesKnown | server.js:1277 | every record in the window names a stored contract |
| Users.UpdateUserRole | server.js:300-340 | an unknown role is 400 and an unknown user 404, both without writes; otherwise the new role, who set it and when, plus one audit entry with the old and the new role |
| Users.KeptLogs | server.js:1512-1520 | the filter never adds entries |
| Users.KeptLogsExactly | server.js:1512-1520 | exactly the entries not `AfterEnd` (a timestamp later than the end date, server.js:1515) are kept; an entry without a timestamp is kept; no end date keeps all |
| Users.FilterAuditLogs | server.js:1512-1531 | the loop builds that list, and `total` is its length |
| Text.ToLower | server.js:1368 | lower-casing keeps the length |
| Text.ToLowerIdempotent | server.js:1368 | lower-casing twice is lower-casing once |
| Text.ToLowerHasNoUpperCase | server.js:1368 | the result has no upper-case letter |
| Text.BlankIgnoresCase | server.js:1366 | a string is blank iff its lower-case form is |
| Text.ContainsAt | server.js:1372 | a needle found at any position is contained |
| Text.ContainedIsShorter | server.js:1372 | a contained needle is no longer than the text |
| Text.Split | server.js:605 | a split yields at least one part |
| Text.JoinSplit | server.js:605 | joining the parts with the separator gives back the variable |
| Text.SplitPiecesLackSeparator | server.js:605 | no part holds the separator |
| Text.CountCharAppend | server.js:1310 | line breaks add up over concatenation |
| Text.CountCharAbsent | server.js:1310 | a string without the character has none of it |
| Text.NatToString | server.js:1310 | a count is printed as a non-empty string of digits |
| Text.ParseNatToString | server.js:1310 | the printed count reads back as the same number |

## Left out

- The language-model call, the ip-api lookup and the mail transport are not modelled.
  - The analysis result, the re-extraction, the country lookup and the send outcome are
    parameters.
  - Their prompts, the HTML of the mails and the JSON/code-fence stripping are not modelled.
- Express middleware and rate limiting are not modelled. The validators of `search-contracts`
  (field, limit, ISO dates) are modelled as its 400s; the other routes' validators are not. The
  checks the handlers make themselves are.
- `authenticateUser` is not modelled: token verification, profile creation and the
  `API_ACCESS` audit entry it writes. The role it reads is an input.
- Routes outside the rule engine are not modelled: `GET /violations`,
  `GET /check-geo-compliance/:id`, `/clause-recommendations`, `/notification-settings` (its
  body is empty), `GET /users` and the `/auth` routes.
- Firestore mechanics are reduced to the data they return:
  - query ordering and limits in `audit-logs`; the window query of the report is a filter;
  - `serverTimestamp()` is a parameter `now`;
  - `FieldValue.increment` is modelled as a plain read and write, not an atomic one;
  - writes the source does not await are modelled as done;
  - there is no concurrency.
- Times are integers of milliseconds.
  - `setDate` calendar arithmetic is modelled as whole days of 86,400,000 ms, so daylight-saving
    shifts are out.
  - ISO strings and their rendering are out.
  - An unparsable stored date is `Invalid`.
  - A contract with an unusable stored `timestamp` is out of scope for the search sort.
- Lifecycle.ComplianceRate: uses exact rational rounding, not floating point, so the
  floating-point rounding of a `.5` boundary is not modelled.
- Store.IdBefore: compares ids by character code. Firestore compares UTF-8 bytes, and the two
  orders differ only for ids outside the Basic Multilingual Plane; auto-generated ids are
  alphanumeric. The id `add()` generates is a parameter.
- Text.ToLower: folds only ASCII letters, unlike JavaScript's full Unicode `toLowerCase`.
- `Text.IsBlank` treats as whitespace the common ASCII blanks, no-break space and the BOM, not
  every Unicode space.
- A non-array `parties` or `allowed_regions` value is treated as absent.
- Report.EntryOf: keeps the type, country and timestamp of a record, not its document id.
- ComplianceApi.CheckExpiredContracts: the per-contract mail of the HTTP check is not modelled
  (its recipients are `Notify.ServerRecipients`).
- The mail of the geo check is modelled only as the list of recipients it goes to.
