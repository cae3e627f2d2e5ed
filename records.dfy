/**
 * The documents of the Firestore collections `contracts` (with its `versions` and `edits`
 * subcollections), `violations`, `settings`, `notifications`, `reports`, `users` and
 * `audit_logs`, as values.
 *
 * A string field that may be missing is written "" when missing: its uses in the handlers
 * go through `||` or a truthiness test, where "" and a missing value behave alike. The one
 * exception is the `clauseContent` of a clause edit, which is written into the edit record
 * as it came; the handler takes it as an Option, and an edit record holds it only when it
 * was present. An array field that may be missing or not an array is an Option.
 */
module Records {
  import opened Wrappers
  import opened Lifecycle

  /** `contractDetails`, the JSON object the text extractor returns. */
  datatype Details = Details(
    title: string,
    parties: Option<seq<string>>,
    allowedRegions: Option<seq<string>>,
    startDate: DateField,
    endDate: DateField)

  /** `contractDetails.title || fallback`. */
  function TitleOr(d: Details, fallback: string): (t: string)
    ensures d.title != "" ==> t == d.title
    ensures d.title == "" ==> t == fallback
  {
    if d.title == "" then fallback else d.title
  }

  /** `contractDetails.allowed_regions || []`. */
  function RegionsOf(d: Details): seq<string> {
    d.allowedRegions.GetOr([])
  }

  /** `contractDetails.parties || []`. */
  function PartiesOf(d: Details): seq<string> {
    d.parties.GetOr([])
  }

  /** `lastEditType` and `lastEditClause`, set by a clause edit. */
  datatype LastEdit = LastEdit(editType: string, clauseType: string)

  /** A document of `contracts`. Timestamps are the server time of the write. */
  datatype Contract = Contract(
    details: Details,
    originalText: string,
    timestamp: int,
    violationCount: nat,
    versionCount: nat,
    expiryViolationRecorded: bool,
    expiryViolationTimestamp: Option<int>,
    lastEdit: Option<LastEdit>)

  /** The document `/analyze-contract` adds for a contract without an id. */
  function NewContract(details: Details, text: string, now: int): (c: Contract)
    ensures c.versionCount == 1 && c.violationCount == 0
    ensures c.details == details && c.originalText == text && c.timestamp == now
    ensures !c.expiryViolationRecorded && c.lastEdit.None?
  {
    Contract(details, text, now, 0, 1, false, None, None)
  }

  /** One document of a query snapshot of `contracts`: `doc.id` and `doc.data()`. */
  datatype Doc = Doc(id: string, contract: Contract)

  /** No two documents of a snapshot share an id. */
  predicate DistinctIds(docs: seq<Doc>) {
    forall i, j :: 0 <= i < j < |docs| ==> docs[i].id != docs[j].id
  }

  /** A document of `contracts/{id}/versions`: the state before an update. */
  datatype Version = Version(
    contractDetails: Details,
    originalText: string,
    timestamp: int,
    versionCreatedAt: int,
    editReason: Option<string>)

  /** The version record written before an update of `c` at time `now`. */
  function SnapshotOf(c: Contract, now: int, reason: Option<string>): (v: Version)
    ensures v.contractDetails == c.details && v.originalText == c.originalText
    ensures v.timestamp == c.timestamp && v.versionCreatedAt == now && v.editReason == reason
  {
    Version(c.details, c.originalText, c.timestamp, now, reason)
  }

  /** A document of `contracts/{id}/edits`. */
  datatype Edit = Edit(
    editType: string,
    clauseType: string,
    clauseContent: string,
    timestamp: int,
    performedBy: string)

  /**
   * A document of `violations`. The three writers store different fields:
   *  - the geo check: `type: "geo-compliance"` and `violationTimestamp`;
   *  - the HTTP expiry check: `reason` and `timestamp`, and no `type`;
   *  - the scheduled sweep: `type: "expiry"`, `reason` and `timestamp`.
   */
  datatype Violation =
    | GeoViolation(contractId: string, userIp: string, userCountry: string,
                   allowedRegions: seq<string>, contractTitle: string, violationTimestamp: int)
    | ExpiryNotice(contractId: string, endDate: int, timestamp: int)
    | ExpiryViolation(contractId: string, endDate: int, timestamp: int)

  /** The stored `type` field, None where the writer sets none. */
  function TypeField(v: Violation): (t: Option<string>)
    ensures t.None? <==> v.ExpiryNotice?
  {
    match v
    case GeoViolation(_, _, _, _, _, _) => Some("geo-compliance")
    case ExpiryNotice(_, _, _) => None
    case ExpiryViolation(_, _, _) => Some("expiry")
  }

  /** The stored `violationTimestamp`, which only the geo check writes. */
  function ViolationTimestampField(v: Violation): (t: Option<int>)
    ensures t.Some? <==> v.GeoViolation?
  {
    if v.GeoViolation? then Some(v.violationTimestamp) else None
  }

  /** The stored `timestamp`, which only the two expiry writers set. */
  function TimestampField(v: Violation): (t: Option<int>)
    ensures t.Some? <==> !v.GeoViolation?
  {
    if v.GeoViolation? then None else Some(v.timestamp)
  }

  /** The records whose writer also increments the contract's `violationCount`. */
  predicate Charged(v: Violation) {
    v.GeoViolation? || v.ExpiryViolation?
  }

  /** The records written by the scheduled sweep. */
  predicate SweepRecord(v: Violation) {
    v.ExpiryViolation?
  }

  /**
   * The document `settings/notifications`. A flag that is missing or falsy is false, a
   * missing or zero `expiryWarningDays` is 0, a missing `notificationEmails` is [].
   */
  datatype NotificationSettings = NotificationSettings(
    enableExpiryAlerts: bool,
    enableWeeklySummary: bool,
    expiryWarningDays: int,
    notificationEmails: seq<string>)

  /** A document of `notifications`, of type `expiry_warning`. */
  datatype Notification = ExpiryWarning(contractIds: seq<string>, warningDays: int, sentAt: int)

  /** The `stats` of a weekly report. */
  datatype WeeklyStats = WeeklyStats(
    totalContracts: nat,
    activeContracts: nat,
    expiredContracts: nat,
    complianceRate: int,
    weeklyViolations: nat,
    newlyExpiredContracts: nat)

  /** A document of `reports`, of type `weekly`. */
  datatype Report = WeeklyReport(sentAt: int, recipients: seq<string>, stats: WeeklyStats)

  /** A document of `users`; `updatedBy`/`updatedAt` are set by a role update. */
  datatype UserProfile = UserProfile(
    email: string,
    displayName: string,
    role: string,
    updatedBy: Option<string>,
    updatedAt: Option<int>)

  /** What an audit log entry records. */
  datatype AuditAction =
    | ApiAccess(endpoint: string, httpMethod: string, userIp: string)
    | RoleChange(targetUserId: string, oldRole: string, newRole: string)  // "UPDATE_USER_ROLE"

  /** A document of `audit_logs`; `timestamp` may be missing. */
  datatype AuditEntry = AuditEntry(userId: string, userEmail: string, action: AuditAction, timestamp: Option<int>)

  /** A date query parameter: not given, given but not a date, or this instant. */
  datatype DateParam = NoDate | BadDate | OnDate(ms: int)

  /**
   * What the text extractor's reply amounts to: the request failed (the handler's catch,
   * a 500), the reply was not JSON, or it parsed to these details.
   */
  datatype Extraction = RequestFailed | Unparseable | Parsed(details: Details)

  /** The error responses of the handlers, by cause. */
  datatype ApiError =
    | BadRequest           // 400
    | NotFound             // 404
    | InvalidJsonResponse  // 500 "Invalid JSON response"
    | InternalError        // 500 from the catch around the handler
}
