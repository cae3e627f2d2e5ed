/**
 * The two compliance checks of the server that write violations: `POST /check-geo-compliance`
 * (one request, one contract, one country) and `GET /check-expired-contracts` (a scan of all
 * contracts). The geo check charges the contract it records a violation for; the expiry check
 * records a notice per expired contract and charges nothing.
 *
 * The country lookup is a parameter. `env` is the `NOTIFICATION_EMAILS` variable; the
 * handlers mail to `ServerRecipients(env)`, whose gating the model keeps (the mail is not
 * modelled).
 */
module ComplianceApi {
  import opened Wrappers
  import opened Lifecycle
  import opened Records
  import opened Store
  import opened Notify
  import opened Expiry

  /** The ip-api reply: the request failed, or it carried this `countryCode` ("" when none). */
  datatype GeoLookup = LookupFailed | Resolved(countryCode: string)

  datatype ComplianceStatus = Compliant | NonCompliant

  /** The body of a geo check. */
  datatype GeoReport = GeoReport(contractId: string, userIp: string, allowedRegions: seq<string>,
                                 userCountry: string, complianceStatus: ComplianceStatus)

  /** `allowedRegions.includes(userCountry)`: an exact match against a listed region. */
  function GeoStatus(allowedRegions: seq<string>, userCountry: string): (s: ComplianceStatus)
    ensures s == Compliant <==> exists i :: 0 <= i < |allowedRegions| && allowedRegions[i] == userCountry
  {
    if userCountry in allowedRegions then Compliant else NonCompliant
  }

  /** A contract without `allowed_regions` allows no country. */
  lemma NoRegionsNoCompliance(d: Details, userCountry: string)
    requires d.allowedRegions.None?
    ensures GeoStatus(RegionsOf(d), userCountry) == NonCompliant
  {
  }

  /** The record the geo check adds for a contract found out of region. */
  function GeoRecord(contractId: string, userIp: string, userCountry: string, c: Contract, now: int): Violation {
    GeoViolation(contractId, userIp, userCountry, RegionsOf(c.details), TitleOr(c.details, "Unknown"), now)
  }

  /**
   * `POST /check-geo-compliance`. `alerted` are the addresses the violation mail goes to:
   * none unless a violation was recorded.
   */
  method CheckGeoCompliance(db: ContractStore, contractId: string, userIp: string, lookup: GeoLookup,
                            env: Option<string>, now: int)
    returns (r: Result<GeoReport, ApiError>, alerted: seq<string>)
    requires db.Valid()
    modifies db
    ensures db.Valid()
    ensures unchanged(db`ids, db`versions, db`edits, db`settings, db`notifications, db`reports, db`users, db`auditLogs)
    ensures contractId == "" || userIp == "" ==> r == Err(BadRequest)
    ensures contractId != "" && userIp != "" && contractId !in old(db.contracts) ==> r == Err(NotFound)
    ensures contractId != "" && userIp != "" && contractId in old(db.contracts) ==>
              (lookup.LookupFailed? ==> r == Err(InternalError))
              && (lookup == Resolved("") ==> r == Err(BadRequest))
    ensures r.Ok? <==> contractId != "" && userIp != "" && contractId in old(db.contracts)
                       && lookup.Resolved? && lookup.countryCode != ""
    ensures r.Err? ==> unchanged(db) && alerted == []
    ensures r.Ok? ==>
              var c := old(db.contracts[contractId]);
              r.value == GeoReport(contractId, userIp, RegionsOf(c.details), lookup.countryCode,
                                   GeoStatus(RegionsOf(c.details), lookup.countryCode))
    // compliant: nothing is written
    ensures r.Ok? && r.value.complianceStatus == Compliant ==> unchanged(db) && alerted == []
    // out of region: exactly one record, and the contract's count rises by one
    ensures r.Ok? && r.value.complianceStatus == NonCompliant ==>
              var c := old(db.contracts[contractId]);
              && db.violations == old(db.violations) + [GeoRecord(contractId, userIp, lookup.countryCode, c, now)]
              && db.contracts == old(db.contracts)[contractId := c.(violationCount := c.violationCount + 1)]
              && alerted == ServerRecipients(env)
  {
    alerted := [];
    if contractId == "" || userIp == "" {
      return Err(BadRequest), alerted;
    }
    if contractId !in db.contracts {
      return Err(NotFound), alerted;
    }
    var c := db.contracts[contractId];
    var allowedRegions := RegionsOf(c.details);
    if lookup.LookupFailed? {
      return Err(InternalError), alerted;
    }
    var userCountry := lookup.countryCode;
    if userCountry == "" {
      return Err(BadRequest), alerted;
    }
    var status := GeoStatus(allowedRegions, userCountry);
    if status == NonCompliant {
      db.AddCharged(GeoRecord(contractId, userIp, userCountry, c, now), c.(violationCount := c.violationCount + 1));
      alerted := ServerRecipients(env);
    }
    return Ok(GeoReport(contractId, userIp, allowedRegions, userCountry, status)), alerted;
  }

  /** The notices the HTTP check adds for a list of expired entries, written at `now`. */
  function Notices(entries: seq<ExpiredEntry>, now: int): (vs: seq<Violation>)
    ensures |vs| == |entries|
    ensures forall i :: 0 <= i < |entries| ==>
              vs[i] == ExpiryNotice(entries[i].contractId, entries[i].endDate, now)
  {
    if entries == [] then []
    else
      var last := entries[|entries| - 1];
      Notices(entries[..|entries| - 1], now) + [ExpiryNotice(last.contractId, last.endDate, now)]
  }

  /** The list and the notices grow together. */
  lemma NoticesStep(prior: seq<Violation>, expired: seq<ExpiredEntry>, e: ExpiredEntry, now: int)
    ensures prior + Notices(expired + [e], now) == (prior + Notices(expired, now)) + [ExpiryNotice(e.contractId, e.endDate, now)]
  {
    assert (expired + [e])[..|expired|] == expired;
  }

  /** One pass of the scan: a notice for `docs[i]` if its end date parses and is past. */
  method NoticeOne(db: ContractStore, docs: seq<Doc>, i: nat, now: int, ghost base: seq<Violation>,
                   expired: seq<ExpiredEntry>)
    returns (expired': seq<ExpiredEntry>)
    requires db.Valid() && i < |docs| && docs[i].id in db.contracts
    requires expired == ExpiredEntries(docs[..i], now)
    requires db.violations == base + Notices(expired, now)
    modifies db
    ensures db.Valid()
    ensures expired' == ExpiredEntries(docs[..i + 1], now)
    ensures db.violations == base + Notices(expired', now)
    ensures unchanged(db`ids, db`contracts, db`versions, db`edits, db`settings, db`notifications,
                      db`reports, db`users, db`auditLogs)
  {
    ExpiredEntriesStep(docs, i, now);
    var entry := ExpiredEntryOf(docs[i], now);
    expired' := expired;
    if entry.Some? {
      var e := entry.value;
      db.AddNotice(ExpiryNotice(docs[i].id, e.endDate, now));
      NoticesStep(base, expired, e, now);
      expired' := expired + [e];
    }
  }

  /**
   * `GET /check-expired-contracts`: one notice per contract whose end date parses and is
   * past; no contract changes, so no `violationCount` moves.
   */
  method CheckExpiredContracts(db: ContractStore, now: int) returns (expired: seq<ExpiredEntry>)
    requires db.Valid()
    modifies db
    ensures db.Valid()
    ensures expired == ExpiredEntries(old(db.Snapshot()), now)
    ensures db.violations == old(db.violations) + Notices(expired, now)
    ensures unchanged(db`ids, db`contracts, db`versions, db`edits, db`settings, db`notifications,
                      db`reports, db`users, db`auditLogs)
  {
    var docs := db.Snapshot();
    expired := [];
    var i := 0;
    while i < |docs|
      invariant 0 <= i <= |docs|
      invariant db.Valid()
      invariant forall j :: 0 <= j < |docs| ==> docs[j].id in db.contracts
      invariant expired == ExpiredEntries(docs[..i], now)
      invariant db.violations == old(db.violations) + Notices(expired, now)
      invariant unchanged(db`ids, db`contracts, db`versions, db`edits, db`settings, db`notifications,
                          db`reports, db`users, db`auditLogs)
    {
      expired := NoticeOne(db, docs, i, now, old(db.violations), expired);
      i := i + 1;
    }
    assert docs[..|docs|] == docs;
  }
}
