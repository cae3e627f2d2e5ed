/**
 * The scheduled jobs: `checkExpiredContracts` (the daily expiry sweep),
 * `checkContractsNearingExpiry` (the daily warning) and `sendWeeklyComplianceReport`.
 *
 * Each reads `settings/notifications` from the store and the `NOTIFICATION_EMAILS` variable
 * (`env`). The mails themselves are not modelled; what is kept is whether one is attempted
 * and to whom, and every store write. `sendOk` is what the weekly report's send returned.
 */
module ScheduledJobs {
  import opened Wrappers
  import opened Lifecycle
  import opened Records
  import opened Store
  import opened Notify
  import opened Expiry
  import opened Dashboard

  /** The update the sweep makes to a contract it selects. */
  function Charge(c: Contract, now: int): (c': Contract)
    ensures c'.violationCount == c.violationCount + 1
    ensures c'.expiryViolationRecorded && c'.expiryViolationTimestamp == Some(now)
    ensures c'.details == c.details && c'.versionCount == c.versionCount
  {
    c.(violationCount := c.violationCount + 1, expiryViolationRecorded := true, expiryViolationTimestamp := Some(now))
  }

  /** The contracts after a sweep at `now`: every selected one charged once, the rest as they were. */
  function SweptContracts(cs: map<string, Contract>, now: int): (cs': map<string, Contract>)
    ensures cs'.Keys == cs.Keys
  {
    map k | k in cs :: if SweepExpired(cs[k].details.endDate, now) then Charge(cs[k], now) else cs[k]
  }

  /** The records the sweep adds for its expired list, written at `now`. */
  function SweepRecords(entries: seq<ExpiredEntry>, now: int): (vs: seq<Violation>)
    ensures |vs| == |entries|
    ensures forall i :: 0 <= i < |entries| ==>
              vs[i] == ExpiryViolation(entries[i].contractId, entries[i].endDate, now)
  {
    if entries == [] then []
    else
      var last := entries[|entries| - 1];
      SweepRecords(entries[..|entries| - 1], now) + [ExpiryViolation(last.contractId, last.endDate, now)]
  }

  /**
   * The sweep never looks at `expiryViolationRecorded`: a second run on the same contracts
   * charges every selected contract again.
   */
  lemma SweepTwiceChargesTwice(cs: map<string, Contract>, now: int, later: int, k: string)
    requires k in cs && SweepExpired(cs[k].details.endDate, now) && now <= later
    ensures SweptContracts(SweptContracts(cs, now), later)[k].violationCount == cs[k].violationCount + 2
  {
    assert SweptContracts(cs, now)[k] == Charge(cs[k], now);
  }

  /** A contract the sweep does not select is left exactly as it was. */
  lemma SweepLeavesOthers(cs: map<string, Contract>, now: int, k: string)
    requires k in cs && !SweepExpired(cs[k].details.endDate, now)
    ensures SweptContracts(cs, now)[k] == cs[k]
  {
  }

  /** A row of the expiry mail: the title and `Math.floor((now - endDate) / day)`. */
  function ExpiryMailRows(entries: seq<ExpiredEntry>, now: int): (rows: seq<(string, int)>)
    requires forall i :: 0 <= i < |entries| ==> entries[i].endDate < now
    ensures |rows| == |entries|
    ensures forall i :: 0 <= i < |rows| ==> rows[i].0 == entries[i].title && rows[i].1 >= 0
  {
    seq(|entries|, i requires 0 <= i < |entries| => (entries[i].title, DaysExpired(now, entries[i].endDate)))
  }

  /**
   * The contracts after the sweep has passed the documents `passed`, in order: each one
   * whose end date is past charged as it is passed.
   */
  function SweptAlong(cs: map<string, Contract>, passed: seq<Doc>, now: int): map<string, Contract> {
    if passed == [] then cs
    else
      var m := SweptAlong(cs, passed[..|passed| - 1], now);
      var d := passed[|passed| - 1];
      if d.id in m && SweepExpired(d.contract.details.endDate, now) then m[d.id := Charge(m[d.id], now)] else m
  }

  /** `k` is the id of one of the documents `docs`. */
  predicate Passed(docs: seq<Doc>, k: string) {
    exists j :: 0 <= j < |docs| && docs[j].id == k
  }

  /** Passing documents with distinct ids, read from `cs`, charges each selected contract once. */
  lemma {:induction false} SweptAlongAt(cs: map<string, Contract>, passed: seq<Doc>, now: int, k: string)
    requires DistinctIds(passed) && k in cs
    requires forall j :: 0 <= j < |passed| ==> passed[j].id in cs && passed[j].contract == cs[passed[j].id]
    ensures k in SweptAlong(cs, passed, now)
    ensures SweptAlong(cs, passed, now)[k] ==
              if Passed(passed, k) && SweepExpired(cs[k].details.endDate, now) then Charge(cs[k], now) else cs[k]
  {
    if passed != [] {
      var init := passed[..|passed| - 1];
      var d := passed[|passed| - 1];
      assert DistinctIds(init);
      SweptAlongAt(cs, init, now, k);
      SweptAlongAt(cs, init, now, d.id);
      if d.id == k {
        assert !Passed(init, k);
        assert Passed(passed, k);
      } else {
        assert Passed(passed, k) <==> Passed(init, k) by {
          if Passed(passed, k) {
            var j :| 0 <= j < |passed| && passed[j].id == k;
            assert init[j].id == k;
          }
          if Passed(init, k) {
            var j :| 0 <= j < |init| && init[j].id == k;
            assert passed[j].id == k;
          }
        }
      }
    }
  }

  /** Passing every contract's document once is the sweep. */
  lemma SweptAlongAll(cs: map<string, Contract>, docs: seq<Doc>, now: int)
    requires DistinctIds(docs)
    requires forall j :: 0 <= j < |docs| ==> docs[j].id in cs && docs[j].contract == cs[docs[j].id]
    requires forall k :: k in cs ==> Passed(docs, k)
    ensures SweptAlong(cs, docs, now) == SweptContracts(cs, now)
  {
    forall k | k in cs
      ensures k in SweptAlong(cs, docs, now) && SweptAlong(cs, docs, now)[k] == SweptContracts(cs, now)[k]
    {
      SweptAlongAt(cs, docs, now, k);
    }
    forall k | k in SweptAlong(cs, docs, now)
      ensures k in cs
    {
      SweptAlongKeys(cs, docs, now, k);
    }
  }

  lemma {:induction false} SweptAlongKeys(cs: map<string, Contract>, passed: seq<Doc>, now: int, k: string)
    requires k in SweptAlong(cs, passed, now)
    ensures k in cs
  {
    if passed != [] {
      var init := passed[..|passed| - 1];
      if k in SweptAlong(cs, init, now) {
        SweptAlongKeys(cs, init, now, k);
      }
    }
  }

  /** A snapshot lists every contract once, under its own id. */
  lemma SnapshotCovers(ids: seq<string>, cs: map<string, Contract>, docs: seq<Doc>)
    requires Seqs.Distinct(ids) && (forall k :: k in ids <==> k in cs)
    requires forall i :: 0 <= i < |ids| ==> ids[i] in cs
    requires docs == DocsOf(ids, cs)
    ensures DistinctIds(docs)
    ensures forall j :: 0 <= j < |docs| ==> docs[j].id in cs && docs[j].contract == cs[docs[j].id]
    ensures forall k :: k in cs ==> Passed(docs, k)
  {
    Seqs.DistinctPairwise(ids);
    forall k | k in cs
      ensures Passed(docs, k)
    {
      var j :| 0 <= j < |ids| && ids[j] == k;
      assert docs[j].id == k;
    }
  }

  /** One pass of the sweep's loop: if `d` is expired, its record and its charge. */
  method SweepOne(db: ContractStore, d: Doc, now: int, ghost before: map<string, Contract>, ghost passed: seq<Doc>)
    returns (entry: Option<ExpiredEntry>)
    requires db.Valid() && d.id in db.contracts
    requires db.contracts == SweptAlong(before, passed, now)
    modifies db
    ensures db.Valid()
    ensures entry == ExpiredEntryOf(d, now)
    ensures db.violations == old(db.violations)
              + (if entry.Some? then [ExpiryViolation(entry.value.contractId, entry.value.endDate, now)] else [])
    ensures db.contracts == SweptAlong(before, passed + [d], now)
    ensures unchanged(db`ids, db`versions, db`edits, db`settings, db`notifications, db`reports, db`users, db`auditLogs)
  {
    assert (passed + [d])[..|passed|] == passed;
    entry := ExpiredEntryOf(d, now);
    if entry.Some? {
      db.AddCharged(ExpiryViolation(entry.value.contractId, entry.value.endDate, now), Charge(db.contracts[d.id], now));
    }
  }

  /** The list and the records grow together, one record per listed contract. */
  lemma SweepRecordsStep(prior: seq<Violation>, expired: seq<ExpiredEntry>, entry: Option<ExpiredEntry>, now: int)
    ensures prior + SweepRecords(expired + (if entry.Some? then [entry.value] else []), now)
            == (prior + SweepRecords(expired, now))
               + (if entry.Some? then [ExpiryViolation(entry.value.contractId, entry.value.endDate, now)] else [])
  {
    if entry.Some? {
      assert (expired + [entry.value])[..|expired|] == expired;
    } else {
      assert expired + [] == expired;
    }
  }

  datatype SweepOutcome =
    | SweepDisabled
    | Swept(expired: seq<ExpiredEntry>, recipients: seq<string>, mailed: bool)

  /**
   * The loop of `checkExpiredContracts`: every contract of the snapshot whose end date
   * parses and is past gets an `expiry_violation` record and is charged once.
   */
  method SweepContracts(db: ContractStore, now: int) returns (expired: seq<ExpiredEntry>)
    requires db.Valid()
    modifies db
    ensures db.Valid()
    ensures expired == ExpiredEntries(old(db.Snapshot()), now)
    ensures db.violations == old(db.violations) + SweepRecords(expired, now)
    ensures db.contracts == SweptContracts(old(db.contracts), now)
    ensures unchanged(db`ids, db`versions, db`edits, db`settings, db`notifications, db`reports, db`users, db`auditLogs)
  {
    var docs := db.Snapshot();
    ghost var before := db.contracts;
    ghost var ids := db.ids;
    expired := [];
    var i := 0;
    while i < |docs|
      invariant 0 <= i <= |docs|
      invariant db.Valid()
      invariant expired == ExpiredEntries(docs[..i], now)
      invariant db.violations == old(db.violations) + SweepRecords(expired, now)
      invariant db.contracts == SweptAlong(before, docs[..i], now)
      invariant unchanged(db`ids, db`versions, db`edits, db`settings, db`notifications, db`reports, db`users, db`auditLogs)
    {
      var d := docs[i];
      assert d.id == ids[i];
      Seqs.TakeOneMore(docs, i);
      ExpiredEntriesStep(docs, i, now);
      var entry := SweepOne(db, d, now, before, docs[..i]);
      SweepRecordsStep(old(db.violations), expired, entry, now);
      expired := expired + (if entry.Some? then [entry.value] else []);
      i := i + 1;
    }
    assert docs[..|docs|] == docs;
    SnapshotCovers(ids, before, docs);
    SweptAlongAll(before, docs, now);
  }

  /**
   * `checkExpiredContracts`: nothing at all when expiry alerts are switched off; otherwise
   * the sweep, and a mail only when something expired and someone is listed.
   */
  method CheckExpiredContracts(db: ContractStore, env: Option<string>, now: int) returns (out: SweepOutcome)
    requires db.Valid()
    modifies db
    ensures db.Valid()
    ensures unchanged(db`ids, db`versions, db`edits, db`settings, db`notifications, db`reports, db`users, db`auditLogs)
    ensures !ExpiryAlertsEnabled(old(db.settings)) ==> out == SweepDisabled && unchanged(db)
    ensures ExpiryAlertsEnabled(old(db.settings)) ==>
              && out.Swept?
              && out.expired == ExpiredEntries(old(db.Snapshot()), now)
              && out.recipients == JobRecipients(old(db.settings), env)
              // the violations are recorded whether or not anyone is mailed
              && out.mailed == (out.expired != [] && out.recipients != [])
              && db.violations == old(db.violations) + SweepRecords(out.expired, now)
              && db.contracts == SweptContracts(old(db.contracts), now)
  {
    if !ExpiryAlertsEnabled(db.settings) {
      return SweepDisabled;
    }
    var recipients := JobRecipients(db.settings, env);
    var expired := SweepContracts(db, now);
    out := Swept(expired, recipients, expired != [] && recipients != []);
  }

  /** An entry of `contractsNearingExpiry`. */
  datatype NearEntry = NearEntry(contractId: string, title: string, endDate: int, daysUntilExpiry: int)

  /** `endDate && endDate > now && endDate <= warningDate`, with the entry shown for it. */
  function NearEntryOf(d: Doc, now: int, warningDays: int): (e: Option<NearEntry>)
    ensures e.Some? <==> NearExpiry(d.contract.details.endDate, now, warningDays)
    ensures e.Some? ==>
              e.value.contractId == d.id && e.value.daysUntilExpiry >= 1 && e.value.endDate == d.contract.details.endDate.ms
  {
    var end := d.contract.details.endDate;
    if NearExpiry(end, now, warningDays) then
      Some(NearEntry(d.id, TitleOr(d.contract.details, "Unknown Contract"), end.ms, DaysUntil(end.ms, now)))
    else None
  }

  /** The near-expiry list, in snapshot order. */
  function NearEntries(docs: seq<Doc>, now: int, warningDays: int): seq<NearEntry> {
    if docs == [] then []
    else
      var e := NearEntryOf(docs[|docs| - 1], now, warningDays);
      NearEntries(docs[..|docs| - 1], now, warningDays) + (if e.Some? then [e.value] else [])
  }

  /** Every entry of the near-expiry list comes from a document nearing expiry, and the reverse. */
  lemma {:induction false} NearEntriesExactly(docs: seq<Doc>, now: int, warningDays: int)
    ensures forall i :: 0 <= i < |docs| && NearEntryOf(docs[i], now, warningDays).Some? ==>
              NearEntryOf(docs[i], now, warningDays).value in NearEntries(docs, now, warningDays)
    ensures forall e :: e in NearEntries(docs, now, warningDays) ==>
              exists i :: 0 <= i < |docs| && NearEntryOf(docs[i], now, warningDays) == Some(e)
  {
    if docs != [] {
      var init := docs[..|docs| - 1];
      NearEntriesExactly(init, now, warningDays);
      forall i | 0 <= i < |docs| && NearEntryOf(docs[i], now, warningDays).Some?
        ensures NearEntryOf(docs[i], now, warningDays).value in NearEntries(docs, now, warningDays)
      {
        if i < |init| {
          assert docs[i] == init[i];
        }
      }
      forall e | e in NearEntries(docs, now, warningDays)
        ensures exists i :: 0 <= i < |docs| && NearEntryOf(docs[i], now, warningDays) == Some(e)
      {
        if e in NearEntries(init, now, warningDays) {
          var i :| 0 <= i < |init| && NearEntryOf(init[i], now, warningDays) == Some(e);
          assert docs[i] == init[i];
        }
      }
    }
  }

  /** No contract is both warned about and swept as expired on the same snapshot at the same time. */
  lemma NearAndExpiredDisjoint(docs: seq<Doc>, now: int, warningDays: int)
    requires DistinctIds(docs)
    ensures forall n, x :: n in NearEntries(docs, now, warningDays) && x in ExpiredEntries(docs, now) ==>
              n.contractId != x.contractId
  {
    NearEntriesExactly(docs, now, warningDays);
    ExpiredEntriesExactly(docs, now);
    forall n, x | n in NearEntries(docs, now, warningDays) && x in ExpiredEntries(docs, now)
      ensures n.contractId != x.contractId
    {
      var i :| 0 <= i < |docs| && NearEntryOf(docs[i], now, warningDays) == Some(n);
      var j :| 0 <= j < |docs| && ExpiredEntryOf(docs[j], now) == Some(x);
      NearExpiryDisjointFromSweep(docs[i].contract.details.endDate, now, warningDays);
      if i != j {
        assert docs[i].id != docs[j].id;
      }
    }
  }

  /** `contractsNearingExpiry.map(c => c.contractId)`. */
  function NearIds(entries: seq<NearEntry>): (ids: seq<string>)
    ensures |ids| == |entries|
    ensures forall i :: 0 <= i < |entries| ==> ids[i] == entries[i].contractId
  {
    seq(|entries|, i requires 0 <= i < |entries| => entries[i].contractId)
  }

  /** The scan of `checkContractsNearingExpiry`. */
  method ScanNearing(docs: seq<Doc>, now: int, warningDays: int) returns (nearing: seq<NearEntry>)
    ensures nearing == NearEntries(docs, now, warningDays)
  {
    nearing := [];
    var i := 0;
    while i < |docs|
      invariant 0 <= i <= |docs|
      invariant nearing == NearEntries(docs[..i], now, warningDays)
    {
      assert docs[..i + 1][..i] == docs[..i];
      var e := NearEntryOf(docs[i], now, warningDays);
      if e.Some? {
        nearing := nearing + [e.value];
      }
      i := i + 1;
    }
    assert docs[..|docs|] == docs;
  }

  datatype NearOutcome =
    | NearDisabled
    | NearNoRecipients
    | Scanned(nearing: seq<NearEntry>, recipients: seq<string>, warningDays: int)

  /**
   * `checkContractsNearingExpiry`. The `notifications` record is written whenever the list
   * is non-empty: the send helper reports a failure by its return value, which this job
   * ignores.
   */
  method CheckContractsNearingExpiry(db: ContractStore, env: Option<string>, now: int) returns (out: NearOutcome)
    requires db.Valid()
    modifies db
    ensures db.Valid()
    ensures unchanged(db`ids, db`contracts, db`versions, db`edits, db`violations, db`settings, db`reports,
                      db`users, db`auditLogs)
    ensures !ExpiryAlertsEnabled(old(db.settings)) ==> out == NearDisabled
    ensures ExpiryAlertsEnabled(old(db.settings)) && JobRecipients(old(db.settings), env) == [] ==> out == NearNoRecipients
    ensures out.NearDisabled? || out.NearNoRecipients? ==> unchanged(db)
    ensures ExpiryAlertsEnabled(old(db.settings)) && JobRecipients(old(db.settings), env) != [] ==>
              && out == Scanned(NearEntries(old(db.Snapshot()), now, WarningDays(old(db.settings))),
                                JobRecipients(old(db.settings), env), WarningDays(old(db.settings)))
              && db.notifications == old(db.notifications)
                   + (if out.nearing == [] then [] else [ExpiryWarning(NearIds(out.nearing), out.warningDays, now)])
  {
    if !ExpiryAlertsEnabled(db.settings) {
      return NearDisabled;
    }
    var expiryWarningDays := WarningDays(db.settings);
    var recipients := JobRecipients(db.settings, env);
    if |recipients| == 0 {
      return NearNoRecipients;
    }
    var nearing := ScanNearing(db.Snapshot(), now, expiryWarningDays);
    if |nearing| > 0 {
      db.AddNotification(ExpiryWarning(NearIds(nearing), expiryWarningDays, now));
    }
    out := Scanned(nearing, recipients, expiryWarningDays);
  }

  /** Records carrying `timestamp >= since`: the two expiry writers' records only. */
  function CountTimestampedSince(vs: seq<Violation>, since: int): nat {
    if vs == [] then 0
    else
      var t := TimestampField(vs[|vs| - 1]);
      CountTimestampedSince(vs[..|vs| - 1], since) + (if t.Some? && t.value >= since then 1 else 0)
  }

  /** Contracts whose `end_date` parses into `[weekAgo, now]`. */
  function CountNewlyExpired(docs: seq<Doc>, weekAgo: int, now: int): (n: nat)
    ensures n <= |docs|
  {
    if docs == [] then 0
    else
      CountNewlyExpired(docs[..|docs| - 1], weekAgo, now)
      + (if NewlyExpired(docs[|docs| - 1].contract.details.endDate, weekAgo, now) then 1 else 0)
  }

  /** The statistics of the weekly report, from one snapshot and the violations. */
  method WeeklyStatistics(docs: seq<Doc>, violations: seq<Violation>, now: int) returns (stats: WeeklyStats)
    ensures stats.totalContracts == |docs|
    ensures stats.activeContracts == CountActive(docs, now) && stats.expiredContracts == CountExpired(docs, now)
    ensures stats.activeContracts + stats.expiredContracts == stats.totalContracts
    ensures stats.weeklyViolations == CountTimestampedSince(violations, now - 7 * DAY)
    ensures stats.newlyExpiredContracts == CountNewlyExpired(docs, now - 7 * DAY, now)
    ensures stats.complianceRate == ComplianceRate(|docs|, CountWithViolations(docs))
    ensures 0 <= stats.complianceRate <= 100
    ensures stats.totalContracts == 0 ==> stats.complianceRate == 100
  {
    var weekAgo := now - 7 * DAY;
    var activeContracts, expiredContracts := 0, 0;
    var i := 0;
    while i < |docs|
      invariant 0 <= i <= |docs|
      invariant activeContracts == CountActive(docs[..i], now)
      invariant expiredContracts == CountExpired(docs[..i], now)
    {
      assert docs[..i + 1][..i] == docs[..i];
      if CountedActive(docs[i].contract.details.endDate, now) {
        activeContracts := activeContracts + 1;
      } else {
        expiredContracts := expiredContracts + 1;
      }
      i := i + 1;
    }
    assert docs[..|docs|] == docs;
    ActivePlusExpired(docs, now);
    var newlyExpiredContracts := 0;
    i := 0;
    while i < |docs|
      invariant 0 <= i <= |docs|
      invariant newlyExpiredContracts == CountNewlyExpired(docs[..i], weekAgo, now)
    {
      assert docs[..i + 1][..i] == docs[..i];
      if NewlyExpired(docs[i].contract.details.endDate, weekAgo, now) {
        newlyExpiredContracts := newlyExpiredContracts + 1;
      }
      i := i + 1;
    }
    assert docs[..|docs|] == docs;
    var weeklyViolations := CountTimestampedSince(violations, weekAgo);
    var complianceRate := ComplianceRate(|docs|, CountWithViolations(docs));
    stats := WeeklyStats(|docs|, activeContracts, expiredContracts, complianceRate, weeklyViolations,
                         newlyExpiredContracts);
  }

  datatype WeeklyOutcome =
    | WeeklyDisabled
    | WeeklyNoRecipients
    | Compiled(stats: WeeklyStats, recipients: seq<string>)

  /** `sendWeeklyComplianceReport`: a `reports` record only when the send succeeded. */
  method SendWeeklyComplianceReport(db: ContractStore, env: Option<string>, now: int, sendOk: bool)
    returns (out: WeeklyOutcome)
    requires db.Valid()
    modifies db
    ensures db.Valid()
    ensures unchanged(db`ids, db`contracts, db`versions, db`edits, db`violations, db`settings, db`notifications,
                      db`users, db`auditLogs)
    ensures !WeeklySummaryEnabled(old(db.settings)) ==> out == WeeklyDisabled
    ensures WeeklySummaryEnabled(old(db.settings)) && JobRecipients(old(db.settings), env) == [] ==> out == WeeklyNoRecipients
    ensures out.WeeklyDisabled? || out.WeeklyNoRecipients? ==> unchanged(db)
    ensures WeeklySummaryEnabled(old(db.settings)) && JobRecipients(old(db.settings), env) != [] ==>
              && out.Compiled?
              && out.recipients == JobRecipients(old(db.settings), env)
              && out.stats.totalContracts == |old(db.ids)|
              && out.stats.activeContracts + out.stats.expiredContracts == out.stats.totalContracts
              && out.stats.activeContracts == CountActive(old(db.Snapshot()), now)
              && out.stats.newlyExpiredContracts == CountNewlyExpired(old(db.Snapshot()), now - 7 * DAY, now)
              && out.stats.weeklyViolations == CountTimestampedSince(old(db.violations), now - 7 * DAY)
              && out.stats.complianceRate == ComplianceRate(|old(db.ids)|, CountWithViolations(old(db.Snapshot())))
              && 0 <= out.stats.complianceRate <= 100
              && db.reports == old(db.reports) + (if sendOk then [WeeklyReport(now, out.recipients, out.stats)] else [])
  {
    if !WeeklySummaryEnabled(db.settings) {
      return WeeklyDisabled;
    }
    var recipients := JobRecipients(db.settings, env);
    if |recipients| == 0 {
      return WeeklyNoRecipients;
    }
    var stats := WeeklyStatistics(db.Snapshot(), db.violations, now);
    if sendOk {
      db.AddReport(WeeklyReport(now, recipients, stats));
    }
    out := Compiled(stats, recipients);
  }
}
