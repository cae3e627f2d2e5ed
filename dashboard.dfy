/**
 * The dashboard reads of the server: `GET /active-contracts`, `GET /expired-contracts` and
 * `GET /compliance-overview`. Each scans a query snapshot of `contracts` (`docs`) with the
 * guarded reading of `end_date`, so an unparseable end date is in neither listing and is
 * counted as expired by the overview.
 */
module Dashboard {
  import opened Wrappers
  import opened Seqs
  import opened Lifecycle
  import opened Records
  import opened Store

  /** An entry of `activeContracts`. */
  datatype ActiveEntry = ActiveEntry(
    id: string, title: string, parties: seq<string>, allowedRegions: seq<string>,
    startDate: DateField, endDate: DateField, violationCount: nat, versionCount: nat, timestamp: int)

  function ActiveEntryOf(d: Doc): ActiveEntry {
    var c := d.contract;
    ActiveEntry(d.id, TitleOr(c.details, "Untitled Contract"), PartiesOf(c.details), RegionsOf(c.details),
                c.details.startDate, c.details.endDate, c.violationCount,
                if c.versionCount == 0 then 1 else c.versionCount, c.timestamp)
  }

  /** The contracts `/active-contracts` lists, in snapshot order. */
  function ActiveList(docs: seq<Doc>, now: int): seq<ActiveEntry> {
    if docs == [] then []
    else
      var last := docs[|docs| - 1];
      ActiveList(docs[..|docs| - 1], now)
      + (if ListedActive(last.contract.details.endDate, now) then [ActiveEntryOf(last)] else [])
  }

  /**
   * A contract is listed active exactly when its end date is missing, null or not past, once
   * each: the listing is as long as the overview's `activeContracts`.
   */
  lemma {:induction false} ActiveListExactly(docs: seq<Doc>, now: int)
    ensures forall i :: 0 <= i < |docs| && ListedActive(docs[i].contract.details.endDate, now) ==>
              ActiveEntryOf(docs[i]) in ActiveList(docs, now)
    ensures forall e :: e in ActiveList(docs, now) ==>
              exists i :: 0 <= i < |docs| && ListedActive(docs[i].contract.details.endDate, now)
                          && ActiveEntryOf(docs[i]) == e
    ensures |ActiveList(docs, now)| == CountActive(docs, now)
  {
    if docs != [] {
      var init := docs[..|docs| - 1];
      ActiveListExactly(init, now);
      forall i | 0 <= i < |docs| && ListedActive(docs[i].contract.details.endDate, now)
        ensures ActiveEntryOf(docs[i]) in ActiveList(docs, now)
      {
        if i < |init| {
          assert docs[i] == init[i];
        }
      }
      forall e | e in ActiveList(docs, now)
        ensures exists i :: 0 <= i < |docs| && ListedActive(docs[i].contract.details.endDate, now)
                            && ActiveEntryOf(docs[i]) == e
      {
        if e in ActiveList(init, now) {
          var i :| 0 <= i < |init| && ListedActive(init[i].contract.details.endDate, now) && ActiveEntryOf(init[i]) == e;
          assert docs[i] == init[i];
        }
      }
    }
  }

  /** `GET /active-contracts`. */
  method ActiveContracts(docs: seq<Doc>, now: int) returns (activeContracts: seq<ActiveEntry>)
    ensures activeContracts == ActiveList(docs, now)
  {
    activeContracts := [];
    var i := 0;
    while i < |docs|
      invariant 0 <= i <= |docs|
      invariant activeContracts == ActiveList(docs[..i], now)
    {
      assert docs[..i + 1][..i] == docs[..i];
      var d := docs[i];
      if ListedActive(d.contract.details.endDate, now) {
        activeContracts := activeContracts + [ActiveEntryOf(d)];
      }
      i := i + 1;
    }
    assert docs[..|docs|] == docs;
  }

  /** An entry of `expiredContracts`. */
  datatype ExpiredListEntry = ExpiredListEntry(
    id: string, title: string, parties: seq<string>, allowedRegions: seq<string>,
    endDate: DateField, violationCount: nat, daysExpired: int)

  function ExpiredListEntryOf(d: Doc, now: int): (e: ExpiredListEntry)
    requires ListedExpired(d.contract.details.endDate, now)
    ensures e.daysExpired >= 0
  {
    var c := d.contract;
    ExpiredListEntry(d.id, TitleOr(c.details, "Untitled Contract"), PartiesOf(c.details), RegionsOf(c.details),
                     c.details.endDate, c.violationCount, DaysExpired(now, c.details.endDate.ms))
  }

  /** The contracts `/expired-contracts` lists, in snapshot order. */
  function ExpiredList(docs: seq<Doc>, now: int): (list: seq<ExpiredListEntry>)
    ensures forall k :: 0 <= k < |list| ==> list[k].daysExpired >= 0
  {
    if docs == [] then []
    else
      var last := docs[|docs| - 1];
      ExpiredList(docs[..|docs| - 1], now)
      + (if ListedExpired(last.contract.details.endDate, now) then [ExpiredListEntryOf(last, now)] else [])
  }

  /** A contract is listed expired exactly when its end date parses and is past. */
  lemma {:induction false} ExpiredListExactly(docs: seq<Doc>, now: int)
    ensures forall i :: 0 <= i < |docs| && ListedExpired(docs[i].contract.details.endDate, now) ==>
              ExpiredListEntryOf(docs[i], now) in ExpiredList(docs, now)
    ensures forall e :: e in ExpiredList(docs, now) ==>
              exists i :: 0 <= i < |docs| && ListedExpired(docs[i].contract.details.endDate, now)
                          && ExpiredListEntryOf(docs[i], now) == e
  {
    if docs != [] {
      var init := docs[..|docs| - 1];
      ExpiredListExactly(init, now);
      forall i | 0 <= i < |docs| && ListedExpired(docs[i].contract.details.endDate, now)
        ensures ExpiredListEntryOf(docs[i], now) in ExpiredList(docs, now)
      {
        if i < |init| {
          assert docs[i] == init[i];
        }
      }
      forall e | e in ExpiredList(docs, now)
        ensures exists i :: 0 <= i < |docs| && ListedExpired(docs[i].contract.details.endDate, now)
                            && ExpiredListEntryOf(docs[i], now) == e
      {
        if e in ExpiredList(init, now) {
          var i :| 0 <= i < |init| && ListedExpired(init[i].contract.details.endDate, now)
                   && ExpiredListEntryOf(init[i], now) == e;
          assert docs[i] == init[i];
        }
      }
    }
  }

  /** `GET /expired-contracts`. */
  method ExpiredContracts(docs: seq<Doc>, now: int) returns (expiredContracts: seq<ExpiredListEntry>)
    ensures expiredContracts == ExpiredList(docs, now)
    ensures forall k :: 0 <= k < |expiredContracts| ==> expiredContracts[k].daysExpired >= 0
  {
    expiredContracts := [];
    var i := 0;
    while i < |docs|
      invariant 0 <= i <= |docs|
      invariant expiredContracts == ExpiredList(docs[..i], now)
    {
      assert docs[..i + 1][..i] == docs[..i];
      var d := docs[i];
      if ListedExpired(d.contract.details.endDate, now) {
        expiredContracts := expiredContracts + [ExpiredListEntryOf(d, now)];
      }
      i := i + 1;
    }
    assert docs[..|docs|] == docs;
  }

  /**
   * No contract is in both listings, and one with an unparseable end date is in neither
   * (while the overview counts it as expired).
   */
  lemma ListingsDisjoint(docs: seq<Doc>, now: int)
    requires DistinctIds(docs)
    ensures forall a, e :: a in ActiveList(docs, now) && e in ExpiredList(docs, now) ==> a.id != e.id
    ensures forall i, a :: 0 <= i < |docs| && docs[i].contract.details.endDate.Invalid? && a in ActiveList(docs, now) ==>
              a.id != docs[i].id
    ensures forall i, e :: 0 <= i < |docs| && docs[i].contract.details.endDate.Invalid? && e in ExpiredList(docs, now) ==>
              e.id != docs[i].id
  {
    ActiveListExactly(docs, now);
    ExpiredListExactly(docs, now);
    forall a, e | a in ActiveList(docs, now) && e in ExpiredList(docs, now)
      ensures a.id != e.id
    {
      var i :| 0 <= i < |docs| && ListedActive(docs[i].contract.details.endDate, now) && ActiveEntryOf(docs[i]) == a;
      var j :| 0 <= j < |docs| && ListedExpired(docs[j].contract.details.endDate, now) && ExpiredListEntryOf(docs[j], now) == e;
      ListingsClassify(docs[i].contract.details.endDate, now);
      if i != j {
        assert docs[i].id != docs[j].id;
      }
    }
    forall i, a | 0 <= i < |docs| && docs[i].contract.details.endDate.Invalid? && a in ActiveList(docs, now)
      ensures a.id != docs[i].id
    {
      var j :| 0 <= j < |docs| && ListedActive(docs[j].contract.details.endDate, now) && ActiveEntryOf(docs[j]) == a;
      if i != j {
        assert docs[i].id != docs[j].id;
      }
    }
    forall i, e | 0 <= i < |docs| && docs[i].contract.details.endDate.Invalid? && e in ExpiredList(docs, now)
      ensures e.id != docs[i].id
    {
      var j :| 0 <= j < |docs| && ListedExpired(docs[j].contract.details.endDate, now) && ExpiredListEntryOf(docs[j], now) == e;
      if i != j {
        assert docs[i].id != docs[j].id;
      }
    }
  }

  /** How many contracts the overview counts as active. */
  function CountActive(docs: seq<Doc>, now: int): nat {
    if docs == [] then 0
    else CountActive(docs[..|docs| - 1], now) + (if CountedActive(docs[|docs| - 1].contract.details.endDate, now) then 1 else 0)
  }

  /** How many contracts the overview counts as expired: the `else` of the active test. */
  function CountExpired(docs: seq<Doc>, now: int): nat {
    if docs == [] then 0
    else CountExpired(docs[..|docs| - 1], now) + (if CountedExpired(docs[|docs| - 1].contract.details.endDate, now) then 1 else 0)
  }

  /** Every contract is counted once, as active or as expired. */
  lemma {:induction false} ActivePlusExpired(docs: seq<Doc>, now: int)
    ensures CountActive(docs, now) + CountExpired(docs, now) == |docs|
  {
    if docs != [] {
      ActivePlusExpired(docs[..|docs| - 1], now);
    }
  }

  /** `contract.violationCount && contract.violationCount > 0`. */
  function CountWithViolations(docs: seq<Doc>): (n: nat)
    ensures n <= |docs|
  {
    if docs == [] then 0
    else CountWithViolations(docs[..|docs| - 1]) + (if docs[|docs| - 1].contract.violationCount > 0 then 1 else 0)
  }

  /** The sum of the positive `violationCount`s. */
  function SumViolations(docs: seq<Doc>): nat {
    if docs == [] then 0
    else
      var c := docs[|docs| - 1].contract;
      SumViolations(docs[..|docs| - 1]) + (if c.violationCount > 0 then c.violationCount else 0)
  }

  /** A contract with violations adds at least one to the total. */
  lemma {:induction false} WithViolationsAtMostTotal(docs: seq<Doc>)
    ensures CountWithViolations(docs) <= SumViolations(docs)
    ensures SumViolations(docs) == 0 <==> CountWithViolations(docs) == 0
  {
    if docs != [] {
      WithViolationsAtMostTotal(docs[..|docs| - 1]);
    }
  }

  /** The records a `violationTimestamp >= since` query returns: geo records only. */
  function CountRecent(vs: seq<Violation>, since: int): nat {
    if vs == [] then 0
    else
      var t := ViolationTimestampField(vs[|vs| - 1]);
      CountRecent(vs[..|vs| - 1], since) + (if t.Some? && t.value >= since then 1 else 0)
  }

  /** `complianceStats`. */
  datatype Overview = Overview(
    totalContracts: nat, activeContracts: nat, expiredContracts: nat,
    contractsWithViolations: nat, totalViolations: nat, recentViolations: nat, complianceRate: int)

  /** `GET /compliance-overview`: the counters of one scan, and the recent geo records. */
  method ComplianceOverview(docs: seq<Doc>, violations: seq<Violation>, now: int) returns (o: Overview)
    ensures o.totalContracts == |docs|
    ensures o.activeContracts == CountActive(docs, now) && o.expiredContracts == CountExpired(docs, now)
    ensures o.activeContracts + o.expiredContracts == o.totalContracts
    ensures o.contractsWithViolations == CountWithViolations(docs) && o.totalViolations == SumViolations(docs)
    ensures o.contractsWithViolations <= o.totalViolations
    ensures o.recentViolations == CountRecent(violations, now - 30 * DAY)
    ensures o.complianceRate == ComplianceRate(o.totalContracts, o.contractsWithViolations)
    ensures 0 <= o.complianceRate <= 100
    ensures o.totalContracts == 0 ==> o.complianceRate == 100
  {
    var activeContracts, expiredContracts, contractsWithViolations, totalViolations := 0, 0, 0, 0;
    var i := 0;
    while i < |docs|
      invariant 0 <= i <= |docs|
      invariant activeContracts == CountActive(docs[..i], now)
      invariant expiredContracts == CountExpired(docs[..i], now)
      invariant contractsWithViolations == CountWithViolations(docs[..i])
      invariant totalViolations == SumViolations(docs[..i])
    {
      assert docs[..i + 1][..i] == docs[..i];
      var c := docs[i].contract;
      if CountedActive(c.details.endDate, now) {
        activeContracts := activeContracts + 1;
      } else {
        expiredContracts := expiredContracts + 1;
      }
      if c.violationCount > 0 {
        contractsWithViolations := contractsWithViolations + 1;
        totalViolations := totalViolations + c.violationCount;
      }
      i := i + 1;
    }
    assert docs[..|docs|] == docs;
    ActivePlusExpired(docs, now);
    WithViolationsAtMostTotal(docs);
    var recentViolations := CountRecent(violations, now - 30 * DAY);
    o := Overview(|docs|, activeContracts, expiredContracts, contractsWithViolations, totalViolations,
                  recentViolations, ComplianceRate(|docs|, contractsWithViolations));
  }

  /** The number of records whose writer charged a contract. */
  function CountCharged(vs: seq<Violation>): nat {
    if vs == [] then 0
    else CountCharged(vs[..|vs| - 1]) + (if Charged(vs[|vs| - 1]) then 1 else 0)
  }

  /** The sum over `ids` of each contract's charged records. */
  function SumCharged(ids: seq<string>, vs: seq<Violation>): nat {
    if ids == [] then 0
    else SumCharged(ids[..|ids| - 1], vs) + CountWhere(vs, ids[|ids| - 1], Charged)
  }

  lemma {:induction false} SumChargedAppend(ids: seq<string>, vs: seq<Violation>, v: Violation)
    ensures SumCharged(ids, vs + [v]) == SumCharged(ids, vs) + (if Charged(v) then Occurrences(ids, v.contractId) else 0)
  {
    if ids != [] {
      SumChargedAppend(ids[..|ids| - 1], vs, v);
      CountWhereAppend(vs, v, ids[|ids| - 1], Charged);
    }
  }

  /** With distinct ids covering every record, the per-contract counts add up to all charged records. */
  lemma {:induction false} SumChargedIsCharged(ids: seq<string>, vs: seq<Violation>)
    requires Distinct(ids)
    requires forall i :: 0 <= i < |vs| ==> vs[i].contractId in ids
    ensures SumCharged(ids, vs) == CountCharged(vs)
  {
    if vs == [] {
      SumChargedEmpty(ids);
    } else {
      var init := vs[..|vs| - 1];
      var v := vs[|vs| - 1];
      assert forall i :: 0 <= i < |init| ==> init[i].contractId in ids by {
        forall i | 0 <= i < |init| ensures init[i].contractId in ids {
          assert init[i] == vs[i];
        }
      }
      SumChargedIsCharged(ids, init);
      assert init + [v] == vs;
      SumChargedAppend(ids, init, v);
      OccurrencesOfDistinct(ids, v.contractId);
    }
  }

  lemma {:induction false} SumChargedEmpty(ids: seq<string>)
    ensures SumCharged(ids, []) == 0
  {
    if ids != [] {
      SumChargedEmpty(ids[..|ids| - 1]);
    }
  }

  /** The positive counts of a snapshot add up to the per-contract ledger counts. */
  lemma {:induction false} SumViolationsOfSnapshot(ids: seq<string>, cs: map<string, Contract>, vs: seq<Violation>)
    requires forall i :: 0 <= i < |ids| ==> ids[i] in cs && cs[ids[i]].violationCount == CountWhere(vs, ids[i], Charged)
    ensures SumViolations(DocsOf(ids, cs)) == SumCharged(ids, vs)
  {
    if ids != [] {
      var init := ids[..|ids| - 1];
      assert DocsOf(ids, cs)[..|ids| - 1] == DocsOf(init, cs);
      SumViolationsOfSnapshot(init, cs, vs);
    }
  }

  /**
   * Under the store invariant, the overview's `totalViolations` is the number of geo and
   * sweep records in `violations`: HTTP expiry notices are never among them.
   */
  lemma TotalViolationsIsLedger(ids: seq<string>, cs: map<string, Contract>, versions: map<string, seq<Version>>,
                                edits: map<string, seq<Edit>>, vs: seq<Violation>)
    requires Consistent(ids, cs, versions, edits, vs)
    ensures SumViolations(DocsOf(ids, cs)) == CountCharged(vs)
  {
    SumViolationsOfSnapshot(ids, cs, vs);
    SumChargedIsCharged(ids, vs);
  }
}
