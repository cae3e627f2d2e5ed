/**
 * `GET /export-compliance-report`: every contract, with the violations of a date window
 * listed under the contract they name, as JSON or as CSV.
 *
 * The window is read on `violationTimestamp`, the field only the geo check writes, so the
 * records of the two expiry checks never appear in a report.
 */
module Report {
  import opened Wrappers
  import opened Text
  import opened Seqs
  import opened Lifecycle
  import opened Records
  import opened Store
  import Dashboard

  /** `startDate ? new Date(startDate) : new Date()`, then 30 days back. */
  function ReportStart(startDate: DateParam, now: int): int
    requires !startDate.BadDate?
  {
    (if startDate.OnDate? then startDate.ms else now) - 30 * DAY
  }

  /** `endDate ? new Date(endDate) : new Date()`. */
  function ReportEnd(endDate: DateParam, now: int): int
    requires !endDate.BadDate?
  {
    if endDate.OnDate? then endDate.ms else now
  }

  /**
   * Without dates the window is the 30 days up to now. A given start date is moved back
   * 30 days as well, so the window opens 30 days before the date asked for.
   */
  lemma WindowBounds(now: int, t: int)
    ensures ReportEnd(NoDate, now) - ReportStart(NoDate, now) == 30 * DAY
    ensures ReportStart(OnDate(t), now) == t - 30 * DAY < t
  {
  }

  /** The query `violationTimestamp >= start` and `<= end`: a record without the field is not returned. */
  predicate InWindow(v: Violation, start: int, end: int) {
    var t := ViolationTimestampField(v);
    t.Some? && start <= t.value <= end
  }

  /** The records the window query returns, in ledger order. */
  function Windowed(vs: seq<Violation>, start: int, end: int): (w: seq<Violation>)
    ensures forall v :: v in w ==> v in vs && InWindow(v, start, end)
    ensures forall i :: 0 <= i < |vs| && InWindow(vs[i], start, end) ==> vs[i] in w
    ensures |w| <= |vs|
  {
    if vs == [] then []
    else
      var last := vs[|vs| - 1];
      Windowed(vs[..|vs| - 1], start, end) + (if InWindow(last, start, end) then [last] else [])
  }

  /** Only geo records carry `violationTimestamp`: no expiry notice or sweep record is reported. */
  lemma WindowHoldsOnlyGeoRecords(vs: seq<Violation>, start: int, end: int)
    ensures forall v :: v in Windowed(vs, start, end) ==> v.GeoViolation?
  {
  }

  /** An entry of a row's `violations` (the record's document id is not modelled). */
  datatype ReportEntry = ReportEntry(kind: string, userCountry: Option<string>, timestamp: Option<int>)

  /** `type || "geo-compliance"`, `userCountry`, `violationTimestamp || null`. */
  function EntryOf(v: Violation): (e: ReportEntry)
    ensures v.GeoViolation? ==> e == ReportEntry("geo-compliance", Some(v.userCountry), Some(v.violationTimestamp))
  {
    ReportEntry(TypeField(v).GetOr("geo-compliance"), if v.GeoViolation? then Some(v.userCountry) else None,
                ViolationTimestampField(v))
  }

  /** The entries listed under contract `id`, in the order of the records. */
  function EntriesFor(w: seq<Violation>, id: string): (es: seq<ReportEntry>)
    ensures |es| <= |w|
  {
    if w == [] then []
    else
      var last := w[|w| - 1];
      EntriesFor(w[..|w| - 1], id) + (if last.contractId == id then [EntryOf(last)] else [])
  }

  /** A record naming another contract adds nothing to `id`'s list, and one naming `id` adds its entry. */
  lemma EntriesForStep(w: seq<Violation>, j: nat, id: string)
    requires j < |w|
    ensures EntriesFor(w[..j + 1], id) == EntriesFor(w[..j], id) + (if w[j].contractId == id then [EntryOf(w[j])] else [])
  {
    assert w[..j + 1][..j] == w[..j];
  }

  /**
   * A row of the report. `startDate` and `endDate` keep the stored `DateField`: the handler
   * sends the stored value or `null`, so an absent date and a `null` both come out as
   * `null` and an unparsable string comes out unchanged; that rendering is not modelled.
   */
  datatype ReportRow = ReportRow(
    id: string,
    title: string,
    parties: seq<string>,
    allowedRegions: seq<string>,
    startDate: DateField,
    endDate: DateField,
    violationCount: nat,
    violations: seq<ReportEntry>)

  /** The row `contracts.forEach` builds for a document, with `entries` as its violations. */
  function RowWith(doc: Doc, entries: seq<ReportEntry>): (r: ReportRow)
    ensures r.id == doc.id && r.violationCount == doc.contract.violationCount && r.violations == entries
    ensures r.title == TitleOr(doc.contract.details, "Untitled Contract")
  {
    var d := doc.contract.details;
    ReportRow(doc.id, TitleOr(d, "Untitled Contract"), PartiesOf(d), RegionsOf(d), d.startDate, d.endDate,
              doc.contract.violationCount, entries)
  }

  /** One row per document, in snapshot order, each listing the window's records that name it. */
  function ReportRows(docs: seq<Doc>, w: seq<Violation>): (rows: seq<ReportRow>)
    ensures |rows| == |docs|
    ensures forall i :: 0 <= i < |docs| ==> rows[i] == RowWith(docs[i], EntriesFor(w, docs[i].id))
  {
    seq(|docs|, i requires 0 <= i < |docs| => RowWith(docs[i], EntriesFor(w, docs[i].id)))
  }

  /**
   * The two `forEach` loops: the rows with empty lists and the id-to-row map, then each
   * record of the window pushed onto the list of the row it names, when there is one.
   */
  method CollectRows(docs: seq<Doc>, w: seq<Violation>) returns (rows: seq<ReportRow>)
    requires DistinctIds(docs)
    ensures rows == ReportRows(docs, w)
  {
    var contractMap;
    rows, contractMap := StartRows(docs);
    assert w[..0] == [];
    var j := 0;
    while j < |w|
      invariant 0 <= j <= |w| && |rows| == |docs|
      invariant forall n :: 0 <= n < |docs| ==> rows[n] == RowWith(docs[n], EntriesFor(w[..j], docs[n].id))
    {
      if w[j].contractId in contractMap {
        rows := AddEntry(docs, w, j, rows, contractMap[w[j].contractId]);
      } else {
        SkipEntry(docs, w, j);
      }
      j := j + 1;
    }
    assert w[..|w|] == w;
  }

  /** `contracts.forEach`: a row with an empty list per document, and the map from id to row. */
  method StartRows(docs: seq<Doc>) returns (rows: seq<ReportRow>, contractMap: map<string, nat>)
    requires DistinctIds(docs)
    ensures |rows| == |docs|
    ensures forall j :: 0 <= j < |docs| ==> rows[j] == RowWith(docs[j], [])
    ensures forall j :: 0 <= j < |docs| ==> docs[j].id in contractMap && contractMap[docs[j].id] == j
    ensures forall k :: k in contractMap ==> contractMap[k] < |docs| && docs[contractMap[k]].id == k
  {
    rows := [];
    contractMap := map[];
    var i := 0;
    while i < |docs|
      invariant 0 <= i <= |docs| && |rows| == i
      invariant forall j :: 0 <= j < i ==> rows[j] == RowWith(docs[j], [])
      invariant forall j :: 0 <= j < i ==> docs[j].id in contractMap && contractMap[docs[j].id] == j
      invariant forall k :: k in contractMap ==> contractMap[k] < i && docs[contractMap[k]].id == k
    {
      rows := rows + [RowWith(docs[i], [])];
      contractMap := contractMap[docs[i].id := i];
      i := i + 1;
    }
  }

  /** A record naming none of the documents leaves every list as it was. */
  lemma SkipEntry(docs: seq<Doc>, w: seq<Violation>, j: nat)
    requires j < |w| && forall n :: 0 <= n < |docs| ==> docs[n].id != w[j].contractId
    ensures forall n :: 0 <= n < |docs| ==> EntriesFor(w[..j + 1], docs[n].id) == EntriesFor(w[..j], docs[n].id)
  {
    forall n | 0 <= n < |docs|
      ensures EntriesFor(w[..j + 1], docs[n].id) == EntriesFor(w[..j], docs[n].id)
    {
      EntriesForStep(w, j, docs[n].id);
    }
  }

  /** Pushes the entry of `w[j]` onto the list of row `row`, the one row whose id it names. */
  method AddEntry(docs: seq<Doc>, w: seq<Violation>, j: nat, rows: seq<ReportRow>, row: nat)
    returns (rows': seq<ReportRow>)
    requires DistinctIds(docs)
    requires j < |w|
    requires row < |docs| && docs[row].id == w[j].contractId && |rows| == |docs|
    requires forall n :: 0 <= n < |docs| ==> rows[n] == RowWith(docs[n], EntriesFor(w[..j], docs[n].id))
    ensures |rows'| == |docs|
    ensures forall n :: 0 <= n < |docs| ==> rows'[n] == RowWith(docs[n], EntriesFor(w[..j + 1], docs[n].id))
  {
    rows' := rows[row := rows[row].(violations := rows[row].violations + [EntryOf(w[j])])];
    forall n | 0 <= n < |docs|
      ensures rows'[n] == RowWith(docs[n], EntriesFor(w[..j + 1], docs[n].id))
    {
      EntriesForStep(w, j, docs[n].id);
      if n != row {
        assert docs[n].id != docs[row].id;
      }
    }
  }

  /** The number of entries listed over all rows. */
  function TotalListed(rows: seq<ReportRow>): nat {
    if rows == [] then 0 else TotalListed(rows[..|rows| - 1]) + |rows[|rows| - 1].violations|
  }

  /** `contracts.filter(c => c.violationCount > 0).length`. */
  function RowsWithViolations(rows: seq<ReportRow>): nat {
    if rows == [] then 0
    else RowsWithViolations(rows[..|rows| - 1]) + (if rows[|rows| - 1].violationCount > 0 then 1 else 0)
  }

  /** The report counts contracts with violations as the dashboard overview does. */
  lemma {:induction false} RowsWithViolationsAgree(docs: seq<Doc>, w: seq<Violation>)
    ensures RowsWithViolations(ReportRows(docs, w)) == Dashboard.CountWithViolations(docs)
  {
    if docs != [] {
      var init := docs[..|docs| - 1];
      RowsWithViolationsAgree(init, w);
      assert ReportRows(docs, w)[..|init|] == ReportRows(init, w);
    }
  }

  /** How many records of `w` name one of the documents. */
  function KnownCount(w: seq<Violation>, docs: seq<Doc>): nat {
    if w == [] then 0
    else KnownCount(w[..|w| - 1], docs) + (if Passed(docs, w[|w| - 1].contractId) then 1 else 0)
  }

  /** `k` is the id of one of the documents. */
  predicate Passed(docs: seq<Doc>, k: string) {
    exists j :: 0 <= j < |docs| && docs[j].id == k
  }

  /** The entries listed for the ids of `docs`, summed over the documents. */
  function ListedFor(docs: seq<Doc>, w: seq<Violation>): nat
  {
    if docs == [] then 0 else ListedFor(docs[..|docs| - 1], w) + |EntriesFor(w, docs[|docs| - 1].id)|
  }

  lemma {:induction false} TotalListedIsListedFor(docs: seq<Doc>, w: seq<Violation>)
    ensures TotalListed(ReportRows(docs, w)) == ListedFor(docs, w)
  {
    if docs != [] {
      var init := docs[..|docs| - 1];
      TotalListedIsListedFor(init, w);
      assert ReportRows(docs, w)[..|init|] == ReportRows(init, w);
    }
  }

  /** A document whose id the record names gains one entry; the sum gains one per such document. */
  lemma {:induction false} ListedForStep(docs: seq<Doc>, w: seq<Violation>, v: Violation)
    requires DistinctIds(docs)
    ensures ListedFor(docs, w + [v]) == ListedFor(docs, w) + (if Passed(docs, v.contractId) then 1 else 0)
  {
    assert (w + [v])[..|w|] == w;
    if docs != [] {
      var init := docs[..|docs| - 1];
      var d := docs[|docs| - 1];
      assert DistinctIds(init);
      ListedForStep(init, w, v);
      if d.id == v.contractId {
        assert !Passed(init, v.contractId);
        assert Passed(docs, v.contractId);
      } else {
        assert Passed(docs, v.contractId) <==> Passed(init, v.contractId) by {
          if Passed(docs, v.contractId) {
            var j :| 0 <= j < |docs| && docs[j].id == v.contractId;
            assert init[j].id == v.contractId;
          }
          if Passed(init, v.contractId) {
            var j :| 0 <= j < |init| && init[j].id == v.contractId;
            assert docs[j].id == v.contractId;
          }
        }
      }
    }
  }

  /**
   * Every record of the window that names a contract is listed under exactly one row:
   * the entries over all rows number the records naming a known contract.
   */
  lemma {:induction false} EveryRecordListedOnce(docs: seq<Doc>, w: seq<Violation>)
    requires DistinctIds(docs)
    ensures TotalListed(ReportRows(docs, w)) == KnownCount(w, docs)
  {
    TotalListedIsListedFor(docs, w);
    ListedForAll(docs, w);
  }

  lemma {:induction false} ListedForAll(docs: seq<Doc>, w: seq<Violation>)
    requires DistinctIds(docs)
    ensures ListedFor(docs, w) == KnownCount(w, docs)
    decreases |w|
  {
    if w == [] {
      ListedForEmpty(docs);
    } else {
      var init := w[..|w| - 1];
      assert w == init + [w[|w| - 1]];
      ListedForStep(docs, init, w[|w| - 1]);
      ListedForAll(docs, init);
    }
  }

  lemma {:induction false} ListedForEmpty(docs: seq<Doc>)
    ensures ListedFor(docs, []) == 0
  {
    if docs != [] {
      ListedForEmpty(docs[..|docs| - 1]);
    }
  }

  /** When every record names a known contract, all of them are counted. */
  lemma {:induction false} KnownCountAll(w: seq<Violation>, docs: seq<Doc>)
    requires forall v :: v in w ==> Passed(docs, v.contractId)
    ensures KnownCount(w, docs) == |w|
  {
    if w != [] {
      var init := w[..|w| - 1];
      assert forall v :: v in init ==> v in w;
      KnownCountAll(init, docs);
    }
  }

  datatype Summary = Summary(totalContracts: nat, contractsWithViolations: nat, totalViolations: nat)

  datatype ComplianceReport = ComplianceReport(startDate: int, endDate: int, summary: Summary, contracts: seq<ReportRow>)

  datatype ReportBody = JsonReport(report: ComplianceReport) | CsvReport(csv: string)

  const CsvHeader: string := "Contract ID,Title,Parties,Violation Count\n"

  /** `${id},"${title}","${parties.join('; ')}",${violationCount}` and a newline; nothing is escaped. */
  function CsvLine(row: ReportRow): string {
    row.id + ",\"" + row.title + "\",\"" + Join(row.parties, "; ") + "\"," + NatToString(row.violationCount) + "\n"
  }

  function CsvBody(rows: seq<ReportRow>): string {
    if rows == [] then "" else CsvBody(rows[..|rows| - 1]) + CsvLine(rows[|rows| - 1])
  }

  /** `csv += ...` over the rows. */
  method BuildCsv(rows: seq<ReportRow>) returns (csv: string)
    ensures csv == CsvHeader + CsvBody(rows)
  {
    csv := CsvHeader;
    var i := 0;
    while i < |rows|
      invariant 0 <= i <= |rows|
      invariant csv == CsvHeader + CsvBody(rows[..i])
    {
      CsvStep(rows, i);
      csv := csv + CsvLine(rows[i]);
      i := i + 1;
    }
    assert rows[..|rows|] == rows;
  }

  lemma CsvStep(rows: seq<ReportRow>, i: nat)
    requires i < |rows|
    ensures CsvHeader + CsvBody(rows[..i + 1]) == (CsvHeader + CsvBody(rows[..i])) + CsvLine(rows[i])
  {
    assert rows[..i + 1][..i] == rows[..i];
  }

  /** No field of the row holds a line break. */
  predicate SingleLine(row: ReportRow) {
    '\n' !in row.id && '\n' !in row.title && forall k :: 0 <= k < |row.parties| ==> '\n' !in row.parties[k]
  }

  lemma CsvLineBreaks(row: ReportRow)
    requires SingleLine(row)
    ensures CountChar(CsvLine(row), '\n') == 1
  {
    var digits := NatToString(row.violationCount);
    var parties := Join(row.parties, "; ");
    JoinLacks(row.parties, "; ", '\n');
    CountCharAbsent(row.id + ",\"", '\n');
    CountCharAbsent(row.title + "\",\"", '\n');
    CountCharAbsent(parties + "\",", '\n');
    CountCharAbsent(digits, '\n');
    CountCharAppend(row.id + ",\"", row.title + "\",\"", '\n');
    assert row.id + ",\"" + row.title + "\",\"" == (row.id + ",\"") + (row.title + "\",\"");
    CountCharAppend(row.id + ",\"" + row.title + "\",\"", parties + "\",", '\n');
    assert row.id + ",\"" + row.title + "\",\"" + parties + "\"," == (row.id + ",\"" + row.title + "\",\"") + (parties + "\",");
    CountCharAppend(row.id + ",\"" + row.title + "\",\"" + parties + "\",", digits, '\n');
    CountCharAppend(row.id + ",\"" + row.title + "\",\"" + parties + "\"," + digits, "\n", '\n');
  }

  /** Rows without line breaks give one line per row after the header. */
  lemma {:induction false} CsvLines(rows: seq<ReportRow>)
    requires forall i :: 0 <= i < |rows| ==> SingleLine(rows[i])
    ensures CountChar(CsvHeader + CsvBody(rows), '\n') == |rows| + 1
  {
    CsvBodyLines(rows);
    HeaderIsOneLine();
    CountCharAppend(CsvHeader, CsvBody(rows), '\n');
  }

  lemma HeaderIsOneLine()
    ensures CountChar(CsvHeader, '\n') == 1
  {
    var text := "Contract ID,Title,Parties,Violation Count";
    assert CsvHeader == text + "\n";
    assert '\n' !in text;
    CountCharAbsent(text, '\n');
    CountCharAppend(text, "\n", '\n');
    assert CountChar("\n", '\n') == CountChar([], '\n') + 1;
  }

  lemma {:induction false} CsvBodyLines(rows: seq<ReportRow>)
    requires forall i :: 0 <= i < |rows| ==> SingleLine(rows[i])
    ensures CountChar(CsvBody(rows), '\n') == |rows|
  {
    if rows != [] {
      var init := rows[..|rows| - 1];
      CsvBodyLines(init);
      CsvLineBreaks(rows[|rows| - 1]);
      CountCharAppend(CsvBody(init), CsvLine(rows[|rows| - 1]), '\n');
    }
  }

  /**
   * `GET /export-compliance-report`. A date parameter that is not a date makes the date
   * arithmetic fail, a 500; otherwise the report, as CSV when `format` is "csv".
   */
  method ExportComplianceReport(db: ContractStore, format: string, startDate: DateParam, endDate: DateParam,
                                now: int)
    returns (r: Result<ReportBody, ApiError>)
    requires db.Valid()
    ensures r.Err? <==> startDate.BadDate? || endDate.BadDate?
    ensures r.Err? ==> r.error == InternalError
    ensures r.Ok? ==>
              var start := ReportStart(startDate, now);
              var end := ReportEnd(endDate, now);
              var w := Windowed(db.violations, start, end);
              var rows := ReportRows(db.Snapshot(), w);
              && r.value == (if format == "csv" then CsvReport(CsvHeader + CsvBody(rows))
                             else JsonReport(ComplianceReport(start, end,
                                    Summary(|rows|, RowsWithViolations(rows), |w|), rows)))
              // every record of the window is listed, under exactly one contract
              && TotalListed(rows) == |w|
              && RowsWithViolations(rows) == Dashboard.CountWithViolations(db.Snapshot())
  {
    if startDate.BadDate? || endDate.BadDate? {
      return Err(InternalError);
    }
    var start := ReportStart(startDate, now);
    var end := ReportEnd(endDate, now);
    var docs := db.Snapshot();
    var w := Windowed(db.violations, start, end);
    SnapshotDistinct(db);
    var rows := CollectRows(docs, w);
    EveryRecordListedOnce(docs, w);
    WindowNamesKnown(db, w);
    KnownCountAll(w, docs);
    RowsWithViolationsAgree(docs, w);
    if format == "csv" {
      var csv := BuildCsv(rows);
      return Ok(CsvReport(csv));
    }
    return Ok(JsonReport(ComplianceReport(start, end, Summary(|rows|, RowsWithViolations(rows), |w|), rows)));
  }

  lemma SnapshotDistinct(db: ContractStore)
    requires db.Valid()
    ensures DistinctIds(db.Snapshot())
  {
    DistinctPairwise(db.ids);
  }

  /** Every record of the store names a contract of the snapshot. */
  lemma WindowNamesKnown(db: ContractStore, w: seq<Violation>)
    requires db.Valid()
    requires forall v :: v in w ==> v in db.violations
    ensures forall v :: v in w ==> Passed(db.Snapshot(), v.contractId)
  {
    var docs := db.Snapshot();
    forall v | v in w
      ensures Passed(docs, v.contractId)
    {
      assert v.contractId in db.ids;
      var j :| 0 <= j < |db.ids| && db.ids[j] == v.contractId;
      assert docs[j].id == v.contractId;
    }
  }
}
