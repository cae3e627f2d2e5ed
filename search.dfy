/**
 * `GET /search-contracts`: a text test on the chosen field, two date filters, then the
 * most recent `limit` matches.
 *
 * The query parameters arrive as checked by the route's validators: a `field` outside the
 * four names, a date that is not ISO 8601 or a `limit` outside 1..100 is a 400. Dates are
 * given already parsed, as milliseconds.
 */
module Search {
  import opened Wrappers
  import opened Text
  import opened Lifecycle
  import opened Records

  datatype SearchField = TitleField | PartyField | RegionField | AllFields

  /** The `field` parameter: `isIn(["title", "party", "region", "all"])`, default "all". */
  function FieldFromName(name: Option<string>): (f: Option<SearchField>)
    ensures name.None? ==> f == Some(AllFields)
    ensures name.Some? ==> (f.Some? <==> name.value in {"title", "party", "region", "all"})
  {
    match name
    case None => Some(AllFields)
    case Some(n) =>
      if n == "title" then Some(TitleField)
      else if n == "party" then Some(PartyField)
      else if n == "region" then Some(RegionField)
      else if n == "all" then Some(AllFields)
      else None
  }

  /** The `limit` parameter: `isInt({ min: 1, max: 100 })`, default 20. */
  function LimitFromParam(limit: Option<int>): (n: Option<nat>)
    ensures limit.None? ==> n == Some(20)
    ensures limit.Some? ==> (n.Some? <==> 1 <= limit.value <= 100) && (n.Some? ==> n.value == limit.value)
  {
    match limit
    case None => Some(20)
    case Some(k) => if 1 <= k <= 100 then Some(k) else None
  }

  /** `list && Array.isArray(list) && list.some(x => x.toLowerCase().includes(needle))`. */
  predicate SomeContains(list: Option<seq<string>>, needle: string) {
    list.Some? && exists i | 0 <= i < |list.value| :: Contains(ToLower(list.value[i]), needle)
  }

  /** `title && title.toLowerCase().includes(needle)`. */
  predicate TitleContains(d: Details, needle: string) {
    d.title != "" && Contains(ToLower(d.title), needle)
  }

  /**
   * The text test. It starts from `!searchQuery`, so an absent or empty query passes every
   * contract; a query of white space only is not searched for and passes none.
   */
  predicate TextMatch(d: Details, query: Option<string>, field: SearchField) {
    if query.None? || query.value == "" then true
    else if IsBlank(query.value) then false
    else
      var needle := ToLower(query.value);
      match field
      case TitleField => TitleContains(d, needle)
      case PartyField => SomeContains(d.parties, needle)
      case RegionField => SomeContains(d.allowedRegions, needle)
      case AllFields => TitleContains(d, needle) || SomeContains(d.parties, needle) || SomeContains(d.allowedRegions, needle)
  }

  /** No query: every contract passes the text test, whatever its fields. */
  lemma NoQueryMatchesAll(d: Details, query: Option<string>, field: SearchField)
    requires query.None? || query == Some("")
    ensures TextMatch(d, query, field)
  {
  }

  /** A non-empty query of white space only matches no contract. */
  lemma BlankQueryMatchesNothing(d: Details, query: string, field: SearchField)
    requires query != "" && IsBlank(query)
    ensures !TextMatch(d, Some(query), field)
  {
  }

  /** The test ignores the case of the query. */
  lemma TextMatchIgnoresCase(d: Details, query: string, field: SearchField)
    ensures TextMatch(d, Some(query), field) == TextMatch(d, Some(ToLower(query)), field)
  {
    ToLowerIdempotent(query);
    BlankIgnoresCase(query);
  }

  /** With a query to search for, "all" is the disjunction of the three fields. */
  lemma AllIsAnyField(d: Details, query: string)
    requires !IsBlank(query)
    ensures TextMatch(d, Some(query), AllFields) <==>
              TextMatch(d, Some(query), TitleField) || TextMatch(d, Some(query), PartyField)
              || TextMatch(d, Some(query), RegionField)
  {
  }

  /**
   * The date filters, on the guarded reading: a contract is dropped when its start parses
   * and is before `startDate`, or its end parses and is after `endDate`. A missing, null or
   * unparseable contract date never drops it.
   */
  predicate DatesKept(d: Details, startDate: DateParam, endDate: DateParam) {
    && !(startDate.OnDate? && d.startDate.At? && d.startDate.ms < startDate.ms)
    && !(endDate.OnDate? && d.endDate.At? && d.endDate.ms > endDate.ms)
  }

  lemma UndatedContractsKept(d: Details, startDate: DateParam, endDate: DateParam)
    requires !d.startDate.At? && !d.endDate.At?
    ensures DatesKept(d, startDate, endDate)
  {
  }

  /** A row of the result. */
  datatype SearchRow = SearchRow(
    id: string,
    title: string,
    parties: seq<string>,
    allowedRegions: seq<string>,
    startDate: DateField,
    endDate: DateField,
    violationCount: nat,
    timestamp: int)

  function RowOf(doc: Doc): (r: SearchRow)
    ensures r.id == doc.id && r.timestamp == doc.contract.timestamp
    ensures r.title == TitleOr(doc.contract.details, "Untitled Contract")
  {
    var d := doc.contract.details;
    SearchRow(doc.id, TitleOr(d, "Untitled Contract"), PartiesOf(d), RegionsOf(d), d.startDate, d.endDate,
              doc.contract.violationCount, doc.contract.timestamp)
  }

  predicate Included(doc: Doc, query: Option<string>, field: SearchField, startDate: DateParam, endDate: DateParam) {
    TextMatch(doc.contract.details, query, field) && DatesKept(doc.contract.details, startDate, endDate)
  }

  /** `filteredContracts` after the scan, in snapshot order. */
  function Filtered(docs: seq<Doc>, query: Option<string>, field: SearchField, startDate: DateParam,
                    endDate: DateParam): seq<SearchRow>
  {
    if docs == [] then []
    else
      var last := docs[|docs| - 1];
      Filtered(docs[..|docs| - 1], query, field, startDate, endDate)
      + (if Included(last, query, field, startDate, endDate) then [RowOf(last)] else [])
  }

  /** A row is in the scan's result exactly when it comes from an included document. */
  lemma {:induction false} FilteredExactly(docs: seq<Doc>, query: Option<string>, field: SearchField,
                                           startDate: DateParam, endDate: DateParam)
    ensures forall i :: 0 <= i < |docs| && Included(docs[i], query, field, startDate, endDate) ==>
              RowOf(docs[i]) in Filtered(docs, query, field, startDate, endDate)
    ensures forall r :: r in Filtered(docs, query, field, startDate, endDate) ==>
              exists i :: 0 <= i < |docs| && Included(docs[i], query, field, startDate, endDate) && RowOf(docs[i]) == r
  {
    if docs != [] {
      var init := docs[..|docs| - 1];
      FilteredExactly(init, query, field, startDate, endDate);
      forall i | 0 <= i < |docs| && Included(docs[i], query, field, startDate, endDate)
        ensures RowOf(docs[i]) in Filtered(docs, query, field, startDate, endDate)
      {
        if i < |init| {
          assert docs[i] == init[i];
        }
      }
      forall r | r in Filtered(docs, query, field, startDate, endDate)
        ensures exists i :: 0 <= i < |docs| && Included(docs[i], query, field, startDate, endDate) && RowOf(docs[i]) == r
      {
        if r in Filtered(init, query, field, startDate, endDate) {
          var i :| 0 <= i < |init| && Included(init[i], query, field, startDate, endDate) && RowOf(init[i]) == r;
          assert docs[i] == init[i];
        }
      }
    }
  }

  lemma FilteredStep(docs: seq<Doc>, i: nat, query: Option<string>, field: SearchField, startDate: DateParam,
                     endDate: DateParam)
    requires i < |docs|
    ensures Filtered(docs[..i + 1], query, field, startDate, endDate)
            == Filtered(docs[..i], query, field, startDate, endDate)
               + (if Included(docs[i], query, field, startDate, endDate) then [RowOf(docs[i])] else [])
  {
    assert docs[..i + 1][..i] == docs[..i];
  }

  /** The `forEach` over the snapshot that fills `filteredContracts`. */
  method FilterContracts(docs: seq<Doc>, query: Option<string>, field: SearchField, startDate: DateParam,
                         endDate: DateParam) returns (rows: seq<SearchRow>)
    ensures rows == Filtered(docs, query, field, startDate, endDate)
  {
    rows := [];
    var i := 0;
    while i < |docs|
      invariant 0 <= i <= |docs|
      invariant rows == Filtered(docs[..i], query, field, startDate, endDate)
    {
      FilteredStep(docs, i, query, field, startDate, endDate);
      var doc := docs[i];
      var d := doc.contract.details;
      var includeContract := TextMatch(d, query, field);
      if includeContract && startDate.OnDate? {
        if d.startDate.At? && d.startDate.ms < startDate.ms {
          includeContract := false;
        }
      }
      if includeContract && endDate.OnDate? {
        if d.endDate.At? && d.endDate.ms > endDate.ms {
          includeContract := false;
        }
      }
      assert includeContract == Included(doc, query, field, startDate, endDate);
      if includeContract {
        rows := rows + [RowOf(doc)];
      }
      i := i + 1;
    }
    assert docs[..|docs|] == docs;
  }

  /** Most recent first. */
  predicate NewestFirst(rows: seq<SearchRow>) {
    forall i, j :: 0 <= i < j < |rows| ==> rows[i].timestamp >= rows[j].timestamp
  }

  /** Places `r` into rows sorted newest first, ahead of the rows as recent as it. */
  function Insert(r: SearchRow, rows: seq<SearchRow>): (out: seq<SearchRow>)
    ensures |out| == |rows| + 1
    ensures out[0] == r || (rows != [] && out[0] == rows[0])
  {
    if rows == [] || r.timestamp >= rows[0].timestamp then [r] + rows
    else [rows[0]] + Insert(r, rows[1..])
  }

  lemma {:induction false} InsertSorted(r: SearchRow, rows: seq<SearchRow>)
    requires NewestFirst(rows)
    ensures NewestFirst(Insert(r, rows))
  {
    if rows != [] && r.timestamp < rows[0].timestamp {
      InsertSorted(r, rows[1..]);
      InsertAfter(rows[0], Insert(r, rows[1..]));
    }
  }

  /** A row as recent as the head of sorted rows can go in front of them. */
  lemma InsertAfter(head: SearchRow, rows: seq<SearchRow>)
    requires NewestFirst(rows)
    requires rows != [] ==> head.timestamp >= rows[0].timestamp
    ensures NewestFirst([head] + rows)
  {
  }

  lemma {:induction false} InsertPermutes(r: SearchRow, rows: seq<SearchRow>)
    ensures multiset(Insert(r, rows)) == multiset(rows) + multiset{r}
  {
    if rows != [] && r.timestamp < rows[0].timestamp {
      InsertPermutes(r, rows[1..]);
      assert rows == [rows[0]] + rows[1..];
    }
  }

  /**
   * `filteredContracts.sort((a, b) => b.timestamp - a.timestamp)` as an insertion sort:
   * like the engine's stable sort, it keeps rows of equal time in their order.
   */
  function NewestFirstSort(rows: seq<SearchRow>): (out: seq<SearchRow>)
    ensures |out| == |rows|
  {
    if rows == [] then [] else Insert(rows[0], NewestFirstSort(rows[1..]))
  }

  /** The sort orders newest first and is a permutation of its input. */
  lemma {:induction false} SortSortsAndPermutes(rows: seq<SearchRow>)
    ensures NewestFirst(NewestFirstSort(rows))
    ensures multiset(NewestFirstSort(rows)) == multiset(rows)
  {
    if rows != [] {
      SortSortsAndPermutes(rows[1..]);
      InsertSorted(rows[0], NewestFirstSort(rows[1..]));
      InsertPermutes(rows[0], NewestFirstSort(rows[1..]));
      assert rows == [rows[0]] + rows[1..];
    }
  }

  /** `slice(0, limit)`. */
  function Take(rows: seq<SearchRow>, limit: nat): (out: seq<SearchRow>)
    ensures |out| == if |rows| < limit then |rows| else limit
    ensures out == rows[..|out|]
  {
    if |rows| <= limit then rows else rows[..limit]
  }

  /** The response body. */
  datatype SearchResult = SearchResult(contracts: seq<SearchRow>, total: nat, query: string, field: SearchField)

  /** `GET /search-contracts`. */
  method SearchContracts(docs: seq<Doc>, query: Option<string>, fieldName: Option<string>, startDate: DateParam,
                         endDate: DateParam, limit: Option<int>) returns (r: Result<SearchResult, ApiError>)
    ensures r.Err? <==> FieldFromName(fieldName).None? || startDate.BadDate? || endDate.BadDate?
                        || LimitFromParam(limit).None?
    ensures r.Err? ==> r.error == BadRequest
    ensures r.Ok? ==>
              var field := FieldFromName(fieldName).value;
              var n := LimitFromParam(limit).value;
              var matched := Filtered(docs, query, field, startDate, endDate);
              && r.value.contracts == Take(NewestFirstSort(matched), n)
              && r.value.total == |r.value.contracts| <= n
              && NewestFirst(r.value.contracts)
              && r.value.query == query.GetOr("")
              && r.value.field == field
  {
    var field := FieldFromName(fieldName);
    var n := LimitFromParam(limit);
    if field.None? || startDate.BadDate? || endDate.BadDate? || n.None? {
      return Err(BadRequest);
    }
    var filteredContracts := FilterContracts(docs, query, field.value, startDate, endDate);
    var sorted := NewestFirstSort(filteredContracts);
    var top := Take(sorted, n.value);
    SortSortsAndPermutes(filteredContracts);
    TakeKeepsOrder(sorted, n.value);
    return Ok(SearchResult(top, |top|, query.GetOr(""), field.value));
  }

  lemma TakeKeepsOrder(rows: seq<SearchRow>, limit: nat)
    requires NewestFirst(rows)
    ensures NewestFirst(Take(rows, limit))
  {
  }

  /**
   * The result is the most recent of the matches: every match left out is no more recent
   * than any row returned, and every row returned is a match.
   */
  lemma ResultIsMostRecent(matched: seq<SearchRow>, limit: nat)
    ensures forall r :: r in Take(NewestFirstSort(matched), limit) ==> r in matched
    ensures forall r, x ::
              (r in Take(NewestFirstSort(matched), limit) && x in matched && x !in Take(NewestFirstSort(matched), limit))
              ==> x.timestamp <= r.timestamp
  {
    var sorted := NewestFirstSort(matched);
    var top := Take(sorted, limit);
    SortSortsAndPermutes(matched);
    forall r | r in top
      ensures r in matched
    {
      assert r in multiset(sorted);
    }
    forall r, x | r in top && x in matched && x !in top
      ensures x.timestamp <= r.timestamp
    {
      assert x in multiset(matched);
      assert x in sorted;
      var j :| 0 <= j < |sorted| && sorted[j] == x;
      var i :| 0 <= i < |top| && top[i] == r;
      assert sorted[i] == r;
      if j < |top| {
        assert false;
      }
    }
  }
}
