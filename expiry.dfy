/**
 * The selection shared by the HTTP expiry check and the scheduled sweep: a contract is
 * expired when `new Date(end_date)` parses and is before `now`. Both list the selected
 * contracts with the title `contractDetails.title || "Unknown"`.
 */
module Expiry {
  import opened Wrappers
  import opened Lifecycle
  import opened Records

  /** An entry of the expired lists the expiry checks build: id, title and the parsed end date. */
  datatype ExpiredEntry = ExpiredEntry(contractId: string, title: string, endDate: int)

  /**
   * `new Date(end_date)`, kept when it parses and is before `now` (the selection of both
   * expiry checks), with the title shown for it.
   */
  function ExpiredEntryOf(d: Doc, now: int): (e: Option<ExpiredEntry>)
    ensures e.Some? <==> SweepExpired(d.contract.details.endDate, now)
    ensures e.Some? ==> e.value.contractId == d.id && e.value.endDate < now
  {
    var end := UnguardedDate(d.contract.details.endDate);
    if end.Some? && end.value < now then Some(ExpiredEntry(d.id, TitleOr(d.contract.details, "Unknown"), end.value))
    else None
  }

  /** The `expiredContracts` list built by the scan, in snapshot order. */
  function ExpiredEntries(docs: seq<Doc>, now: int): seq<ExpiredEntry> {
    if docs == [] then []
    else
      var last := docs[|docs| - 1];
      ExpiredEntries(docs[..|docs| - 1], now)
      + (if ExpiredEntryOf(last, now).Some? then [ExpiredEntryOf(last, now).value] else [])
  }

  /** One more document of the snapshot scanned. */
  lemma ExpiredEntriesStep(docs: seq<Doc>, i: nat, now: int)
    requires i < |docs|
    ensures ExpiredEntries(docs[..i + 1], now) == ExpiredEntries(docs[..i], now)
              + (if ExpiredEntryOf(docs[i], now).Some? then [ExpiredEntryOf(docs[i], now).value] else [])
  {
    assert docs[..i + 1][..i] == docs[..i];
  }

  /**
   * The scan lists a contract exactly when its end date parses and is past, with that
   * date; every listed entry comes from such a contract.
   */
  lemma {:induction false} ExpiredEntriesExactly(docs: seq<Doc>, now: int)
    ensures forall i :: 0 <= i < |docs| && ExpiredEntryOf(docs[i], now).Some? ==>
              ExpiredEntryOf(docs[i], now).value in ExpiredEntries(docs, now)
    ensures forall e :: e in ExpiredEntries(docs, now) ==>
              exists i :: 0 <= i < |docs| && ExpiredEntryOf(docs[i], now) == Some(e)
  {
    if docs != [] {
      var init := docs[..|docs| - 1];
      ExpiredEntriesExactly(init, now);
      forall i | 0 <= i < |docs| && ExpiredEntryOf(docs[i], now).Some?
        ensures ExpiredEntryOf(docs[i], now).value in ExpiredEntries(docs, now)
      {
        if i < |init| {
          assert docs[i] == init[i];
        }
      }
      forall e | e in ExpiredEntries(docs, now)
        ensures exists i :: 0 <= i < |docs| && ExpiredEntryOf(docs[i], now) == Some(e)
      {
        if e in ExpiredEntries(init, now) {
          var i :| 0 <= i < |init| && ExpiredEntryOf(init[i], now) == Some(e);
          assert docs[i] == init[i];
        } else {
          assert ExpiredEntryOf(docs[|docs| - 1], now) == Some(e);
        }
      }
    }
  }
}
