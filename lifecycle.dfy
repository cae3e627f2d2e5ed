/**
 * Lifecycle classification of a contract by its `duration.end_date`, as each call site
 * reads that field, and the arithmetic of day counts and the compliance rate.
 *
 * Dates are integer milliseconds. The call sites read the stored field in two ways:
 *  - guarded, `end_date ? new Date(end_date) : null`: a missing, empty or null field is
 *    "no date", an unparseable string is an Invalid Date whose comparisons are all false;
 *  - unguarded, `new Date(end_date)`: a missing or empty field and an unparseable string are
 *    Invalid Dates (skipped by `isNaN`), while `null` is the epoch, 0 ms.
 */
module Lifecycle {
  import opened Wrappers

  /** 1000 * 60 * 60 * 24 milliseconds. */
  const DAY: int := 86400000

  /** The stored `end_date` (or `start_date`) of a contract. */
  datatype DateField =
    | Absent          // no such field, or the empty string
    | Null            // the JSON value null
    | Invalid         // a string that does not parse as a date
    | At(ms: int)     // a string that parses to this instant

  /** The unguarded reading `new Date(field)`, where None is an Invalid Date. */
  function UnguardedDate(f: DateField): (r: Option<int>)
    ensures r.Some? <==> f.At? || f.Null?
  {
    match f
    case Absent => None
    case Null => Some(0)
    case Invalid => None
    case At(ms) => Some(ms)
  }

  /** Listed by /active-contracts: `!endDate || endDate >= now` on the guarded reading. */
  predicate ListedActive(f: DateField, now: int) {
    f.Absent? || f.Null? || (f.At? && f.ms >= now)
  }

  /** Listed by /expired-contracts: `endDate && endDate < now` on the guarded reading. */
  predicate ListedExpired(f: DateField, now: int) {
    f.At? && f.ms < now
  }

  /** Counted as active by the overview and the weekly report (same test as the listing). */
  predicate CountedActive(f: DateField, now: int) {
    ListedActive(f, now)
  }

  /** Counted as expired by the overview and the weekly report: the `else` of the test above. */
  predicate CountedExpired(f: DateField, now: int) {
    !CountedActive(f, now)
  }

  /** Selected by the expiry checks: `!isNaN(endDate) && endDate < now` on the unguarded reading. */
  predicate SweepExpired(f: DateField, now: int) {
    UnguardedDate(f).Some? && UnguardedDate(f).value < now
  }

  /** Selected by the near-expiry job: `endDate && endDate > now && endDate <= warningDate`. */
  predicate NearExpiry(f: DateField, now: int, warningDays: int) {
    f.At? && now < f.ms <= now + warningDays * DAY
  }

  /** Counted as newly expired by the weekly report: `!isNaN(endDate) && weekAgo <= endDate <= now`. */
  predicate NewlyExpired(f: DateField, weekAgo: int, now: int) {
    UnguardedDate(f).Some? && weekAgo <= UnguardedDate(f).value <= now
  }

  /**
   * How the three listings divide the contracts: never both active and expired; an
   * unparseable end date is in neither listing, yet the overview counts it as expired.
   */
  lemma ListingsClassify(f: DateField, now: int)
    ensures !(ListedActive(f, now) && ListedExpired(f, now))
    ensures ListedActive(f, now) || ListedExpired(f, now) <==> !f.Invalid?
    ensures CountedExpired(f, now) <==> ListedExpired(f, now) || f.Invalid?
  {
  }

  /**
   * The expiry checks select what /expired-contracts lists, plus a null end date whenever
   * `now` is past the epoch; an unparseable date is skipped by both.
   */
  lemma SweepVersusListing(f: DateField, now: int)
    ensures SweepExpired(f, now) <==> ListedExpired(f, now) || (f.Null? && 0 < now)
  {
  }

  /** No contract is both nearing expiry and selected by the expiry sweep. */
  lemma NearExpiryDisjointFromSweep(f: DateField, now: int, warningDays: int)
    ensures !(NearExpiry(f, now, warningDays) && SweepExpired(f, now))
  {
  }

  /** `Math.floor((now - endDate) / DAY)`. */
  function DaysExpired(now: int, end: int): (d: int)
    ensures d * DAY <= now - end < (d + 1) * DAY
    ensures end < now ==> d >= 0
  {
    (now - end) / DAY
  }

  /** `Math.ceil((endDate - now) / DAY)`. */
  function DaysUntil(end: int, now: int): (d: int)
    ensures (d - 1) * DAY < end - now <= d * DAY
    ensures now < end ==> d >= 1
    ensures forall days: int :: end <= now + days * DAY ==> d <= days
  {
    -((now - end) / DAY)
  }

  /**
   * `totalContracts > 0 ? Math.round(((total - withViolations) / total) * 100) : 100`,
   * where Math.round(x) is the integer nearest x, halves rounded up: floor(x + 1/2).
   */
  function ComplianceRate(total: nat, withViolations: nat): (rate: int)
    ensures total == 0 ==> rate == 100
    ensures total > 0 ==>
      2 * total * rate <= 200 * (total - withViolations) + total < 2 * total * (rate + 1)
    ensures withViolations <= total ==> 0 <= rate <= 100
  {
    if total > 0 then RoundedShare(total, withViolations) else 100
  }

  function RoundedShare(total: nat, withViolations: nat): (rate: int)
    requires total > 0
    ensures 2 * total * rate <= 200 * (total - withViolations) + total < 2 * total * (rate + 1)
    ensures withViolations <= total ==> 0 <= rate <= 100
  {
    RoundedShareBounds(total, withViolations);
    (200 * (total - withViolations) + total) / (2 * total)
  }

  lemma RoundedShareBounds(total: nat, withViolations: nat)
    requires total > 0
    ensures var q := (200 * (total - withViolations) + total) / (2 * total);
      && 2 * total * q <= 200 * (total - withViolations) + total < 2 * total * (q + 1)
      && (withViolations <= total ==> 0 <= q <= 100)
  {
    var n := 200 * (total - withViolations) + total;
    var d := 2 * total;
    var q := n / d;
    DivBounds(n, d);
    if withViolations <= total {
      DivNonNegative(n, d, q);
      DivAtMost(n, d, q, 100);
    }
  }

  lemma DivBounds(n: int, d: int)
    requires d > 0
    ensures d * (n / d) <= n < d * (n / d + 1)
  {
  }

  lemma DivNonNegative(n: int, d: int, q: int)
    requires d > 0 && 0 <= n && d * q <= n < d * (q + 1)
    ensures 0 <= q
  {
    MultiplyMonotone(d, q + 1, 0);
  }

  lemma DivAtMost(n: int, d: int, q: int, bound: int)
    requires d > 0 && d * q <= n < d * (q + 1) && n < d * (bound + 1)
    ensures q <= bound
  {
    MultiplyMonotone(d, bound + 1, q);
  }

  /** More contracts with violations never raise the rate (total fixed). */
  lemma {:induction false} ComplianceRateAntitone(total: nat, fewer: nat, more: nat)
    requires fewer <= more
    ensures ComplianceRate(total, more) <= ComplianceRate(total, fewer)
  {
    if total > 0 {
      var lo := ComplianceRate(total, more);
      var hi := ComplianceRate(total, fewer);
      assert 200 * (total - more) + total <= 200 * (total - fewer) + total;
      MultiplyMonotone(2 * total, hi + 1, lo);
    }
  }

  lemma MultiplyMonotone(k: nat, a: int, b: int)
    ensures a <= b ==> k * a <= k * b
  {
  }

  /** January 1st 2020 to January 1st 2024 is 1461 days. */
  lemma DaysExpiredExample()
    ensures DaysExpired(1704067200000, 1577836800000) == 1461
  {
  }
}
