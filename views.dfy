/**
 * The two views recomputed from the ledger on every change: the per-cage live
 * counts shown on the cage tiles, and the date-range filter behind the table
 * and the filtered export.
 */
module Views {
  import opened Ledger

  // ---------------------------------------------------------------------------
  // Date-range filter

  const MsPerDay: int := 86_400_000

  /**
   * 00:00:00.000 of calendar day `d`, days numbered from the epoch in UTC
   * (the local offset that `setHours` applies is not part of this model).
   */
  function StartOfDay(d: int): int {
    d * MsPerDay
  }

  /** 23:59:59.999 of day `d`: the last millisecond before the next day starts. */
  function EndOfDay(d: int): (t: int)
    ensures StartOfDay(d) <= t < StartOfDay(d + 1)
  {
    StartOfDay(d) + MsPerDay - 1
  }

  /** The record's instant lies inside the bounds that are set, both ends inclusive. */
  predicate InRange(t: int, start: Option<int>, end: Option<int>) {
    && (start.Some? ==> StartOfDay(start.value) <= t)
    && (end.Some? ==> t <= EndOfDay(end.value))
  }

  /** The lower bound on its own: the records created at or after the start of day `start`. */
  function AfterStart(items: seq<Item>, start: Option<int>): (r: seq<Item>)
    ensures forall x :: multiset(r)[x] == if InRange(x.timestamp, start, None) then multiset(items)[x] else 0
    ensures IsSubsequence(r, items)
  {
    if start.Some? then Keep(items, (x: Item) => x.timestamp >= StartOfDay(start.value))
    else SubsequenceOfItself(items); items
  }

  /** The upper bound on its own: the records created at or before the end of day `end`. */
  function BeforeEnd(items: seq<Item>, end: Option<int>): (r: seq<Item>)
    ensures forall x :: multiset(r)[x] == if InRange(x.timestamp, None, end) then multiset(items)[x] else 0
    ensures IsSubsequence(r, items)
  {
    if end.Some? then Keep(items, (x: Item) => x.timestamp <= EndOfDay(end.value))
    else SubsequenceOfItself(items); items
  }

  /**
   * `filteredItems`: with no bound set the ledger itself; otherwise the records
   * inside the range, each as often as in the ledger, in ledger order.
   */
  function FilterByDate(items: seq<Item>, start: Option<int>, end: Option<int>): (r: seq<Item>)
    ensures start.None? && end.None? ==> r == items
    ensures forall x :: multiset(r)[x] == if InRange(x.timestamp, start, end) then multiset(items)[x] else 0
    ensures IsSubsequence(r, items)
  {
    if start.None? && end.None? then SubsequenceOfItself(items); items
    else
      var lower := AfterStart(items, start);
      var r := BeforeEnd(lower, end);
      SubsequenceTransitive(r, lower, items);
      r
  }

  /** A record is in the filtered table exactly when it is in the ledger and inside the range. */
  lemma FilterMembership(items: seq<Item>, start: Option<int>, end: Option<int>, x: Item)
    ensures x in FilterByDate(items, start, end) <==> x in items && InRange(x.timestamp, start, end)
  {
    var r := FilterByDate(items, start, end);
    assert x in r <==> multiset(r)[x] > 0;
    assert x in items <==> multiset(items)[x] > 0;
  }

  /** The filtered table keeps the ledger's newest-first order. */
  lemma FilterKeepsOrder(items: seq<Item>, start: Option<int>, end: Option<int>)
    requires Sorted(items)
    ensures Sorted(FilterByDate(items, start, end))
  {
    if start.Some? {
      KeepSorted(items, (x: Item) => x.timestamp >= StartOfDay(start.value));
    }
    if end.Some? {
      KeepSorted(AfterStart(items, start), (x: Item) => x.timestamp <= EndOfDay(end.value));
    }
  }

  /** Filtering on one day for both bounds selects exactly the records created that day. */
  lemma SingleDay(items: seq<Item>, d: int, x: Item)
    ensures x in FilterByDate(items, Some(d), Some(d)) <==> x in items && x.timestamp / MsPerDay == d
  {
    FilterMembership(items, Some(d), Some(d), x);
    var t := x.timestamp;
    assert StartOfDay(d) <= t <= EndOfDay(d) <==> t / MsPerDay == d by {
      var q, m := t / MsPerDay, t % MsPerDay;
      assert t == q * MsPerDay + m && 0 <= m < MsPerDay;
      if q < d {
        assert q * MsPerDay <= (d - 1) * MsPerDay;
      } else if q > d {
        assert q * MsPerDay >= (d + 1) * MsPerDay;
      }
    }
  }

  // ---------------------------------------------------------------------------
  // Per-cage live counts

  /** Some record in `items` occupies cage `c`. */
  predicate Occupied(items: seq<Item>, c: string) {
    exists i :: 0 <= i < |items| && Occupies(items[i], c)
  }

  /** The first pass of `cageCounts`: a zero for every registered cage. */
  method ZeroCounts(cages: seq<string>) returns (counts: map<string, int>)
    ensures forall c :: c in counts <==> c in cages
    ensures forall c :: c in counts ==> counts[c] == 0
  {
    counts := map[];
    for k := 0 to |cages|
      invariant forall c :: c in counts <==> c in cages[..k]
      invariant forall c :: c in counts ==> counts[c] == 0
    {
      counts := counts[cages[k] := 0];
    }
    assert cages[..|cages|] == cages;
  }

  /**
   * `cageCounts`: a zero entry for every registered cage, then one pass over
   * the ledger adding one for each record that is 'In Cage' in a named cage.
   * Registered cages and cages that records still occupy get keys, each
   * holding the number of records occupying it.
   */
  method CageCounts(items: seq<Item>, cages: seq<string>) returns (counts: map<string, int>)
    ensures forall c :: c in counts <==> c in cages || Occupied(items, c)
    ensures forall c :: c in counts ==> counts[c] == CountInCage(items, c)
  {
    counts := ZeroCounts(cages);
    for i := 0 to |items|
      invariant forall c :: c in counts <==> c in cages || CountInCage(items[..i], c) > 0
      invariant forall c :: c in counts ==> counts[c] == CountInCage(items[..i], c)
    {
      var x := items[i];
      assert items[..i + 1] == items[..i] + [x];
      forall c ensures CountInCage(items[..i + 1], c) == CountInCage(items[..i], c) + (if Occupies(x, c) then 1 else 0) {
        CountSnoc(items[..i], x, c);
      }
      if x.cage.Some? && x.status == InCage {
        var name := x.cage.value;
        counts := counts[name := (if name in counts then counts[name] else 0) + 1];
      }
    }
    assert items[..|items|] == items;
    forall c ensures CountInCage(items, c) > 0 <==> Occupied(items, c) {
      CountRange(items, c);
    }
  }
}
