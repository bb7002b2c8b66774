/**
 * The order ledger's records and the pure transformations the handlers apply
 * to the record list: the duplicate-id lookup, the per-cage live count, the
 * filter used for deletion and date ranges, the retire map, the rename
 * cascade, and the synthetic bulk batch.
 */
module Ledger {
  import opened Text

  datatype Option<T> = None | Some(value: T)

  /** `'In Cage' | 'Completed' | 'Cancelled'`; nothing in the tracker produces `Cancelled`. */
  datatype Status = InCage | Completed | Cancelled

  /**
   * One order record. `timestamp` is the creation instant in milliseconds
   * (the source stores its ISO-8601 rendering and compares parsed instants).
   */
  datatype Item = Item(id: string, cage: Option<string>, timestamp: int, status: Status)

  /** Most recent first: the order every ledger update leaves the list in. */
  predicate Sorted(s: seq<Item>) {
    forall i, j :: 0 <= i < j < |s| ==> s[i].timestamp >= s[j].timestamp
  }

  lemma SortedSlice(s: seq<Item>, lo: nat, hi: nat)
    requires Sorted(s) && lo <= hi <= |s|
    ensures Sorted(s[lo..hi])
  {
    forall i, j | 0 <= i < j < hi - lo ensures s[lo..hi][i].timestamp >= s[lo..hi][j].timestamp {
      assert s[lo..hi][i] == s[lo + i] && s[lo..hi][j] == s[lo + j];
    }
  }

  /** `items.find(item => item.id === id)` finds something. */
  predicate HasId(s: seq<Item>, id: string) {
    exists i :: 0 <= i < |s| && s[i].id == id
  }

  // ---------------------------------------------------------------------------
  // Filtering (Array.prototype.filter)

  /** `s` with its elements in order, some of them possibly dropped. */
  predicate IsSubsequence<T(==)>(r: seq<T>, s: seq<T>)
    decreases |s|
  {
    if r == [] then true
    else if s == [] then false
    else (r[0] == s[0] && IsSubsequence(r[1..], s[1..])) || IsSubsequence(r, s[1..])
  }

  lemma {:induction false} SubsequenceOfItself<T>(s: seq<T>)
    ensures IsSubsequence(s, s)
  {
    if s != [] {
      SubsequenceOfItself(s[1..]);
    }
  }

  lemma {:induction false} SubsequenceTransitive<T>(a: seq<T>, b: seq<T>, c: seq<T>)
    requires IsSubsequence(a, b) && IsSubsequence(b, c)
    ensures IsSubsequence(a, c)
    decreases |c|
  {
    if a != [] {
      assert b != [] && c != [];
      if b[0] == c[0] && IsSubsequence(b[1..], c[1..]) {
        if a[0] == b[0] && IsSubsequence(a[1..], b[1..]) {
          SubsequenceTransitive(a[1..], b[1..], c[1..]);
        } else {
          SubsequenceTransitive(a, b[1..], c[1..]);
        }
      } else {
        SubsequenceTransitive(a, b, c[1..]);
      }
    }
  }

  /**
   * `s.filter(p)`: the elements of `s` that satisfy `p`, each as often as in `s`,
   * in their original order.
   */
  function Keep(s: seq<Item>, p: Item -> bool): (r: seq<Item>)
    ensures |r| <= |s|
    ensures forall x :: multiset(r)[x] == if p(x) then multiset(s)[x] else 0
    ensures forall x :: x in r <==> x in s && p(x)
    ensures IsSubsequence(r, s)
    ensures (forall i :: 0 <= i < |s| ==> p(s[i])) ==> r == s
  {
    if s == [] then []
    else
      var rest := Keep(s[1..], p);
      assert s == [s[0]] + s[1..];
      if p(s[0]) then
        assert ([s[0]] + rest)[1..] == rest;
        [s[0]] + rest
      else
        rest
  }

  /** Filtering keeps the newest-first order. */
  lemma {:induction false} KeepSorted(s: seq<Item>, p: Item -> bool)
    requires Sorted(s)
    ensures Sorted(Keep(s, p))
  {
    if s != [] {
      KeepSorted(s[1..], p);
      var rest := Keep(s[1..], p);
      if p(s[0]) {
        forall j | 0 < j < |rest| + 1
          ensures ([s[0]] + rest)[0].timestamp >= ([s[0]] + rest)[j].timestamp
        {
          assert rest[j - 1] in s[1..];
        }
      }
    }
  }

  // ---------------------------------------------------------------------------
  // Per-cage live count

  /** The record occupies cage `c`: it is assigned to `c` and still 'In Cage'. */
  predicate Occupies(x: Item, c: string) {
    x.cage == Some(c) && x.status == InCage
  }

  /** How many records occupy cage `c`. */
  function CountInCage(s: seq<Item>, c: string): nat {
    if s == [] then 0
    else (if Occupies(s[0], c) then 1 else 0) + CountInCage(s[1..], c)
  }

  /** A cage holds at most every record, and holds none exactly when no record occupies it. */
  lemma {:induction false} CountRange(s: seq<Item>, c: string)
    ensures CountInCage(s, c) <= |s|
    ensures CountInCage(s, c) == 0 <==> forall i :: 0 <= i < |s| ==> !Occupies(s[i], c)
  {
    if s != [] {
      CountRange(s[1..], c);
      assert forall i :: 1 <= i < |s| ==> s[i] == s[1..][i - 1];
    }
  }

  lemma {:induction false} CountConcat(a: seq<Item>, b: seq<Item>, c: string)
    ensures CountInCage(a + b, c) == CountInCage(a, c) + CountInCage(b, c)
  {
    if a != [] {
      assert (a + b)[0] == a[0] && (a + b)[1..] == a[1..] + b;
      CountConcat(a[1..], b, c);
    } else {
      assert a + b == b;
    }
  }

  /** Appending one record adds one to the cage it occupies and nothing elsewhere. */
  lemma CountSnoc(s: seq<Item>, x: Item, c: string)
    ensures CountInCage(s + [x], c) == CountInCage(s, c) + (if Occupies(x, c) then 1 else 0)
  {
    CountConcat(s, [x], c);
  }

  /** Inserting one record anywhere adds one to the cage it occupies and nothing elsewhere. */
  lemma CountInsert(s: seq<Item>, k: nat, x: Item, c: string)
    requires k <= |s|
    ensures CountInCage(s[..k] + [x] + s[k..], c) == CountInCage(s, c) + (if Occupies(x, c) then 1 else 0)
  {
    assert s == s[..k] + s[k..];
    CountConcat(s[..k] + [x], s[k..], c);
    CountConcat(s[..k], [x], c);
    CountConcat(s[..k], s[k..], c);
  }

  /** A list whose every record occupies `c` counts all of them for `c`. */
  lemma {:induction false} CountAllOccupy(s: seq<Item>, c: string)
    requires forall i :: 0 <= i < |s| ==> Occupies(s[i], c)
    ensures CountInCage(s, c) == |s|
  {
    if s != [] {
      CountAllOccupy(s[1..], c);
    }
  }

  /** Taking the first record of `a` and a matching record of `b` out of two equal multisets leaves equal multisets. */
  lemma RemoveMatching(a: seq<Item>, b: seq<Item>, k: nat)
    requires a != [] && k < |b| && b[k] == a[0] && multiset(a) == multiset(b)
    ensures multiset(a[1..]) == multiset(b[..k] + b[k + 1..])
  {
    var x := a[0];
    assert a == [x] + a[1..];
    assert b == b[..k] + [x] + b[k + 1..];
    assert multiset(b) == multiset(b[..k]) + multiset{x} + multiset(b[k + 1..]);
    assert multiset(a[1..]) == multiset(a) - multiset{x};
    assert multiset(b[..k] + b[k + 1..]) == multiset(b) - multiset{x};
  }

  /** The count depends only on which records the ledger holds, not on their order. */
  lemma {:induction false} CountPermutation(a: seq<Item>, b: seq<Item>, c: string)
    requires multiset(a) == multiset(b)
    ensures CountInCage(a, c) == CountInCage(b, c)
    decreases |a|
  {
    if a != [] {
      var x := a[0];
      assert x in multiset(b);
      var k :| 0 <= k < |b| && b[k] == x;
      RemoveMatching(a, b, k);
      CountPermutation(a[1..], b[..k] + b[k + 1..], c);
      assert b == b[..k] + [x] + b[k + 1..];
      CountConcat(b[..k], b[k + 1..], c);
      CountConcat(b[..k] + [x], b[k + 1..], c);
      CountConcat(b[..k], [x], c);
    }
  }

  // ---------------------------------------------------------------------------
  // Deleting one record

  /**
   * `items.filter(item => item.id !== id || item.timestamp !== timestamp)`:
   * every record with that (id, timestamp) key goes, everything else stays in
   * order, and a key that matches nothing leaves the list as it was.
   */
  function DeleteRecord(s: seq<Item>, id: string, timestamp: int): (r: seq<Item>)
    ensures forall i :: 0 <= i < |r| ==> r[i].id != id || r[i].timestamp != timestamp
    ensures forall x: Item :: x.id != id || x.timestamp != timestamp ==> multiset(r)[x] == multiset(s)[x]
    ensures IsSubsequence(r, s)
    ensures (forall i :: 0 <= i < |s| ==> s[i].id != id || s[i].timestamp != timestamp) ==> r == s
  {
    var r := Keep(s, (x: Item) => x.id != id || x.timestamp != timestamp);
    assert forall i :: 0 <= i < |r| ==> r[i] in r;
    r
  }

  // ---------------------------------------------------------------------------
  // Retiring a cage

  /** The per-record step of the retire map. */
  function Retire(x: Item, c: string): Item {
    if Occupies(x, c) then x.(status := Completed) else x
  }

  /**
   * `items.map(...)` that sets every record occupying `c` to 'Completed' and
   * leaves every other record, and every other field, as it was.
   */
  function RetireCage(s: seq<Item>, c: string): (r: seq<Item>)
    ensures |r| == |s|
    ensures forall i :: 0 <= i < |s| ==>
      && r[i].id == s[i].id && r[i].cage == s[i].cage && r[i].timestamp == s[i].timestamp
      && r[i].status == (if Occupies(s[i], c) then Completed else s[i].status)
  {
    if s == [] then [] else [Retire(s[0], c)] + RetireCage(s[1..], c)
  }

  /** After retiring `c` nothing occupies `c`, and every other cage keeps its count. */
  lemma {:induction false} CountAfterRetire(s: seq<Item>, c: string, d: string)
    ensures CountInCage(RetireCage(s, c), d) == if d == c then 0 else CountInCage(s, d)
  {
    if s != [] {
      var r := RetireCage(s, c);
      assert r[1..] == RetireCage(s[1..], c);
      CountAfterRetire(s[1..], c, d);
    }
  }

  lemma RetireKeepsOrder(s: seq<Item>, c: string)
    requires Sorted(s)
    ensures Sorted(RetireCage(s, c))
  {
  }

  // ---------------------------------------------------------------------------
  // Renaming a cage

  function Relabel(x: Item, from: string, to: string): Item {
    if x.cage == Some(from) then x.(cage := Some(to)) else x
  }

  /**
   * The rename cascade: every record in cage `from` moves to cage `to`; nothing
   * else about any record changes.
   */
  function RenameItems(s: seq<Item>, from: string, to: string): (r: seq<Item>)
    ensures |r| == |s|
    ensures forall i :: 0 <= i < |s| ==>
      && r[i].id == s[i].id && r[i].timestamp == s[i].timestamp && r[i].status == s[i].status
      && r[i].cage == (if s[i].cage == Some(from) then Some(to) else s[i].cage)
    ensures from != to ==> forall i :: 0 <= i < |r| ==> r[i].cage != Some(from)
  {
    if s == [] then [] else [Relabel(s[0], from, to)] + RenameItems(s[1..], from, to)
  }

  /**
   * Counts after the cascade: the old name is empty, the new name holds what
   * both names held before, and every other cage is untouched.
   */
  lemma {:induction false} CountAfterRename(s: seq<Item>, from: string, to: string, d: string)
    requires from != to
    ensures CountInCage(RenameItems(s, from, to), d) ==
      if d == from then 0
      else if d == to then CountInCage(s, from) + CountInCage(s, to)
      else CountInCage(s, d)
  {
    if s != [] {
      var r := RenameItems(s, from, to);
      assert r[1..] == RenameItems(s[1..], from, to);
      CountAfterRename(s[1..], from, to, d);
    }
  }

  lemma RenameKeepsOrder(s: seq<Item>, from: string, to: string)
    requires Sorted(s)
    ensures Sorted(RenameItems(s, from, to))
  {
  }

  // ---------------------------------------------------------------------------
  // Synthetic bulk orders

  /** `Bulk-${cage}-${Date.now()}-${i}`. */
  function BulkId(cage: string, now: int, i: nat): string {
    "Bulk-" + cage + "-" + IntToString(now) + "-" + NatToString(i)
  }

  /** The index suffix alone keeps two ids of one batch apart, whatever the clock read. */
  lemma BulkIdsDistinct(cage: string, now1: int, now2: int, i: nat, j: nat)
    requires i != j
    ensures BulkId(cage, now1, i) != BulkId(cage, now2, j)
  {
    if BulkId(cage, now1, i) == BulkId(cage, now2, j) {
      var di, dj := NatToString(i), NatToString(j);
      assert forall k :: 0 <= k < |di| ==> di[k] != '-';
      assert forall k :: 0 <= k < |dj| ==> dj[k] != '-';
      TailAfterLastDash("Bulk-" + cage + "-" + IntToString(now1), di,
                        "Bulk-" + cage + "-" + IntToString(now2), dj);
      NatToStringInjective(i, j);
    }
  }

  /** Record `i` of a batch: its id from the clock reading `now`, created at `stamp`, 'In Cage'. */
  function BulkItem(cage: string, now: int, stamp: int, i: nat): Item {
    Item(BulkId(cage, now, i), Some(cage), stamp, InCage)
  }

  /**
   * The batch `handleBulkAdd` builds: record `i` gets the id built from the
   * clock reading `nows[i]` and index `i`, the creation instant `stamps[i]`,
   * cage `cage` and status 'In Cage'.
   */
  function BulkBatch(cage: string, nows: seq<int>, stamps: seq<int>): (r: seq<Item>)
    requires |nows| == |stamps|
    ensures |r| == |nows|
  {
    seq(|nows|, i requires 0 <= i < |nows| => BulkItem(cage, nows[i], stamps[i], i))
  }

  /**
   * Every record of a batch occupies its cage, and no two share an id, even
   * when the clock reads the same for both.
   */
  lemma BulkBatchDistinct(cage: string, nows: seq<int>, stamps: seq<int>)
    requires |nows| == |stamps|
    ensures var r := BulkBatch(cage, nows, stamps);
      && (forall i :: 0 <= i < |r| ==> Occupies(r[i], cage))
      && (forall i, j :: 0 <= i < j < |r| ==> r[i].id != r[j].id)
  {
    var r := BulkBatch(cage, nows, stamps);
    forall i, j | 0 <= i < j < |r| ensures r[i].id != r[j].id {
      BulkIdsDistinct(cage, nows[i], nows[j], i, j);
    }
  }
}
