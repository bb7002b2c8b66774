/**
 * The newest-first sort the add handlers run on their fresh array
 * (`updatedItems.sort((a, b) => b - a)` on parsed timestamps).
 * `Array.prototype.sort` is stable, so records with equal timestamps keep the
 * order they had in the array. `SortDesc` is that sort as a function (a stable
 * insertion sort); `SortNewestFirst` is the in-place version, proved equal to it.
 */
module Sorting {
  import opened Ledger

  /**
   * Inserts `x` into `t` behind every record at least as recent as `x` and
   * ahead of the strictly older ones found from the end.
   */
  function InsertDesc(t: seq<Item>, x: Item): (r: seq<Item>)
    ensures |r| == |t| + 1
  {
    if t == [] || t[|t| - 1].timestamp >= x.timestamp then t + [x]
    else InsertDesc(t[..|t| - 1], x) + [t[|t| - 1]]
  }

  /** Inserting adds `x` and loses nothing. */
  lemma {:induction false} InsertDescPermutes(t: seq<Item>, x: Item)
    ensures multiset(InsertDesc(t, x)) == multiset(t) + multiset{x}
  {
    if t != [] && t[|t| - 1].timestamp < x.timestamp {
      InsertDescPermutes(t[..|t| - 1], x);
      assert t == t[..|t| - 1] + [t[|t| - 1]];
    }
  }

  /** Inserting into a newest-first list keeps it newest-first. */
  lemma {:induction false} InsertDescSorted(t: seq<Item>, x: Item)
    requires Sorted(t)
    ensures Sorted(InsertDesc(t, x))
  {
    if t != [] && t[|t| - 1].timestamp < x.timestamp {
      var last := t[|t| - 1];
      var front := t[..|t| - 1];
      InsertDescSorted(front, x);
      InsertDescPermutes(front, x);
      var r' := InsertDesc(front, x);
      forall k | 0 <= k < |r'| ensures r'[k].timestamp >= last.timestamp {
        assert r'[k] in multiset(r');
      }
    }
  }

  /** The stable newest-first sort of `s`. */
  function SortDesc(s: seq<Item>): (r: seq<Item>)
    ensures |r| == |s|
  {
    if s == [] then [] else InsertDesc(SortDesc(s[..|s| - 1]), s[|s| - 1])
  }

  /** The sort is a permutation of its input ... */
  lemma {:induction false} SortDescPermutes(s: seq<Item>)
    ensures multiset(SortDesc(s)) == multiset(s)
  {
    if s != [] {
      SortDescPermutes(s[..|s| - 1]);
      InsertDescPermutes(SortDesc(s[..|s| - 1]), s[|s| - 1]);
      assert s == s[..|s| - 1] + [s[|s| - 1]];
    }
  }

  /** ... and its output is newest-first. */
  lemma {:induction false} SortDescSorted(s: seq<Item>)
    ensures Sorted(SortDesc(s))
  {
    if s != [] {
      SortDescSorted(s[..|s| - 1]);
      InsertDescSorted(SortDesc(s[..|s| - 1]), s[|s| - 1]);
    }
  }

  /**
   * Where the scan from the end stops: `x` lands at position `j` when every
   * record from `j` on is strictly older than `x` and the one before `j` is not.
   */
  lemma {:induction false} InsertDescAt(t: seq<Item>, x: Item, j: nat)
    requires j <= |t|
    requires forall k :: j <= k < |t| ==> t[k].timestamp < x.timestamp
    requires j == 0 || t[j - 1].timestamp >= x.timestamp
    ensures InsertDesc(t, x) == t[..j] + [x] + t[j..]
  {
    if j < |t| {
      var front := t[..|t| - 1];
      InsertDescAt(front, x, j);
      assert front[..j] == t[..j];
      assert front[j..] + [t[|t| - 1]] == t[j..];
    }
  }

  /** A list that is already newest-first comes out of the sort unchanged. */
  lemma {:induction false} SortDescOfSorted(s: seq<Item>)
    requires Sorted(s)
    ensures SortDesc(s) == s
  {
    if s != [] {
      var front := s[..|s| - 1];
      SortDescOfSorted(front);
      assert s == front + [s[|s| - 1]];
    }
  }

  /** How many records of `s` are strictly more recent than `t`. */
  function NewerCount(s: seq<Item>, t: int): (k: nat)
    ensures k <= |s|
    ensures forall i :: 0 <= i < k ==> s[i].timestamp > t
    ensures Sorted(s) ==> forall i :: k <= i < |s| ==> s[i].timestamp <= t
  {
    if s == [] || s[0].timestamp <= t then 0 else 1 + NewerCount(s[1..], t)
  }

  /** Any split point between newer and not-newer records is the one `NewerCount` finds. */
  lemma {:induction false} NewerCountAt(s: seq<Item>, t: int, k: nat)
    requires k <= |s|
    requires forall i :: 0 <= i < k ==> s[i].timestamp > t
    requires forall i :: k <= i < |s| ==> s[i].timestamp <= t
    ensures NewerCount(s, t) == k
  {
    if k > 0 {
      NewerCountAt(s[1..], t, k - 1);
    }
  }

  /**
   * Putting one record in front of a newest-first list and sorting places it
   * after every strictly newer record and before all the others.
   */
  lemma {:induction false} SortDescPrepend(x: Item, t: seq<Item>)
    requires Sorted(t)
    ensures var k := NewerCount(t, x.timestamp);
      SortDesc([x] + t) == t[..k] + [x] + t[k..]
  {
    var s := [x] + t;
    if t == [] {
      assert s[..|s| - 1] == [];
    } else {
      var front, last := t[..|t| - 1], t[|t| - 1];
      assert t == front + [last];
      SortedSlice(t, 0, |front|);
      SortDescPrepend(x, front);
      assert s[..|s| - 1] == [x] + front && s[|s| - 1] == last;
      assert SortDesc(s) == InsertDesc(SortDesc([x] + front), last);
      PrependStep(x, front, last);
    }
  }

  /** The inductive step of `SortDescPrepend`: one more record, no newer than the rest, at the end. */
  lemma PrependStep(x: Item, front: seq<Item>, last: Item)
    requires Sorted(front + [last])
    ensures var t, k, k' := front + [last], NewerCount(front, x.timestamp), NewerCount(front + [last], x.timestamp);
      InsertDesc(front[..k] + [x] + front[k..], last) == t[..k'] + [x] + t[k'..]
  {
    var t := front + [last];
    SortedSlice(t, 0, |front|);
    assert t[..|front|] == front;
    var k := NewerCount(front, x.timestamp);
    assert front == [] || front[|front| - 1].timestamp >= last.timestamp by {
      if front != [] {
        assert t[|front| - 1] == front[|front| - 1] && t[|front|] == last;
        assert t[|front| - 1].timestamp >= t[|front|].timestamp;
      }
    }
    if last.timestamp > x.timestamp {
      assert forall i :: 0 <= i < |t| ==> t[i].timestamp > x.timestamp;
      NewerCountAt(front, x.timestamp, |front|);
      NewerCountAt(t, x.timestamp, |t|);
      PrependNewer(x, front, last);
      assert front[..k] + [x] + front[k..] == front + [x];
      assert t[..|t|] + [x] + t[|t|..] == front + [last] + [x];
    } else {
      forall i | 0 <= i < |t| ensures (i < k) == (t[i].timestamp > x.timestamp) {
        if i < |front| {
          assert t[i] == front[i];
        }
      }
      NewerCountAt(t, x.timestamp, k);
      PrependOlder(x, front, last, k);
    }
  }

  /** The step of `SortDescPrepend` when the record added at the end is newer than `x`. */
  lemma PrependNewer(x: Item, front: seq<Item>, last: Item)
    requires front == [] || front[|front| - 1].timestamp >= last.timestamp
    requires last.timestamp > x.timestamp
    ensures InsertDesc(front + [x], last) == front + [last] + [x]
  {
    assert (front + [x])[..|front|] == front;
  }

  /** The step of `SortDescPrepend` when the record added at the end is not newer than `x`. */
  lemma PrependOlder(x: Item, front: seq<Item>, last: Item, k: nat)
    requires k <= |front|
    requires front == [] || front[|front| - 1].timestamp >= last.timestamp
    requires last.timestamp <= x.timestamp
    ensures var t := front + [last];
      InsertDesc(front[..k] + [x] + front[k..], last) == t[..k] + [x] + t[k..]
  {
    var t := front + [last];
    var inner := front[..k] + [x] + front[k..];
    assert inner[|inner| - 1] == if k < |front| then front[|front| - 1] else x;
    assert t[..k] == front[..k];
    assert t[k..] == front[k..] + [last];
  }

  /**
   * The inner loop of one insertion step: moves each record of `a[..i]` that
   * is strictly older than `x` one place up, scanning from the end, and
   * returns the gap left where `x` belongs.
   */
  method ShiftOlder(a: array<Item>, i: nat, x: Item) returns (j: nat)
    requires i < a.Length
    modifies a
    ensures j <= i
    ensures forall k :: 0 <= k < j ==> a[k] == old(a[k])
    ensures forall k :: j < k <= i ==> a[k] == old(a[k - 1])
    ensures forall k :: i < k < a.Length ==> a[k] == old(a[k])
    ensures forall k :: j <= k < i ==> old(a[k]).timestamp < x.timestamp
    ensures j == 0 || old(a[j - 1]).timestamp >= x.timestamp
  {
    j := i;
    while j > 0 && a[j - 1].timestamp < x.timestamp
      invariant 0 <= j <= i
      invariant forall k :: 0 <= k < j ==> a[k] == old(a[k])
      invariant forall k :: j < k <= i ==> a[k] == old(a[k - 1])
      invariant forall k :: i < k < a.Length ==> a[k] == old(a[k])
      invariant forall k :: j <= k < i ==> old(a[k]).timestamp < x.timestamp
    {
      a[j] := a[j - 1];
      j := j - 1;
    }
  }

  /**
   * One step of the in-place sort: `a[..i]` is sorted already, and `a[i]` moves
   * down past the strictly older records in front of it.
   */
  method SinkInto(a: array<Item>, i: nat)
    requires i < a.Length
    modifies a
    ensures a[..i + 1] == InsertDesc(old(a[..i]), old(a[i]))
    ensures a[i + 1..] == old(a[i + 1..])
  {
    ghost var t := a[..i];
    var x := a[i];
    var j := ShiftOlder(a, i, x);
    a[j] := x;
    InsertDescAt(t, x, j);
    assert a[..i + 1] == t[..j] + [x] + t[j..];
  }

  /** Sorts `a` in place, newest first, exactly as `SortDesc` does. */
  method SortNewestFirst(a: array<Item>)
    modifies a
    ensures a[..] == SortDesc(old(a[..]))
  {
    ghost var s := a[..];
    var i := 0;
    while i < a.Length
      invariant 0 <= i <= a.Length
      invariant a[..i] == SortDesc(s[..i])
      invariant a[i..] == s[i..]
    {
      SinkInto(a, i);
      assert s[..i + 1][..i] == s[..i];
      i := i + 1;
    }
    assert s[..a.Length] == s;
  }
}
