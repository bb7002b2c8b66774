/**
 * The tracker's state and its handlers. The ledger (`items`), the registry
 * (`availableCages`) and the three cage selections of the operator's forms
 * are fields; each handler is one atomic transition that either fails with
 * an error kind, leaving everything as it was, or applies its update.
 * Clock readings are parameters.
 */
module Engine {
  import opened Text
  import opened Ledger
  import opened Sorting
  import opened Registry

  /** The failures the handlers report (the source shows one message per kind). */
  datatype Error =
    | EmptyOrderId       // the order id is blank after trimming
    | DuplicateOrder     // some record, whatever its status, already has that id
    | InvalidCount       // the bulk count is not positive
    | NothingToReset     // clearing an empty ledger
    | NoCageSelected     // retiring with no cage chosen
    | NothingInCage      // retiring a cage that no record occupies
    | NoItemSelected     // deleting with no record chosen
    | EmptyCageName      // a new cage name that is blank after trimming
    | DuplicateCage      // a new cage name that is already registered
    | RenameNameMissing  // no cage chosen to rename, or a blank new name
    | RenameUnchanged    // the new name equals the old one
    | RenameNameTaken    // the new name is already registered

  datatype Outcome = Done | Failed(error: Error)

  /**
   * The `for` loop of `handleBulkAdd`: record `i` gets the id built from the
   * clock reading `nows[i]` and index `i`, the instant `stamps[i]`, the target
   * cage and status 'In Cage'.
   */
  method NewBulkItems(target: string, count: nat, nows: seq<int>, stamps: seq<int>)
    returns (batch: seq<Item>)
    requires |nows| == count && |stamps| == count
    ensures batch == BulkBatch(target, nows, stamps)
  {
    batch := [];
    for i := 0 to count
      invariant |batch| == i
      invariant forall j :: 0 <= j < i ==> batch[j] == BulkItem(target, nows[j], stamps[j], j)
    {
      batch := batch + [BulkItem(target, nows[i], stamps[i], i)];
    }
  }

  /** Copies `s` into a fresh array, sorts it newest first there, and reads it back. */
  method SortedCopy(s: seq<Item>) returns (r: seq<Item>)
    ensures r == SortDesc(s)
  {
    var a := new Item[|s|](i requires 0 <= i < |s| => s[i]);
    assert a[..] == s;
    SortNewestFirst(a);
    r := a[..];
  }

  /**
   * The tracker's invariant on plain values: the ledger is newest first; the
   * registry holds distinct, trimmed, non-empty names and is never empty; every
   * selection is registered.
   */
  ghost predicate Consistent(items: seq<Item>, cages: seq<string>, cage: string, target: string, renaming: string) {
    && Sorted(items)
    && WellFormed(cages) && cages != []
    && cage in cages && target in cages && renaming in cages
  }

  /** Registering a fresh cage name keeps the invariant; the selections stay registered. */
  lemma AppendKeepsConsistent(items: seq<Item>, cages: seq<string>, cage: string, target: string,
                              renaming: string, n: string)
    requires Consistent(items, cages, cage, target, renaming)
    requires IsCageName(n) && n !in cages
    ensures Consistent(items, cages + [n], cage, target, renaming)
  {
    AppendKeepsWellFormed(cages, n);
    assert forall c :: c in cages ==> c in cages + [n];
  }

  /** A rename onto a fresh cage name, with the selections re-validated, keeps the invariant. */
  lemma RenameKeepsConsistent(items: seq<Item>, cages: seq<string>, cage: string, target: string,
                              from: string, to: string)
    requires Consistent(items, cages, cage, target, from)
    requires IsCageName(to) && to !in cages
    ensures var cs := Registry.RenameCage(cages, from, to);
      Consistent(RenameItems(items, from, to), cs, Revalidate(cage, cs), Revalidate(target, cs), to)
  {
    RenameKeepsWellFormed(cages, from, to);
    RenameKeepsOrder(items, from, to);
    var cs := Registry.RenameCage(cages, from, to);
    RevalidateLands(cage, cs);
    RevalidateLands(target, cs);
  }

  class Tracker {
    var items: seq<Item>
    var availableCages: seq<string>
    var cage: string
    var targetCage: string
    var oldCageToRename: string

    /** `Consistent` on the current state. */
    ghost predicate Valid()
      reads this
    {
      Consistent(items, availableCages, cage, targetCage, oldCageToRename)
    }

    /** An empty ledger, the default registry, every selection on its first cage. */
    constructor ()
      ensures Valid()
      ensures items == [] && availableCages == DefaultCages
      ensures cage == DefaultCages[0] && targetCage == DefaultCages[0] && oldCageToRename == DefaultCages[0]
    {
      DefaultsWellFormed();
      items := [];
      availableCages := DefaultCages;
      cage := DefaultCages[0];
      targetCage := DefaultCages[0];
      oldCageToRename := DefaultCages[0];
    }

    /** The cage drop-down of the add form offers only registered names. */
    method SelectCage(c: string)
      requires Valid() && c in availableCages
      modifies this`cage
      ensures Valid() && cage == c
    {
      cage := c;
    }

    method SelectTargetCage(c: string)
      requires Valid() && c in availableCages
      modifies this`targetCage
      ensures Valid() && targetCage == c
    {
      targetCage := c;
    }

    method SelectCageToRename(c: string)
      requires Valid() && c in availableCages
      modifies this`oldCageToRename
      ensures Valid() && oldCageToRename == c
    {
      oldCageToRename := c;
    }

    /**
     * `handleAdd`: a blank id and an id any record already carries are
     * refused; otherwise one new 'In Cage' record for the selected cage is
     * placed behind the records strictly newer than it (`InsertRecord`).
     */
    method AddOrder(orderId: string, now: int) returns (outcome: Outcome)
      requires Valid()
      modifies this`items
      ensures Valid()
      ensures var v := Trim(orderId);
        && (v == [] ==> outcome == Failed(EmptyOrderId) && items == old(items))
        && (v != [] && HasId(old(items), v) ==> outcome == Failed(DuplicateOrder) && items == old(items))
        && (v != [] && !HasId(old(items), v) ==>
              var k := NewerCount(old(items), now);
              outcome == Done && items == old(items)[..k] + [Item(v, Some(cage), now, InCage)] + old(items)[k..])
    {
      var value := Trim(orderId);
      if value == [] {
        return Failed(EmptyOrderId);
      }
      if HasId(items, value) {
        return Failed(DuplicateOrder);
      }
      InsertRecord(Item(value, Some(cage), now, InCage));
      outcome := Done;
    }

    /**
     * The committing half of an add: the record goes in front of the ledger,
     * which is then re-sorted newest first; it lands behind the strictly newer
     * records and adds one to the count of the cage it occupies.
     */
    method InsertRecord(x: Item)
      requires Sorted(items)
      modifies this`items
      ensures Sorted(items)
      ensures var k := NewerCount(old(items), x.timestamp);
        items == old(items)[..k] + [x] + old(items)[k..]
      ensures forall c :: (CountInCage(items, c) ==
        CountInCage(old(items), c) + (if Occupies(x, c) then 1 else 0))
    {
      ghost var before := items;
      items := SortedCopy([x] + items);
      SortDescPrepend(x, before);
      SortDescSorted([x] + before);
      forall c ensures CountInCage(items, c) == CountInCage(before, c) + (if Occupies(x, c) then 1 else 0) {
        CountInsert(before, NewerCount(before, x.timestamp), x, c);
      }
    }

    /**
     * `handleBulkAdd`: a count that is not positive is refused; otherwise
     * `targetCount` new 'In Cage' records with distinct ids go to the target
     * cage, the ledger is re-sorted newest first, and only the target cage's
     * count grows, by `targetCount`.
     */
    method BulkAdd(targetCount: int, nows: seq<int>, stamps: seq<int>) returns (outcome: Outcome)
      requires Valid()
      requires targetCount > 0 ==> |nows| == targetCount && |stamps| == targetCount
      modifies this`items
      ensures Valid()
      ensures targetCount <= 0 ==> outcome == Failed(InvalidCount) && items == old(items)
      ensures targetCount > 0 ==>
        && outcome == Done
        && items == SortDesc(BulkBatch(targetCage, nows, stamps) + old(items))
        && multiset(items) == multiset(BulkBatch(targetCage, nows, stamps)) + multiset(old(items))
      ensures forall c :: (CountInCage(items, c) ==
        CountInCage(old(items), c) + (if outcome.Done? && c == targetCage then targetCount else 0))
    {
      if targetCount <= 0 {
        return Failed(InvalidCount);
      }
      var batch := NewBulkItems(targetCage, targetCount, nows, stamps);
      ghost var before := items;
      items := SortedCopy(batch + items);
      SortDescSorted(batch + before);
      SortDescPermutes(batch + before);
      BulkBatchDistinct(targetCage, nows, stamps);
      CountAllOccupy(batch, targetCage);
      forall c ensures CountInCage(items, c) ==
        CountInCage(before, c) + (if c == targetCage then targetCount else 0)
      {
        CountPermutation(items, batch + before, c);
        CountConcat(batch, before, c);
        CountRange(batch, c);
      }
      outcome := Done;
    }

    /** `handleResetAllData`: an empty ledger is refused; otherwise every record goes. */
    method ResetAllData() returns (outcome: Outcome)
      requires Valid()
      modifies this`items
      ensures Valid()
      ensures old(items) == [] ==> outcome == Failed(NothingToReset) && items == old(items)
      ensures old(items) != [] ==> outcome == Done && items == []
    {
      if |items| == 0 {
        return Failed(NothingToReset);
      }
      items := [];
      outcome := Done;
    }

    /**
     * `handleResetSingleCage`: with no cage chosen, or none of its records
     * 'In Cage', nothing changes; otherwise exactly the records occupying the
     * cage become 'Completed', its count drops to zero, and so a second call
     * straight after fails.
     */
    method ResetSingleCage(target: Option<string>) returns (outcome: Outcome)
      requires Valid()
      modifies this`items
      ensures Valid()
      ensures target.None? || target.value == "" ==> outcome == Failed(NoCageSelected) && items == old(items)
      ensures target.Some? && target.value != "" ==>
        if CountInCage(old(items), target.value) == 0
        then outcome == Failed(NothingInCage) && items == old(items)
        else outcome == Done && items == RetireCage(old(items), target.value)
      ensures forall c :: (CountInCage(items, c) ==
        if outcome.Done? && c == target.value then 0 else CountInCage(old(items), c))
    {
      if target.None? || target.value == "" {
        return Failed(NoCageSelected);
      }
      var c := target.value;
      if CountInCage(items, c) == 0 {
        return Failed(NothingInCage);
      }
      ghost var before := items;
      items := RetireCage(items, c);
      RetireKeepsOrder(before, c);
      forall d ensures CountInCage(items, d) == if d == c then 0 else CountInCage(before, d) {
        CountAfterRetire(before, c, d);
      }
      outcome := Done;
    }

    /**
     * `handleDeleteItem`: with no record chosen nothing changes; otherwise
     * every record with the chosen (id, timestamp) key goes, which is nothing
     * at all when no record has that key.
     */
    method DeleteItem(target: Option<Item>) returns (outcome: Outcome)
      requires Valid()
      modifies this`items
      ensures Valid()
      ensures target.None? ==> outcome == Failed(NoItemSelected) && items == old(items)
      ensures target.Some? ==>
        outcome == Done && items == DeleteRecord(old(items), target.value.id, target.value.timestamp)
    {
      if target.None? {
        return Failed(NoItemSelected);
      }
      var t := target.value;
      KeepSorted(items, (x: Item) => x.id != t.id || x.timestamp != t.timestamp);
      items := DeleteRecord(items, t.id, t.timestamp);
      outcome := Done;
    }

    /**
     * `handleAddNewCage`: a blank or already registered name is refused;
     * otherwise the trimmed name goes to the end of the registry.
     */
    method AddNewCage(name: string) returns (outcome: Outcome)
      requires Valid()
      modifies this`availableCages
      ensures Valid()
      ensures var n := Trim(name);
        && (n == [] ==> outcome == Failed(EmptyCageName) && availableCages == old(availableCages))
        && (n != [] && n in old(availableCages) ==>
              outcome == Failed(DuplicateCage) && availableCages == old(availableCages))
        && (n != [] && n !in old(availableCages) ==>
              outcome == Done && availableCages == old(availableCages) + [n])
    {
      var n := Trim(name);
      if n == [] {
        return Failed(EmptyCageName);
      }
      if n in availableCages {
        return Failed(DuplicateCage);
      }
      AppendKeepsConsistent(items, availableCages, cage, targetCage, oldCageToRename, n);
      availableCages := availableCages + [n];
      outcome := Done;
    }

    /**
     * `performResetCagesToDefault`: the registry becomes the default list and
     * every selection its first name; the ledger is not touched, so records of
     * dropped cages keep their cage name.
     */
    method ResetCagesToDefault()
      requires Valid()
      modifies this`availableCages, this`cage, this`targetCage, this`oldCageToRename
      ensures Valid()
      ensures availableCages == DefaultCages
      ensures cage == DefaultCages[0] && targetCage == DefaultCages[0] && oldCageToRename == DefaultCages[0]
    {
      DefaultsWellFormed();
      availableCages := DefaultCages;
      cage := DefaultCages[0];
      targetCage := DefaultCages[0];
      oldCageToRename := DefaultCages[0];
    }

    /**
     * The effect that runs when the registry changes: each selection that is
     * no longer registered falls back to the first registered name.
     */
    method RevalidateSelections()
      modifies this`cage, this`targetCage, this`oldCageToRename
      ensures cage == Revalidate(old(cage), availableCages)
      ensures targetCage == Revalidate(old(targetCage), availableCages)
      ensures oldCageToRename == Revalidate(old(oldCageToRename), availableCages)
    {
      cage := Revalidate(cage, availableCages);
      targetCage := Revalidate(targetCage, availableCages);
      oldCageToRename := Revalidate(oldCageToRename, availableCages);
    }

    /**
     * The committing half of a rename: the registry and the records move from
     * `from` to `to`, the rename form follows, and then the selection effect runs.
     */
    method Relocate(from: string, to: string)
      modifies this
      ensures availableCages == Registry.RenameCage(old(availableCages), from, to)
      ensures items == RenameItems(old(items), from, to)
      ensures cage == Revalidate(old(cage), availableCages)
      ensures targetCage == Revalidate(old(targetCage), availableCages)
      ensures oldCageToRename == Revalidate(to, availableCages)
    {
      availableCages := Registry.RenameCage(availableCages, from, to);
      items := RenameItems(items, from, to);
      oldCageToRename := to;
      RevalidateSelections();
    }

    /**
     * `handleRenameCage` for the cage chosen in the rename form: a blank or
     * unchanged new name, or one already registered, is refused; otherwise the
     * name is replaced in place in the registry and on every record, the form
     * follows the new name, and the other selections are re-validated.
     * `CountAfterRename` says where the counts go.
     */
    method RenameCage(newName: string) returns (outcome: Outcome)
      requires Valid()
      modifies this
      ensures Valid()
      ensures outcome ==
        if old(oldCageToRename) == "" || Trim(newName) == "" then Failed(RenameNameMissing)
        else if old(oldCageToRename) == Trim(newName) then Failed(RenameUnchanged)
        else if Trim(newName) in old(availableCages) then Failed(RenameNameTaken)
        else Done
      ensures outcome.Failed? ==>
        && items == old(items) && availableCages == old(availableCages)
        && cage == old(cage) && targetCage == old(targetCage) && oldCageToRename == old(oldCageToRename)
      ensures outcome.Done? ==>
        && availableCages == Registry.RenameCage(old(availableCages), old(oldCageToRename), Trim(newName))
        && items == RenameItems(old(items), old(oldCageToRename), Trim(newName))
        && oldCageToRename == Trim(newName)
        && cage == Revalidate(old(cage), availableCages)
        && targetCage == Revalidate(old(targetCage), availableCages)
    {
      var from := oldCageToRename;
      var to := Trim(newName);
      if from == "" || to == "" {
        return Failed(RenameNameMissing);
      }
      if from == to {
        return Failed(RenameUnchanged);
      }
      if to in availableCages {
        return Failed(RenameNameTaken);
      }
      RenameKeepsConsistent(items, availableCages, cage, targetCage, from, to);
      RevalidateLands(to, Registry.RenameCage(availableCages, from, to));
      Relocate(from, to);
      outcome := Done;
    }
  }
}
