/**
 * The cage registry: the ordered list of cage names offered to the operator,
 * seeded from a fixed default list, and the rule that keeps the three cage
 * selections (add, bulk add, rename) pointing at registered names.
 */
module Registry {
  import opened Text

  /** `defaultCages`: A-01 to A-15, B-01, B-02, C-01, C-02, in that order. */
  const DefaultCages: seq<string> := [
    "A-01", "A-02", "A-03", "A-04", "A-05", "A-06", "A-07", "A-08", "A-09", "A-10",
    "A-11", "A-12", "A-13", "A-14", "A-15",
    "B-01", "B-02",
    "C-01", "C-02"
  ]

  predicate NoDuplicates(s: seq<string>) {
    forall i, j :: 0 <= i < j < |s| ==> s[i] != s[j]
  }

  /** A name the registry can hold: something the trimmed-and-non-empty checks let through. */
  predicate IsCageName(c: string) {
    c != [] && IsTrimmed(c)
  }

  /** What every registry state satisfies: distinct, trimmed, non-empty names. */
  predicate WellFormed(cages: seq<string>) {
    NoDuplicates(cages) && forall i :: 0 <= i < |cages| ==> IsCageName(cages[i])
  }

  /** Every default name is a cage name: four characters, none of them white space. */
  lemma DefaultsNamed()
    ensures forall i :: 0 <= i < |DefaultCages| ==> IsCageName(DefaultCages[i])
  {
    forall i | 0 <= i < |DefaultCages| ensures IsCageName(DefaultCages[i]) {
      var c := DefaultCages[i];
      assert |c| == 4 && IsDigit(c[3]) && ('A' <= c[0] <= 'C');
    }
  }

  /** The default names are pairwise distinct: they differ in the letter or in a digit. */
  lemma DefaultsDistinct()
    ensures NoDuplicates(DefaultCages)
  {
    forall i, j | 0 <= i < j < |DefaultCages| ensures DefaultCages[i] != DefaultCages[j] {
      var a, b := DefaultCages[i], DefaultCages[j];
      assert a[0] != b[0] || a[2] != b[2] || a[3] != b[3];
    }
  }

  /** The default list is a well-formed, non-empty registry. */
  lemma DefaultsWellFormed()
    ensures |DefaultCages| == 19
    ensures WellFormed(DefaultCages)
  {
    DefaultsNamed();
    DefaultsDistinct();
  }

  /** Appending a fresh, well-formed name keeps the registry well-formed. */
  lemma AppendKeepsWellFormed(cages: seq<string>, n: string)
    requires WellFormed(cages) && IsCageName(n) && n !in cages
    ensures WellFormed(cages + [n])
  {
    var r := cages + [n];
    forall i, j | 0 <= i < j < |r| ensures r[i] != r[j] {
      if j == |cages| {
        assert r[i] == cages[i];
      }
    }
  }

  /** `cages.map(c => c === from ? to : c)`: every position keeps its name unless it held `from`. */
  function RenameCage(cages: seq<string>, from: string, to: string): (r: seq<string>)
    ensures |r| == |cages|
    ensures forall i :: 0 <= i < |cages| ==> r[i] == if cages[i] == from then to else cages[i]
  {
    if cages == [] then []
    else [if cages[0] == from then to else cages[0]] + RenameCage(cages[1..], from, to)
  }

  /**
   * After a rename `from` is gone (unless it was also the new name) and `to`
   * is registered exactly when `to` or `from` was.
   */
  lemma RenameMembership(cages: seq<string>, from: string, to: string)
    ensures var r := RenameCage(cages, from, to);
      && (from != to ==> from !in r)
      && (to in r <==> to in cages || from in cages)
  {
    var r := RenameCage(cages, from, to);
    if to in r && to !in cages {
      var i :| 0 <= i < |r| && r[i] == to;
      assert cages[i] == from;
    }
    if from in cages {
      var i :| 0 <= i < |cages| && cages[i] == from;
      assert r[i] == to;
    }
    if to in cages {
      var i :| 0 <= i < |cages| && cages[i] == to;
      assert r[i] == to;
    }
  }

  /**
   * Renaming a registered cage to a fresh, well-formed name keeps the registry
   * well-formed, and the new name is registered in place of the old.
   */
  lemma RenameKeepsWellFormed(cages: seq<string>, from: string, to: string)
    requires WellFormed(cages) && IsCageName(to) && to !in cages && from in cages
    ensures WellFormed(RenameCage(cages, from, to))
    ensures to in RenameCage(cages, from, to)
  {
    var r := RenameCage(cages, from, to);
    RenameMembership(cages, from, to);
    forall i | 0 <= i < |r| ensures IsCageName(r[i]) {
      assert r[i] == to || r[i] == cages[i];
    }
    forall i, j | 0 <= i < j < |r| ensures r[i] != r[j] {
      if cages[i] == from {
        assert cages[j] != from && r[j] == cages[j] && cages[j] != to;
      } else if cages[j] == from {
        assert r[i] == cages[i] && cages[i] != to;
      }
    }
  }

  /** Renaming the same name onto a fresh one and back restores the registry. */
  lemma RenameRoundTrip(cages: seq<string>, from: string, to: string)
    requires to !in cages
    ensures RenameCage(RenameCage(cages, from, to), to, from) == cages
  {
    var there := RenameCage(cages, from, to);
    var back := RenameCage(there, to, from);
    forall i | 0 <= i < |cages| ensures back[i] == cages[i] {
      assert cages[i] != to;
    }
  }

  /**
   * The selection effect: a selection that is no longer registered falls back
   * to the first registered name, or to the empty string when there is none.
   */
  function Revalidate(selected: string, cages: seq<string>): string {
    if selected in cages then selected
    else if cages != [] then cages[0]
    else ""
  }

  /**
   * A registered selection is kept; otherwise the fallback is registered
   * whenever any name is, and is the empty string only when none is.
   */
  lemma RevalidateLands(selected: string, cages: seq<string>)
    ensures selected in cages ==> Revalidate(selected, cages) == selected
    ensures cages != [] ==> Revalidate(selected, cages) in cages
    ensures cages == [] ==> Revalidate(selected, cages) == ""
  {
  }
}
