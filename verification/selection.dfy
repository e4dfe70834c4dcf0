/** `toggle_select_all` (app.py lines 62-67): the "Select All" checkbox dominates the
    explicit sector checklist. */
module Selection {
  import opened Strings
  import opened Frame
  import opened Sectors
  import opened Aggregator

  /** The value the "Select All" checklist holds when it is ticked. */
  const SelectAll := "ALL"

  /** With "ALL" ticked, the whole catalog, whatever the explicit list holds; otherwise
      the explicit list, unchanged. */
  function ToggleSelectAll(selectAllValue: seq<string>, selected: seq<string>, sectors: seq<string>): (r: seq<string>)
    ensures SelectAll in selectAllValue ==> r == sectors
    ensures SelectAll !in selectAllValue ==> r == selected
  {
    if SelectAll in selectAllValue then sectors else selected
  }

  /** With "ALL" ticked, the chart totals are the sums over every sector that has both
      paired columns and whose name does not itself contain "_Awards", each counted
      once and in any order, whatever the explicit list held. */
  lemma SelectAllTotals(t: Table, selectAllValue: seq<string>, selected: seq<string>,
                        everyPair: seq<string>, meas: Measure, m: nat)
    requires Loaded(t) && m < |t.months| && SelectAll in selectAllValue
    requires Distinct(everyPair)
    requires forall s :: s in everyPair <==> PairedIn(t.header, s) && !Contains(s, AwardsMarker)
    ensures Total(t, ToggleSelectAll(selectAllValue, selected, Catalog(t.header)), meas, m)
            == Total(t, everyPair, meas, m)
  {
    var sectors := Catalog(t.header);
    var kept := PairedOnly(t.header, sectors);
    TotalSkipsUnpaired(t, sectors, meas, m);
    forall s ensures s in kept <==> s in everyPair {
      CatalogPairedSectors(t.header, s);
    }
    SameElementsSameMultiset(kept, everyPair);
    TotalPermutation(t, kept, everyPair, meas, m);
  }
}
