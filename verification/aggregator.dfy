/** The aggregation half of `update_chart` (app.py lines 78-88): one zeroed row per
    month, then each selected sector's award and dollar columns added in, provided the
    table has both of them. */
module Aggregator {
  import opened Strings
  import opened Frame

  /** The two combined columns. */
  datatype Measure = Awards | Dollars

  function Suffix(meas: Measure): string {
    match meas
    case Awards => AwardsMarker
    case Dollars => DollarsMarker
  }

  /** The combined frame: the month column and the two totals, one entry per month. */
  datatype Series = Series(months: seq<string>, awards: seq<int>, dollars: seq<int>)

  /** What one selected entry adds to month `m`: its cell when the table has both of
      its paired columns, and nothing otherwise. */
  function Contribution(t: Table, s: string, meas: Measure, m: nat): int
    requires Loaded(t) && m < |t.months|
  {
    if PairedIn(t.header, s) then
      ContainsSuffix(s, Suffix(meas));
      t.columns[s + Suffix(meas)][m].n
    else 0
  }

  /** The total of month `m` over the selection, entry by entry in list order. */
  function Total(t: Table, selected: seq<string>, meas: Measure, m: nat): int
    requires Loaded(t) && m < |t.months|
  {
    if selected == [] then 0
    else Total(t, selected[..|selected| - 1], meas, m) + Contribution(t, selected[|selected| - 1], meas, m)
  }

  /** Element-wise `+=` of a numeric column onto the running totals. */
  function AddColumn(acc: seq<int>, cells: seq<Cell>): (r: seq<int>)
    requires |cells| == |acc| && AllNumeric(cells)
  {
    seq(|acc|, i requires 0 <= i < |acc| => acc[i] + cells[i].n)
  }

  /** `update_chart`'s loop: the result has one row per month, the month labels copied,
      and each month's totals are the sums over the selection. */
  method Aggregate(t: Table, selected: seq<string>) returns (r: Series)
    requires Loaded(t)
    ensures r.months == t.months && |r.awards| == |t.months| && |r.dollars| == |t.months|
    ensures forall m :: 0 <= m < |t.months| ==>
              r.awards[m] == Total(t, selected, Awards, m) && r.dollars[m] == Total(t, selected, Dollars, m)
  {
    var n := |t.months|;
    var awards := seq(n, _ => 0);
    var dollars := seq(n, _ => 0);
    for i := 0 to |selected|
      invariant |awards| == n && |dollars| == n
      invariant forall m :: 0 <= m < n ==>
                  awards[m] == Total(t, selected[..i], Awards, m) && dollars[m] == Total(t, selected[..i], Dollars, m)
    {
      assert selected[..i + 1][..i] == selected[..i];
      var sector := selected[i];
      var awardsColumn := sector + AwardsMarker;
      var dollarsColumn := sector + DollarsMarker;
      if awardsColumn in t.header && dollarsColumn in t.header {
        ContainsSuffix(sector, AwardsMarker);
        ContainsSuffix(sector, DollarsMarker);
        awards := AddColumn(awards, t.columns[awardsColumn]);
        dollars := AddColumn(dollars, t.columns[dollarsColumn]);
      }
    }
    assert selected[..|selected|] == selected;
    r := Series(t.months, awards, dollars);
  }

  /** Totals over a concatenated selection add up, so a repeated entry is added once per
      occurrence. */
  lemma {:induction false} TotalAppend(t: Table, a: seq<string>, b: seq<string>, meas: Measure, m: nat)
    requires Loaded(t) && m < |t.months|
    ensures Total(t, a + b, meas, m) == Total(t, a, meas, m) + Total(t, b, meas, m)
  {
    if b == [] {
      assert a + b == a;
    } else {
      var init := b[..|b| - 1];
      assert (a + b)[..|a + b| - 1] == a + init;
      TotalAppend(t, a, init, meas, m);
    }
  }

  /** Selecting every entry twice doubles the totals. */
  lemma TotalDuplicated(t: Table, selected: seq<string>, meas: Measure, m: nat)
    requires Loaded(t) && m < |t.months|
    ensures Total(t, selected + selected, meas, m) == 2 * Total(t, selected, meas, m)
  {
    TotalAppend(t, selected, selected, meas, m);
  }

  /** The totals do not depend on the order of the selection. */
  lemma {:induction false} TotalPermutation(t: Table, a: seq<string>, b: seq<string>, meas: Measure, m: nat)
    requires Loaded(t) && m < |t.months|
    requires multiset(a) == multiset(b)
    ensures Total(t, a, meas, m) == Total(t, b, meas, m)
    decreases |a|
  {
    if a == [] {
      assert |b| == |multiset(b)| == 0;
    } else {
      var init := a[..|a| - 1];
      var x := a[|a| - 1];
      assert a == init + [x];
      assert x in multiset(b);
      var k :| 0 <= k < |b| && b[k] == x;
      var rest := b[..k] + b[k + 1..];
      assert b == b[..k] + [x] + b[k + 1..];
      assert multiset(b) == multiset(b[..k]) + multiset([x]) + multiset(b[k + 1..]);
      assert multiset(a) == multiset(init) + multiset([x]);
      assert multiset(rest) == multiset(b[..k]) + multiset(b[k + 1..]);
      forall y ensures multiset(rest)[y] == multiset(init)[y] {
        assert multiset(a)[y] == multiset(b)[y];
      }
      assert multiset(rest) == multiset(init);
      TotalPermutation(t, init, rest, meas, m);
      TotalAppend(t, b[..k] + [x], b[k + 1..], meas, m);
      TotalAppend(t, b[..k], [x], meas, m);
      TotalAppend(t, b[..k], b[k + 1..], meas, m);
      assert [x][..0] == [];
    }
  }

  /** The entries of a selection that have both paired columns, in order. */
  function PairedOnly(header: seq<string>, selected: seq<string>): (r: seq<string>)
    ensures forall s :: s in r <==> s in selected && PairedIn(header, s)
    ensures Distinct(selected) ==> Distinct(r)
  {
    if selected == [] then []
    else
      var init := selected[..|selected| - 1];
      var x := selected[|selected| - 1];
      assert selected == init + [x];
      PairedOnly(header, init) + (if PairedIn(header, x) then [x] else [])
  }

  /** An entry without both paired columns is skipped silently: it changes no total. */
  lemma {:induction false} TotalSkipsUnpaired(t: Table, selected: seq<string>, meas: Measure, m: nat)
    requires Loaded(t) && m < |t.months|
    ensures Total(t, selected, meas, m) == Total(t, PairedOnly(t.header, selected), meas, m)
  {
    if selected != [] {
      var init := selected[..|selected| - 1];
      var x := selected[|selected| - 1];
      var kept := PairedOnly(t.header, init);
      TotalSkipsUnpaired(t, init, meas, m);
      if PairedIn(t.header, x) {
        assert (kept + [x])[..|kept|] == kept;
      } else {
        assert kept + [] == kept;
      }
    }
  }

  /** A selection none of whose entries has both paired columns, the empty selection
      among them, gives all-zero totals. */
  lemma {:induction false} TotalWithoutPairs(t: Table, selected: seq<string>, meas: Measure, m: nat)
    requires Loaded(t) && m < |t.months|
    requires forall s :: s in selected ==> !PairedIn(t.header, s)
    ensures Total(t, selected, meas, m) == 0
  {
    if selected != [] {
      TotalWithoutPairs(t, selected[..|selected| - 1], meas, m);
    }
  }
}
