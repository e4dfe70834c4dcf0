/** The sector catalog: the distinct prefixes of the column names that contain
    "_Awards" (app.py lines 21-23). */
module Sectors {
  import opened Strings
  import opened Frame

  /** `name.split("_Awards")[0]`: the text before the first "_Awards", or the whole
      name when there is none. */
  function SectorOf(name: string): (r: string)
    ensures r <= name
    ensures Contains(name, AwardsMarker) ==> r + AwardsMarker <= name && !Contains(r, AwardsMarker)
    ensures !Contains(name, AwardsMarker) ==> r == name
  {
    match Find(name, AwardsMarker)
    case None => name
    case Some(k) =>
      FirstOccurrencePrefix(name, AwardsMarker, k);
      name[..k]
  }

  /** The text before the first occurrence of `p` is followed by `p` and does not
      contain it. */
  lemma FirstOccurrencePrefix(s: string, p: string, k: nat)
    requires |p| > 0 && Find(s, p) == Some(k)
    ensures s[..k] + p <= s && !Contains(s[..k], p)
  {
    assert s[..k] + p == s[..k + |p|];
    forall j: nat | OccursAt(s[..k], p, j) ensures false {
      OccursInPrefix(s, p, k, j);
    }
  }

  /** Sector `s` is the prefix of some column name that contains "_Awards". */
  ghost predicate FromAwardsColumn(header: seq<string>, s: string) {
    exists name :: name in header && Contains(name, AwardsMarker) && SectorOf(name) == s
  }

  /** `list(set(...))` of the prefixes. The order of a Python set is unspecified; this
      model lists each sector where its first column appears. */
  function Catalog(header: seq<string>): (r: seq<string>)
    ensures Distinct(r)
    ensures forall s :: s in r <==> FromAwardsColumn(header, s)
  {
    if header == [] then []
    else
      var init := header[..|header| - 1];
      var name := header[|header| - 1];
      var r := Catalog(init);
      assert header == init + [name];
      if Contains(name, AwardsMarker) && SectorOf(name) !in r then r + [SectorOf(name)] else r
  }

  /** A prefix that does not itself contain "_Awards" is exactly what the split gives
      back: "_Awards" cannot start inside `s` and run into the marker after it. */
  lemma SectorOfAppended(s: string, rest: string)
    requires !Contains(s, AwardsMarker)
    ensures SectorOf(s + AwardsMarker + rest) == s
  {
    var n := s + AwardsMarker + rest;
    assert n[|s|..|s| + |AwardsMarker|] == AwardsMarker;
    assert OccursAt(n, AwardsMarker, |s|);
    forall j: nat | j < |s| ensures !OccursAt(n, AwardsMarker, j) {
      if j + |AwardsMarker| <= |s| {
        assert n[j..j + |AwardsMarker|] == s[j..j + |AwardsMarker|];
        assert !OccursAt(s, AwardsMarker, j);
      } else {
        // the marker's final 's' would have to fall on one of "_Award"
        var last := |AwardsMarker| - 1;
        var i := j + last - |s|;
        assert n[j + last] == AwardsMarker[i] != 's';
        assert j + last < |n| ==> n[j..j + |AwardsMarker|][last] == n[j + last];
      }
    }
    assert n[..|s|] == s;
  }

  /** The test is "contains", not "ends with": "X_Awards_Y" gives sector "X". */
  lemma SectorOfInnerMarker()
    ensures SectorOf("X_Awards_Y") == "X"
  {
    assert !OccursAt("X", AwardsMarker, 0);
    assert "X_Awards_Y" == "X" + AwardsMarker + "_Y";
    SectorOfAppended("X", "_Y");
  }

  /** No catalog entry contains "_Awards", and a sector with both paired columns is in
      the catalog exactly when its name does not contain "_Awards". */
  lemma CatalogPairedSectors(header: seq<string>, s: string)
    ensures s in Catalog(header) ==> !Contains(s, AwardsMarker)
    ensures PairedIn(header, s) ==> (s in Catalog(header) <==> !Contains(s, AwardsMarker))
  {
    if PairedIn(header, s) && !Contains(s, AwardsMarker) {
      var name := s + AwardsMarker;
      ContainsSuffix(s, AwardsMarker);
      assert name + "" == name;
      SectorOfAppended(s, "");
      assert FromAwardsColumn(header, s);
    }
  }
}
