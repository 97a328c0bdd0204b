/**
 * The lists `update_yaml_list` shows for the selected region: map items and data items ordered by
 * display name and filtered case-insensitively, the kept map selection, and the data selection.
 */
module DatasetList {
  import opened Wrappers
  import opened Text
  import opened Regimes
  import opened FileStore

  /** An entry of the map checklist: caption shown, filename as value, disabled without a location. */
  datatype MapItem = MapItem(caption: string, value: string, disabled: bool)

  /** An entry of the data radio list: no caption, the filename as value. */
  datatype DataItem = DataItem(caption: string, value: string)

  /** The name a dataset is listed under: its regime name, or the filename when the name is the default. */
  function DisplayName(fileName: string, e: Entry): (r: string)
    ensures r == e.name || r == fileName
    ensures e.name != NameDefault ==> r == e.name
    ensures r == NameDefault ==> fileName == NameDefault
  {
    if e.name == NameDefault then fileName else e.name
  }

  /** The filenames of a list of map items, in list order. */
  function Values(items: seq<MapItem>): (r: seq<string>)
    ensures |r| == |items| && forall i :: 0 <= i < |items| ==> r[i] == items[i].value
  {
    if |items| == 0 then [] else Values(items[..|items| - 1]) + [items[|items| - 1].value]
  }

  predicate Distinct(s: seq<string>)
  {
    forall i, j :: 0 <= i < j < |s| ==> s[i] != s[j]
  }

  /** `order` lists only keys of `names`, by non-decreasing name. */
  predicate SortedByName(order: seq<string>, names: map<string, string>)
  {
    && (forall f :: f in order ==> f in names)
    && forall i, j :: 0 <= i < j < |order| ==> LessEq(names[order[i]], names[order[j]])
  }

  /** The `names` dict: every file of the region mapped to its display name. */
  method DisplayNames(entries: RegionIndex) returns (names: map<string, string>)
    ensures names.Keys == entries.Keys
    ensures forall f :: f in names ==> names[f] == DisplayName(f, entries[f])
  {
    names := map[];
    var rest := entries.Keys;
    while rest != {}
      invariant rest <= entries.Keys
      invariant names.Keys == entries.Keys - rest
      invariant forall f :: f in names ==> names[f] == DisplayName(f, entries[f])
      decreases |rest|
    {
      var f :| f in rest;
      names := names[f := DisplayName(f, entries[f])];
      rest := rest - {f};
    }
  }

  /** Places `f` after every key whose name is not greater, keeping the order sorted. */
  method InsertByName(order: seq<string>, f: string, names: map<string, string>) returns (r: seq<string>)
    requires f in names && f !in order
    requires Distinct(order) && SortedByName(order, names)
    ensures Distinct(r) && SortedByName(r, names)
    ensures forall g :: g in r <==> g in order || g == f
  {
    var i := 0;
    while i < |order| && LessEq(names[order[i]], names[f])
      invariant 0 <= i <= |order|
      invariant forall k :: 0 <= k < i ==> LessEq(names[order[k]], names[f])
    {
      i := i + 1;
    }
    if i < |order| {
      LessEqTotal(names[order[i]], names[f]);
      forall k | i <= k < |order|
        ensures LessEq(names[f], names[order[k]])
      {
        if k > i {
          LessEqTransitive(names[f], names[order[i]], names[order[k]]);
        }
      }
    }
    r := order[..i] + [f] + order[i..];
    assert forall k :: 0 <= k < i ==> r[k] == order[k];
    assert r[i] == f;
    assert forall k :: i < k < |r| ==> r[k] == order[k - 1];
  }

  /** `sorted(names.items(), key=lambda x: x[1])`: every file once, by non-decreasing display name. */
  method SortByName(names: map<string, string>) returns (order: seq<string>)
    ensures Distinct(order) && SortedByName(order, names)
    ensures forall f :: f in order <==> f in names
  {
    order := [];
    var rest := names.Keys;
    while rest != {}
      invariant rest <= names.Keys
      invariant Distinct(order) && SortedByName(order, names)
      invariant forall f :: f in names <==> f in order || f in rest
      invariant forall f :: f in rest ==> f !in order
      decreases |rest|
    {
      var f :| f in rest;
      order := InsertByName(order, f, names);
      rest := rest - {f};
    }
  }

  /** The map item listed for its file: display name, filename, disabled without a `location` property. */
  predicate ItemFor(m: MapItem, entries: RegionIndex)
  {
    && m.value in entries
    && m.caption == DisplayName(m.value, entries[m.value])
    && m.disabled == ("location" !in entries[m.value].properties)
  }

  /**
   * The map items of the indexed files in `order` whose display name `matches` (for the list, the
   * case-insensitive filter), in the order of `order`.
   */
  function Listed(order: seq<string>, entries: RegionIndex, matches: string -> bool): (r: seq<MapItem>)
    ensures |r| <= |order|
  {
    if |order| == 0 then []
    else
      var f := order[|order| - 1];
      var init := Listed(order[..|order| - 1], entries, matches);
      if f in entries && matches(DisplayName(f, entries[f])) then
        init + [MapItem(DisplayName(f, entries[f]), f, "location" !in entries[f].properties)]
      else init
  }

  /** Every listed item is a proper item of a file of `order`. */
  lemma {:induction false} ListedItems(order: seq<string>, entries: RegionIndex, matches: string -> bool, r: seq<MapItem>)
    requires forall f :: f in order ==> f in entries
    requires r == Listed(order, entries, matches)
    ensures forall i :: 0 <= i < |r| ==>
      r[i].value in order && ItemFor(r[i], entries) && matches(r[i].caption)
  {
    if |order| > 0 {
      var n := |order| - 1;
      var f := order[n];
      var init := Listed(order[..n], entries, matches);
      ListedItems(order[..n], entries, matches, init);
      var item := MapItem(DisplayName(f, entries[f]), f, "location" !in entries[f].properties);
      assert r == init || r == init + [item];
      forall i | 0 <= i < |r|
        ensures r[i].value in order && ItemFor(r[i], entries) && matches(r[i].caption)
      {
        if i < |init| {
          assert r[i] == init[i];
          var k :| 0 <= k < n && order[..n][k] == init[i].value;
          assert order[k] == init[i].value;
        } else {
          assert r[i] == item;
        }
      }
    }
  }

  /** Every indexed file of `order` whose display name matches is listed. */
  lemma {:induction false} ListedComplete(order: seq<string>, entries: RegionIndex, matches: string -> bool, r: seq<MapItem>)
    requires r == Listed(order, entries, matches)
    ensures forall j :: 0 <= j < |order| && order[j] in entries && matches(DisplayName(order[j], entries[order[j]])) ==>
      order[j] in Values(r)
  {
    if |order| > 0 {
      var n := |order| - 1;
      var f := order[n];
      var init := Listed(order[..n], entries, matches);
      ListedComplete(order[..n], entries, matches, init);
      var keep := f in entries && matches(DisplayName(f, entries[f]));
      if keep {
        var item := MapItem(DisplayName(f, entries[f]), f, "location" !in entries[f].properties);
        assert r == init + [item];
        assert r[..|r| - 1] == init;
        assert Values(r) == Values(init) + [f];
      } else {
        assert r == init;
      }
      forall j | 0 <= j < |order| && order[j] in entries && matches(DisplayName(order[j], entries[order[j]]))
        ensures order[j] in Values(r)
      {
        if j < n {
          assert order[..n][j] == order[j];
          assert order[j] in Values(init);
        }
      }
    }
  }

  /** Listing a repetition-free order lists each file once. */
  lemma {:induction false} ListedDistinct(order: seq<string>, entries: RegionIndex, matches: string -> bool, r: seq<MapItem>)
    requires forall f :: f in order ==> f in entries
    requires Distinct(order)
    requires r == Listed(order, entries, matches)
    ensures Distinct(Values(r))
  {
    if |order| > 0 {
      var n := |order| - 1;
      var f := order[n];
      var init := Listed(order[..n], entries, matches);
      ListedDistinct(order[..n], entries, matches, init);
      ListedItems(order[..n], entries, matches, init);
      if r != init {
        assert r[..|r| - 1] == init;
        assert Values(r) == Values(init) + [f];
        assert f !in order[..n];
      }
    }
  }

  /** Listing an order sorted by display name gives items in caption order. */
  lemma {:induction false} ListedSorted(order: seq<string>, names: map<string, string>,
                                        entries: RegionIndex, matches: string -> bool, r: seq<MapItem>)
    requires SortedByName(order, names)
    requires forall f :: f in names ==> f in entries && names[f] == DisplayName(f, entries[f])
    requires r == Listed(order, entries, matches)
    ensures forall i, j :: 0 <= i < j < |r| ==> LessEq(r[i].caption, r[j].caption)
  {
    if |order| > 0 {
      var n := |order| - 1;
      var f := order[n];
      var init := Listed(order[..n], entries, matches);
      ListedSorted(order[..n], names, entries, matches, init);
      ListedItems(order[..n], entries, matches, init);
      var sub := order[..n];
      forall i | 0 <= i < |init|
        ensures LessEq(init[i].caption, names[f])
      {
        assert init[i].value in sub;
        var k :| 0 <= k < |sub| && sub[k] == init[i].value;
        assert order[k] == sub[k];
        assert init[i].caption == names[order[k]];
      }
      if r != init {
        assert r == init + [MapItem(names[f], f, "location" !in entries[f].properties)];
      }
    }
  }

  /**
   * The two item lists of `update_yaml_list`: one item per file whose display name contains the
   * filter (ignoring case), ordered by display name, each file once, the map item disabled iff the
   * regime has no `location` property.
   */
  method BuildItems(entries: RegionIndex, filter: string) returns (mapItems: seq<MapItem>, dataItems: seq<DataItem>)
    ensures |mapItems| == |dataItems|
    ensures forall i :: 0 <= i < |mapItems| ==> ItemFor(mapItems[i], entries) && dataItems[i] == DataItem("", mapItems[i].value)
    ensures forall f :: f in entries ==> (f in Values(mapItems) <==> ContainsIgnoringCase(DisplayName(f, entries[f]), filter))
    ensures Distinct(Values(mapItems))
    ensures forall i, j :: 0 <= i < j < |mapItems| ==> LessEq(mapItems[i].caption, mapItems[j].caption)
  {
    var names := DisplayNames(entries);
    var order := SortByName(names);
    ghost var matches := (name: string) => ContainsIgnoringCase(name, filter);
    mapItems, dataItems := ListItems(order, names, entries, filter, matches);
    ListedItems(order, entries, matches, mapItems);
    ListedComplete(order, entries, matches, mapItems);
    forall f | f in entries && ContainsIgnoringCase(DisplayName(f, entries[f]), filter)
      ensures f in Values(mapItems)
    {
      var j :| 0 <= j < |order| && order[j] == f;
      assert matches(DisplayName(order[j], entries[order[j]]));
    }
    ListedDistinct(order, entries, matches, mapItems);
    ListedSorted(order, names, entries, matches, mapItems);
  }

  /** Extending the order by one file extends the listing by that file's item, if it matches. */
  lemma ListedStep(order: seq<string>, entries: RegionIndex, matches: string -> bool, k: nat)
    requires k < |order|
    ensures Listed(order[..k + 1], entries, matches)
         == if order[k] in entries && matches(DisplayName(order[k], entries[order[k]])) then
              Listed(order[..k], entries, matches)
                + [MapItem(DisplayName(order[k], entries[order[k]]), order[k], "location" !in entries[order[k]].properties)]
            else Listed(order[..k], entries, matches)
  {
    assert order[..k + 1][..k] == order[..k];
  }

  /** The listing loop of `update_yaml_list` over the files in sorted order. */
  method ListItems(order: seq<string>, names: map<string, string>, entries: RegionIndex, filter: string,
                   ghost matches: string -> bool)
    returns (mapItems: seq<MapItem>, dataItems: seq<DataItem>)
    requires forall f :: f in order ==> f in names
    requires forall f :: f in names ==> f in entries && names[f] == DisplayName(f, entries[f])
    requires forall name :: matches(name) == ContainsIgnoringCase(name, filter)
    ensures mapItems == Listed(order, entries, matches)
    ensures |dataItems| == |mapItems|
    ensures forall i :: 0 <= i < |mapItems| ==> dataItems[i] == DataItem("", mapItems[i].value)
  {
    mapItems, dataItems := [], [];
    var k := 0;
    while k < |order|
      invariant 0 <= k <= |order|
      invariant mapItems == Listed(order[..k], entries, matches)
      invariant |dataItems| == |mapItems|
      invariant forall i :: 0 <= i < |mapItems| ==> dataItems[i] == DataItem("", mapItems[i].value)
    {
      var f := order[k];
      var keep := ContainsIgnoringCase(names[f], filter);
      ListedStep(order, entries, matches, k);
      assert names[f] == DisplayName(f, entries[f]);
      assert keep == matches(names[f]);
      if keep {
        mapItems := mapItems + [MapItem(names[f], f, "location" !in entries[f].properties)];
        dataItems := dataItems + [DataItem("", f)];
      }
      k := k + 1;
    }
    assert order[..k] == order;
  }

  /** With an empty filter every file of the region is listed. */
  lemma EmptyFilterKeepsAll(name: string)
    ensures ContainsIgnoringCase(name, "")
  {
    assert OccursAt(Lower(name), Lower(""), 0);
  }

  /**
   * The kept map selection: the previous selection intersected with the files still listed, or
   * nothing when there was no previous selection.
   */
  function MapSelection(files: set<string>, prev: Option<seq<string>>): (r: set<string>)
    ensures forall f :: f in r <==> prev.Some? && f in prev.value && f in files
  {
    match prev
    case None => {}
    case Some(p) => set f | f in p && f in files
  }

  /** `sorted(names)[0]`: the least filename, or none when the region has no files. */
  method SmallestName(files: set<string>) returns (first: Option<string>)
    ensures first.None? <==> files == {}
    ensures first.Some? ==> first.value in files && forall f :: f in files ==> LessEq(first.value, f)
  {
    first := None;
    var rest := files;
    while rest != {}
      invariant rest <= files
      invariant first.None? <==> rest == files
      invariant first.Some? ==> first.value in files && forall g :: g in files - rest ==> LessEq(first.value, g)
      decreases |rest|
    {
      var f :| f in rest;
      LessEqTotal(f, f);
      if first.None? {
        first := Some(f);
      } else if !LessEq(first.value, f) {
        var old_ := first.value;
        LessEqTotal(old_, f);
        forall g | g in files - rest
          ensures LessEq(f, g)
        {
          LessEqTransitive(f, old_, g);
        }
        first := Some(f);
      }
      rest := rest - {f};
    }
  }

  /**
   * The data selection of `update_yaml_list`: the least filename after a region change, else the
   * snapshot file, else the previous selection if it is still listed, else the least filename.
   * No selection stands for the `IndexError` of an empty region.
   */
  function SelectData(regionSubmitted: bool, savedFile: Option<string>, prev: Option<string>,
                      files: set<string>, first: Option<string>): (r: Option<string>)
    requires first.None? <==> files == {}
    requires first.Some? ==> first.value in files
    ensures r.None? <==> files == {} && (regionSubmitted || savedFile.None?)
    ensures !regionSubmitted && savedFile.Some? ==> r == savedFile
    ensures r.Some? && r != savedFile ==> r.value in files
    ensures !regionSubmitted && savedFile.None? && prev.Some? && prev.value != "" && prev.value in files ==> r == prev
    ensures regionSubmitted ==> r == first
    ensures !regionSubmitted && savedFile.None? && !(prev.Some? && prev.value != "" && prev.value in files) ==> r == first
  {
    if regionSubmitted then first
    else if savedFile.Some? then savedFile
    else if prev.Some? && prev.value != "" && prev.value in files then prev
    else first
  }
}
