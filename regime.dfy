/** What the session keeps of one dataset file ("regime"). */
module Regimes {

  /** One figure attachment: the embedded image (a data URI) and its caption. */
  datatype Figure = Figure(src: string, description: string)

  /**
   * A dict of figures keyed by filename. Python dicts keep insertion order, which decides the
   * slot a figure is shown in, so it is an association list; comparisons use `AsMap`.
   */
  type Figures = seq<(string, Figure)>

  /** The value the `Regime` class gives to a dataset without a name of its own. */
  const NameDefault: string := "Default"

  /**
   * An index entry: what `Regime.load_props` yields for one file, as far as the session reads it
   * (its name, its description, the names of its properties, its figures).
   */
  datatype Entry = Entry(name: string, description: string, properties: set<string>, figures: Figures)

  /** The figure filenames, in order. */
  function Names(figs: Figures): (r: seq<string>)
    ensures |r| == |figs| && forall i :: 0 <= i < |figs| ==> r[i] == figs[i].0
  {
    seq(|figs|, i requires 0 <= i < |figs| => figs[i].0)
  }

  /** The dict seen as an unordered map: what Python's `==` on two dicts compares. */
  function AsMap(figs: Figures): (m: map<string, Figure>)
    ensures forall k :: k in m <==> k in Names(figs)
  {
    if figs == [] then map[]
    else AsMap(figs[..|figs| - 1])[figs[|figs| - 1].0 := figs[|figs| - 1].1]
  }

  /** `figs[name] = f`: replaces the figure in its slot if the name is present, else appends it. */
  function SetFigure(figs: Figures, name: string, f: Figure): (r: Figures)
  {
    if name in Names(figs) then Replace(figs, name, f) else figs + [(name, f)]
  }

  /** Every figure called `name` replaced by `f`, in place. */
  function Replace(figs: Figures, name: string, f: Figure): (r: Figures)
  {
    if figs == [] then []
    else Replace(figs[..|figs| - 1], name, f) + [if figs[|figs| - 1].0 == name then (name, f) else figs[|figs| - 1]]
  }

  /** `del figs[name]` when the name is present. */
  function RemoveFigure(figs: Figures, name: string): (r: Figures)
  {
    if figs == [] then []
    else if figs[|figs| - 1].0 == name then RemoveFigure(figs[..|figs| - 1], name)
    else RemoveFigure(figs[..|figs| - 1], name) + [figs[|figs| - 1]]
  }

  /** A dict has each key once. */
  predicate UniqueNames(figs: Figures)
  {
    forall i, j :: 0 <= i < j < |figs| ==> figs[i].0 != figs[j].0
  }

  /** Assigning a figure updates the dict seen as a map and keeps every other slot where it was. */
  lemma SetFigureSpec(figs: Figures, name: string, f: Figure)
    ensures AsMap(SetFigure(figs, name, f)) == AsMap(figs)[name := f]
    ensures name in Names(figs) ==> Names(SetFigure(figs, name, f)) == Names(figs)
    ensures name !in Names(figs) ==> Names(SetFigure(figs, name, f)) == Names(figs) + [name]
    ensures UniqueNames(figs) ==> UniqueNames(SetFigure(figs, name, f))
  {
    if name in Names(figs) {
      ReplaceNames(figs, name, f);
      ReplaceAsMap(figs, name, f);
    } else {
      var r := figs + [(name, f)];
      assert r[..|r| - 1] == figs;
      assert Names(r) == Names(figs) + [name];
    }
  }

  lemma {:induction false} ReplaceNames(figs: Figures, name: string, f: Figure)
    ensures Names(Replace(figs, name, f)) == Names(figs)
    decreases |figs|
  {
    if figs != [] {
      ReplaceNames(figs[..|figs| - 1], name, f);
      assert Names(figs) == Names(figs[..|figs| - 1]) + [figs[|figs| - 1].0];
    }
  }

  lemma {:induction false} ReplaceAsMap(figs: Figures, name: string, f: Figure)
    requires name in Names(figs)
    ensures AsMap(Replace(figs, name, f)) == AsMap(figs)[name := f]
    decreases |figs|
  {
    var init, last := figs[..|figs| - 1], figs[|figs| - 1];
    var rest := Replace(init, name, f);
    var lastNew := if last.0 == name then (name, f) else last;
    AsMapSnoc(rest, lastNew);
    assert figs == init + [last];
    AsMapSnoc(init, last);
    assert Names(figs) == Names(init) + [last.0];
    if name in Names(init) {
      ReplaceAsMap(init, name, f);
      if last.0 == name {
        UpdateTwice(AsMap(init), name, f, f);
        UpdateTwice(AsMap(init), name, last.1, f);
      } else {
        UpdateCommute(AsMap(init), name, f, last.0, last.1);
      }
    } else {
      ReplaceAbsent(init, name, f);
      UpdateTwice(AsMap(init), name, last.1, f);
    }
  }

  /** Appending one figure adds (or overrides) its key. */
  lemma AsMapSnoc(figs: Figures, x: (string, Figure))
    ensures AsMap(figs + [x]) == AsMap(figs)[x.0 := x.1]
  {
    assert (figs + [x])[..|figs|] == figs;
  }

  lemma UpdateTwice<K, V>(m: map<K, V>, k: K, a: V, b: V)
    ensures m[k := a][k := b] == m[k := b]
  {
  }

  lemma UpdateCommute<K, V>(m: map<K, V>, k1: K, a: V, k2: K, b: V)
    requires k1 != k2
    ensures m[k1 := a][k2 := b] == m[k2 := b][k1 := a]
  {
  }

  lemma {:induction false} ReplaceAbsent(figs: Figures, name: string, f: Figure)
    requires name !in Names(figs)
    ensures Replace(figs, name, f) == figs
    decreases |figs|
  {
    if figs != [] {
      assert Names(figs) == Names(figs[..|figs| - 1]) + [figs[|figs| - 1].0];
      ReplaceAbsent(figs[..|figs| - 1], name, f);
    }
  }

  /** Deleting a figure removes exactly that key from the dict seen as a map. */
  lemma {:induction false} RemoveFigureAsMap(figs: Figures, name: string)
    ensures AsMap(RemoveFigure(figs, name)) == AsMap(figs) - {name}
    decreases |figs|
  {
    if figs != [] {
      var init, last := figs[..|figs| - 1], figs[|figs| - 1];
      RemoveFigureAsMap(init, name);
      var rest := RemoveFigure(init, name);
      assert figs == init + [last];
      AsMapSnoc(init, last);
      if last.0 != name {
        AsMapSnoc(rest, last);
        RemoveAfterUpdate(AsMap(init), last.0, last.1, name);
      } else {
        RemoveUpdated(AsMap(init), name, last.1);
      }
    }
  }

  lemma RemoveAfterUpdate<K, V>(m: map<K, V>, k: K, v: V, j: K)
    requires k != j
    ensures (m - {j})[k := v] == m[k := v] - {j}
  {
  }

  lemma RemoveUpdated<K, V>(m: map<K, V>, k: K, v: V)
    ensures m[k := v] - {k} == m - {k}
  {
  }

  /** `names` with every occurrence of `name` dropped, the others kept in their order. */
  function Without(names: seq<string>, name: string): (r: seq<string>)
    ensures forall k :: k in r <==> k in names && k != name
    ensures |r| <= |names|
  {
    if names == [] then []
    else if names[|names| - 1] == name then Without(names[..|names| - 1], name)
    else
      assert names == names[..|names| - 1] + [names[|names| - 1]];
      Without(names[..|names| - 1], name) + [names[|names| - 1]]
  }

  /** Deleting a figure leaves the other names in the order they had. */
  lemma {:induction false} RemoveFigureNames(figs: Figures, name: string)
    ensures Names(RemoveFigure(figs, name)) == Without(Names(figs), name)
    decreases |figs|
  {
    if figs != [] {
      var init, last := figs[..|figs| - 1], figs[|figs| - 1];
      RemoveFigureNames(init, name);
      var names := Names(figs);
      assert names[..|names| - 1] == Names(init);
      if last.0 != name {
        assert Names(RemoveFigure(init, name) + [last]) == Names(RemoveFigure(init, name)) + [last.0];
      }
    }
  }

  /** Deleting a figure keeps the keys unique. */
  lemma {:induction false} RemoveFigureUnique(figs: Figures, name: string)
    requires UniqueNames(figs)
    ensures UniqueNames(RemoveFigure(figs, name))
    decreases |figs|
  {
    if figs != [] {
      var init, last := figs[..|figs| - 1], figs[|figs| - 1];
      RemoveFigureUnique(init, name);
      if last.0 != name {
        var rest := RemoveFigure(init, name);
        RemoveFigureNames(init, name);
        assert last.0 !in Names(init);
        assert last.0 !in Names(rest);
        var r := rest + [last];
        forall i, j | 0 <= i < j < |r| ensures r[i].0 != r[j].0 {
          if j == |rest| { assert Names(rest)[i] == r[i].0; }
        }
      }
    }
  }
}
