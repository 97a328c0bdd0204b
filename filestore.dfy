/**
 * Reconciliation of the in-memory index `region -> filename -> entry` with the directory tree of
 * dataset files (`load_available_yaml_files`).
 */
module FileStore {
  import opened Wrappers
  import opened Regimes

  /** The entries of one region, keyed by filename. */
  type RegionIndex = map<string, Entry>

  /** The whole index, keyed by region (directory) name. */
  type Index = map<string, RegionIndex>

  /**
   * What `os.walk` reports below the root, in walk order: each visited directory's name (the last
   * path component) and the names of the files in it. Nested directories appear under their own
   * name, so a name may occur more than once.
   */
  type Listing = seq<(string, seq<string>)>

  /**
   * `Regime.load_props` on `region/filename`: the entry parsed from the file as it is on disk now,
   * or none when it raises.
   */
  type Parser = (string, string) -> Option<Entry>

  /** A parse that never raises. The reconciliation below is stated over it. */
  type Loader = (string, string) -> Entry

  /** Directory names that `os.walk` can report: never empty. */
  predicate WellFormed(listing: Listing)
  {
    forall i :: 0 <= i < |listing| ==> listing[i].0 != ""
  }

  /** A "hidden" directory, skipped by the scan: its name starts with `_` or `.`. */
  predicate Hidden(region: string)
  {
    |region| > 0 && (region[0] == '_' || region[0] == '.')
  }

  /**
   * One region's new entries: drop the files that are no longer listed, then parse each listed
   * file that is not (still) indexed, or every listed file on a deep pass.
   */
  function Refresh(entries: RegionIndex, region: string, files: seq<string>, deep: bool, load: Loader): (r: RegionIndex)
    ensures forall f :: f in r <==> f in files
    ensures forall f :: f in r ==> r[f] == if !deep && f in entries then entries[f] else load(region, f)
  {
    var kept := map f | f in entries && f in files :: entries[f];
    kept + map f | f in files && (deep || f !in kept) :: load(region, f)
  }

  /** The loop body for one listed directory. */
  function Step(index: Index, dir: (string, seq<string>), deep: bool, load: Loader): (r: Index)
    ensures Hidden(dir.0) ==> r == index
    ensures !Hidden(dir.0) ==> r.Keys == index.Keys + {dir.0}
    ensures forall g :: g in index && g != dir.0 ==> r[g] == index[g]
  {
    var region := dir.0;
    if Hidden(region) then index
    else index[region := Refresh(if region in index then index[region] else map[], region, dir.1, deep, load)]
  }

  /** The index after walking every listed directory, in order. */
  function Reconcile(index: Index, listing: Listing, deep: bool, load: Loader): (r: Index)
    ensures index.Keys <= r.Keys
    decreases |listing|
  {
    if listing == [] then index
    else Step(Reconcile(index, listing[..|listing| - 1], deep, load), listing[|listing| - 1], deep, load)
  }

  /** `region` is walked: it is listed and not hidden. */
  predicate Walked(listing: Listing, region: string)
  {
    !Hidden(region) && Occurs(listing, region)
  }

  predicate Occurs(listing: Listing, region: string)
    decreases |listing|
  {
    listing != [] && (listing[|listing| - 1].0 == region || Occurs(listing[..|listing| - 1], region))
  }

  /** The files listed at the last visit of `region` (nothing if it is never visited). */
  function LastFiles(listing: Listing, region: string): seq<string>
    decreases |listing|
  {
    if listing == [] then []
    else if listing[|listing| - 1].0 == region then listing[|listing| - 1].1
    else LastFiles(listing[..|listing| - 1], region)
  }

  /** `f` is listed at every visit of `region`, so no visit removed it. */
  predicate ListedThroughout(listing: Listing, region: string, f: string)
    decreases |listing|
  {
    listing == [] ||
    ((listing[|listing| - 1].0 == region ==> f in listing[|listing| - 1].1) &&
     ListedThroughout(listing[..|listing| - 1], region, f))
  }

  /** The entry a reconciled walked region holds for each of its listed files. */
  function Expected(index: Index, listing: Listing, deep: bool, load: Loader, region: string, f: string): Entry
  {
    if !deep && region in index && f in index[region] && ListedThroughout(listing, region, f)
    then index[region][f]
    else load(region, f)
  }

  /**
   * What reconciliation does to one region:
   * a region that is not walked (hidden, or not listed) keeps its entry, or its absence;
   * a walked region holds exactly the files listed at its last visit. Each of them keeps its old
   * entry on a non-deep pass if it was indexed and no visit dropped it; every other one is parsed.
   */
  lemma {:induction false} ReconcileAt(index: Index, listing: Listing, deep: bool, load: Loader, region: string)
    ensures var r := Reconcile(index, listing, deep, load);
      && (!Walked(listing, region) ==>
            (region in r <==> region in index) && (region in index ==> r[region] == index[region]))
      && (Walked(listing, region) ==>
            && region in r
            && (forall f :: f in r[region] <==> f in LastFiles(listing, region))
            && (forall f :: f in r[region] ==> r[region][f] == Expected(index, listing, deep, load, region, f)))
    decreases |listing|
  {
    if listing != [] {
      var init, dir := listing[..|listing| - 1], listing[|listing| - 1];
      ReconcileAt(index, init, deep, load, region);
      var prev := Reconcile(index, init, deep, load);
      var r := Reconcile(index, listing, deep, load);
      assert r == Step(prev, dir, deep, load);
      if dir.0 == region && !Hidden(region) {
        var old_ := if region in prev then prev[region] else map[];
        assert r[region] == Refresh(old_, region, dir.1, deep, load);
        forall f | f in r[region]
          ensures r[region][f] == Expected(index, listing, deep, load, region, f)
        {
          assert f in dir.1;
          assert ListedThroughout(listing, region, f) == ListedThroughout(init, region, f);
          if deep {
          } else if f in old_ {
            if Walked(init, region) {
              assert old_[f] == Expected(index, init, deep, load, region, f);
            } else {
              NotOccursListed(init, region, f);
            }
          } else if Walked(init, region) {
            if region in index && f in index[region] && ListedThroughout(init, region, f) {
              ListedInLast(init, region, f);
              assert false;
            }
          }
        }
      }
    }
  }

  lemma {:induction false} ListedInLast(listing: Listing, region: string, f: string)
    requires Occurs(listing, region) && ListedThroughout(listing, region, f)
    ensures f in LastFiles(listing, region)
    decreases |listing|
  {
    if listing[|listing| - 1].0 != region {
      ListedInLast(listing[..|listing| - 1], region, f);
    }
  }

  lemma {:induction false} NotOccursListed(listing: Listing, region: string, f: string)
    requires !Occurs(listing, region)
    ensures ListedThroughout(listing, region, f)
    decreases |listing|
  {
    if listing != [] {
      NotOccursListed(listing[..|listing| - 1], region, f);
    }
  }

  /**
   * Two passes over an unchanged tree give the index of the first: a second non-deep call after
   * any call (deep or not) changes nothing.
   */
  lemma ReconcileIdempotent(index: Index, listing: Listing, deep: bool, load: Loader)
    ensures var once := Reconcile(index, listing, deep, load);
      Reconcile(once, listing, false, load) == once
  {
    var once := Reconcile(index, listing, deep, load);
    var twice := Reconcile(once, listing, false, load);
    forall region | region in once || region in twice
      ensures region in once && region in twice && twice[region] == once[region]
    {
      ReconcileAt(index, listing, deep, load, region);
      ReconcileAt(once, listing, false, load, region);
      if Walked(listing, region) {
        forall f | f in twice[region] ensures twice[region][f] == once[region][f] {
        }
        assert twice[region].Keys == once[region].Keys;
      }
    }
  }

  /**
   * Deleting files from one region's directory: a non-deep pass over that directory removes exactly
   * the indexed files that are no longer listed, keeps the entry of every remaining file untouched
   * and leaves every other region as it was.
   */
  lemma RemovesExactlyUnlisted(index: Index, region: string, files: seq<string>, load: Loader)
    requires !Hidden(region) && region in index
    requires forall f :: f in files ==> f in index[region]
    ensures var r := Reconcile(index, [(region, files)], false, load);
      && r.Keys == index.Keys
      && r[region] == (map f | f in index[region] && f in files :: index[region][f])
      && (forall other :: other in index && other != region ==> r[other] == index[other])
  {
    var listing := [(region, files)];
    assert listing[..0] == [];
    assert Reconcile(index, listing[..0], false, load) == index;
    var r := Reconcile(index, listing, false, load);
    assert r == Step(index, (region, files), false, load);
  }

  /** How a scan ends: the reconciled index, or the index as it stood when `load_props` raised. */
  datatype ScanResult = Scanned(index: Index) | ScanFailed(index: Index)

  /**
   * The loading loop of one region, over its listed files in order: a file is parsed on a deep pass
   * or when the region's dict does not hold it (yet); the first parse that raises stops the loop,
   * and the error carries the dict as it stood then.
   */
  function LoadChecked(kept: RegionIndex, region: string, files: seq<string>, deep: bool, parse: Parser)
    : Result<RegionIndex, RegionIndex>
    decreases |files|
  {
    if files == [] then Ok(kept)
    else match LoadChecked(kept, region, files[..|files| - 1], deep, parse)
      case Err(partial) => Err(partial)
      case Ok(entries) =>
        var f := files[|files| - 1];
        if deep || f !in entries then
          match parse(region, f)
          case None => Err(entries)
          case Some(e) => Ok(entries[f := e])
        else Ok(entries)
  }

  /** The loop body for one listed directory, when `load_props` may raise. */
  function StepChecked(index: Index, dir: (string, seq<string>), deep: bool, parse: Parser): (r: ScanResult)
    ensures index.Keys <= r.index.Keys
  {
    var region := dir.0;
    if Hidden(region) then Scanned(index)
    else
      var entries := if region in index then index[region] else map[];
      var kept := map f | f in entries && f in dir.1 :: entries[f];
      match LoadChecked(kept, region, dir.1, deep, parse)
      case Ok(e) => Scanned(index[region := e])
      case Err(partial) => ScanFailed(index[region := partial])
  }

  /** The scan over every listed directory, in order, stopping at the first parse that raises. */
  function Scan(index: Index, listing: Listing, deep: bool, parse: Parser): (r: ScanResult)
    ensures index.Keys <= r.index.Keys
    decreases |listing|
  {
    if listing == [] then Scanned(index)
    else match Scan(index, listing[..|listing| - 1], deep, parse)
      case ScanFailed(partial) => ScanFailed(partial)
      case Scanned(prev) => StepChecked(prev, listing[|listing| - 1], deep, parse)
  }

  /**
   * The caller's index after a scan that raised. The scan works on a shallow copy, so the region
   * dicts the caller holds carry every change made to them before the raise; the regions the scan
   * added to its copy are lost with it.
   */
  function Visible(current: Index, partial: Index): (r: Index)
    requires current.Keys <= partial.Keys
    ensures r.Keys == current.Keys
    ensures forall g :: g in current ==> r[g] == partial[g]
  {
    map g | g in current :: partial[g]
  }

  /** The entry standing in for a parse that raised; a scan that completes never stores it. */
  const Unparsed: Entry := Entry("", "", {}, [])

  /** The parser as a parse that never raises, for the scans in which it does not. */
  function Loaded(parse: Parser): Loader
  {
    (region: string, f: string) => if parse(region, f).Some? then parse(region, f).value else Unparsed
  }

  /** Every file a pass may parse in `files` parses. */
  predicate ParsesAll(kept: RegionIndex, region: string, files: seq<string>, deep: bool, parse: Parser)
  {
    forall f :: f in files && (deep || f !in kept) ==> parse(region, f).Some?
  }

  /**
   * The loading loop completes exactly when each file it may parse (every listed one on a deep
   * pass, the ones not kept otherwise) parses, and then it has loaded what `Refresh` states.
   */
  lemma {:induction false} LoadCheckedOk(kept: RegionIndex, region: string, files: seq<string>, deep: bool, parse: Parser)
    ensures LoadChecked(kept, region, files, deep, parse).Ok? <==> ParsesAll(kept, region, files, deep, parse)
    ensures LoadChecked(kept, region, files, deep, parse).Ok? ==>
      LoadChecked(kept, region, files, deep, parse).value == kept + ParsedOf(kept, region, files, deep, parse)
    decreases |files|
  {
    if files != [] {
      var init, f := files[..|files| - 1], files[|files| - 1];
      assert files == init + [f];
      LoadCheckedOk(kept, region, init, deep, parse);
      assert ParsesAll(kept, region, files, deep, parse) <==>
        ParsesAll(kept, region, init, deep, parse) && ((deep || f !in kept) ==> parse(region, f).Some?);
      match LoadChecked(kept, region, init, deep, parse)
      case Err(_) =>
      case Ok(entries) =>
        LoadCheckedSnoc(kept, region, init, f, deep, parse, entries);
    }
  }

  /** The entries a pass parses among `files`: those listed on a deep pass, those not kept otherwise. */
  function ParsedOf(kept: RegionIndex, region: string, files: seq<string>, deep: bool, parse: Parser): RegionIndex
  {
    map g | g in files && (deep || g !in kept) :: Loaded(parse)(region, g)
  }

  /** Parsing one more file adds its entry, unless the pass keeps it. */
  lemma ParsedOfSnoc(kept: RegionIndex, region: string, init: seq<string>, f: string, deep: bool, parse: Parser)
    ensures ParsedOf(kept, region, init + [f], deep, parse)
         == if deep || f !in kept then ParsedOf(kept, region, init, deep, parse)[f := Loaded(parse)(region, f)]
            else ParsedOf(kept, region, init, deep, parse)
  {
    var files := init + [f];
    assert forall g :: g in files <==> g in init || g == f;
  }

  /** One more file after a completed prefix: the loaded entries grow by that file's parse, if needed. */
  lemma LoadCheckedSnoc(kept: RegionIndex, region: string, init: seq<string>, f: string, deep: bool, parse: Parser,
                        entries: RegionIndex)
    requires LoadChecked(kept, region, init, deep, parse) == Ok(entries)
    requires entries == kept + ParsedOf(kept, region, init, deep, parse)
    ensures LoadChecked(kept, region, init + [f], deep, parse).Ok? ==>
      LoadChecked(kept, region, init + [f], deep, parse).value == kept + ParsedOf(kept, region, init + [f], deep, parse)
  {
    var files := init + [f];
    assert files[..|files| - 1] == init;
    var before := ParsedOf(kept, region, init, deep, parse);
    ParsedOfSnoc(kept, region, init, f, deep, parse);
    if deep || f !in entries {
      if parse(region, f).Some? {
        assert deep || f !in kept;
        assert (kept + before)[f := Loaded(parse)(region, f)] == kept + before[f := Loaded(parse)(region, f)];
      }
    } else if f !in kept {
      assert f in init && f in before && before[f] == Loaded(parse)(region, f);
      assert before[f := Loaded(parse)(region, f)] == before;
    }
  }

  /** A walked directory's files. */
  predicate ListingParses(listing: Listing, parse: Parser)
  {
    forall i, f :: 0 <= i < |listing| && !Hidden(listing[i].0) && f in listing[i].1 ==> parse(listing[i].0, f).Some?
  }

  /** A hidden directory, or one whose every file parses. */
  predicate DirParses(dir: (string, seq<string>), parse: Parser)
  {
    Hidden(dir.0) || forall f :: f in dir.1 ==> parse(dir.0, f).Some?
  }

  /** Every walked directory of `listing` but the last is one of `init`. */
  lemma ListingParsesInit(listing: Listing, parse: Parser)
    requires listing != [] && ListingParses(listing, parse)
    ensures ListingParses(listing[..|listing| - 1], parse)
  {
    var init := listing[..|listing| - 1];
    forall i, f | 0 <= i < |init| && !Hidden(init[i].0) && f in init[i].1
      ensures parse(init[i].0, f).Some?
    {
      assert init[i] == listing[i];
    }
  }

  /** One more directory whose files all parse keeps a listing parsing. */
  lemma ListingParsesSnoc(listing: Listing, parse: Parser)
    requires listing != [] && ListingParses(listing[..|listing| - 1], parse)
    requires DirParses(listing[|listing| - 1], parse)
    ensures ListingParses(listing, parse)
  {
    var init := listing[..|listing| - 1];
    forall i, f | 0 <= i < |listing| && !Hidden(listing[i].0) && f in listing[i].1
      ensures parse(listing[i].0, f).Some?
    {
      if i < |init| { assert listing[i] == init[i]; }
    }
  }

  /** A scan completes when every file of a walked directory parses. */
  lemma {:induction false} ScanCompletes(index: Index, listing: Listing, deep: bool, parse: Parser)
    requires ListingParses(listing, parse)
    ensures Scan(index, listing, deep, parse).Scanned?
    decreases |listing|
  {
    if listing != [] {
      var init, dir := listing[..|listing| - 1], listing[|listing| - 1];
      ListingParsesInit(listing, parse);
      ScanCompletes(index, init, deep, parse);
      var prev := Scan(index, init, deep, parse).index;
      if !Hidden(dir.0) {
        var entries := if dir.0 in prev then prev[dir.0] else map[];
        var kept := map f | f in entries && f in dir.1 :: entries[f];
        assert dir == listing[|listing| - 1];
        LoadCheckedOk(kept, dir.0, dir.1, deep, parse);
      }
    }
  }

  /** A deep scan completes only when every file of a walked directory parses. */
  lemma {:induction false} DeepScanNeedsParses(index: Index, listing: Listing, parse: Parser)
    requires Scan(index, listing, true, parse).Scanned?
    ensures ListingParses(listing, parse)
    decreases |listing|
  {
    if listing != [] {
      var init, dir := listing[..|listing| - 1], listing[|listing| - 1];
      DeepScanNeedsParses(index, init, parse);
      var prev := Scan(index, init, true, parse).index;
      if !Hidden(dir.0) {
        var entries := if dir.0 in prev then prev[dir.0] else map[];
        var kept := map f | f in entries && f in dir.1 :: entries[f];
        LoadCheckedOk(kept, dir.0, dir.1, true, parse);
      }
      ListingParsesSnoc(listing, parse);
    }
  }

  /** A scan that completes computes the reconciliation. */
  lemma {:induction false} ScanReconciles(index: Index, listing: Listing, deep: bool, parse: Parser)
    requires Scan(index, listing, deep, parse).Scanned?
    ensures Scan(index, listing, deep, parse).index == Reconcile(index, listing, deep, Loaded(parse))
    decreases |listing|
  {
    if listing != [] {
      var init, dir := listing[..|listing| - 1], listing[|listing| - 1];
      ScanReconciles(index, init, deep, parse);
      var prev := Scan(index, init, deep, parse).index;
      if !Hidden(dir.0) {
        var entries := if dir.0 in prev then prev[dir.0] else map[];
        var kept := map f | f in entries && f in dir.1 :: entries[f];
        LoadCheckedOk(kept, dir.0, dir.1, deep, parse);
        assert LoadChecked(kept, dir.0, dir.1, deep, parse).value == Refresh(entries, dir.0, dir.1, deep, Loaded(parse));
      }
    }
  }

  /** The step for a walked directory, given the kept entries and the outcome of its loading loop. */
  lemma StepCheckedIs(index: Index, dir: (string, seq<string>), deep: bool, parse: Parser,
                      kept: RegionIndex, loaded: Result<RegionIndex, RegionIndex>)
    requires !Hidden(dir.0)
    requires kept == map f | f in (if dir.0 in index then index[dir.0] else map[]) && f in dir.1 ::
      (if dir.0 in index then index[dir.0] else map[])[f]
    requires loaded == LoadChecked(kept, dir.0, dir.1, deep, parse)
    ensures StepChecked(index, dir, deep, parse) ==
      if loaded.Ok? then Scanned(index[dir.0 := loaded.value]) else ScanFailed(index[dir.0 := loaded.error])
  {
  }

  /**
   * A region the walk never visits keeps its dict, whether the scan completes or raises; so after a
   * failed scan the caller still holds every region of its index, the unvisited ones unchanged.
   */
  lemma {:induction false} ScanKeepsUnwalked(index: Index, listing: Listing, deep: bool, parse: Parser, region: string)
    requires region in index && !Walked(listing, region)
    ensures Scan(index, listing, deep, parse).index[region] == index[region]
    ensures Visible(index, Scan(index, listing, deep, parse).index)[region] == index[region]
    decreases |listing|
  {
    if listing != [] {
      ScanKeepsUnwalked(index, listing[..|listing| - 1], deep, parse, region);
    }
  }

  /** One more directory: the scan so far, extended by the step for that directory. */
  lemma ScanSnoc(index: Index, listing: Listing, i: nat, deep: bool, parse: Parser)
    requires i < |listing| && Scan(index, listing[..i], deep, parse).Scanned?
    ensures Scan(index, listing[..i + 1], deep, parse) ==
      StepChecked(Scan(index, listing[..i], deep, parse).index, listing[i], deep, parse)
  {
    assert listing[..i + 1][..i] == listing[..i];
  }

  /** Once a scan has raised, the directories after that one change nothing. */
  lemma {:induction false} ScanFailedStays(index: Index, listing: Listing, n: nat, deep: bool, parse: Parser)
    requires n <= |listing| && Scan(index, listing[..n], deep, parse).ScanFailed?
    ensures Scan(index, listing, deep, parse) == Scan(index, listing[..n], deep, parse)
    decreases |listing|
  {
    if n < |listing| {
      var init := listing[..|listing| - 1];
      assert init[..n] == listing[..n];
      ScanFailedStays(index, init, n, deep, parse);
    } else {
      assert listing[..n] == listing;
    }
  }

  /** Once a parse has raised, the files after that one change nothing. */
  lemma {:induction false} LoadFailedStays(kept: RegionIndex, region: string, files: seq<string>, n: nat, deep: bool,
                                           parse: Parser)
    requires n <= |files| && LoadChecked(kept, region, files[..n], deep, parse).Err?
    ensures LoadChecked(kept, region, files, deep, parse) == LoadChecked(kept, region, files[..n], deep, parse)
    decreases |files|
  {
    if n < |files| {
      var init := files[..|files| - 1];
      assert init[..n] == files[..n];
      LoadFailedStays(kept, region, init, n, deep, parse);
    } else {
      assert files[..n] == files;
    }
  }

  /**
   * The imperative scan. The global `deep_update_necessary` is passed in and its new value returned:
   * when set it forces this pass to be deep, and it is cleared before the walk starts, so it stays
   * cleared when a parse raises. On `ScanFailed` the caller's index is `Visible(current, result.index)`.
   */
  method LoadAvailableYamlFiles(current: Index, listing: Listing, deep: bool, deepUpdateNecessary: bool,
                                parse: Parser)
    returns (result: ScanResult, deepUpdateNecessary': bool)
    requires WellFormed(listing)
    ensures !deepUpdateNecessary'
    ensures result == Scan(current, listing, deep || deepUpdateNecessary, parse)
  {
    var deepUpdate := deep;
    deepUpdateNecessary' := deepUpdateNecessary;
    // a forced deep update
    if deepUpdateNecessary' {
      deepUpdate := true;
      deepUpdateNecessary' := false;
    }
    var available := current;
    for i := 0 to |listing|
      invariant Scan(current, listing[..i], deepUpdate, parse) == Scanned(available)
    {
      ScanSnoc(current, listing, i, deepUpdate, parse);
      var step := ScanDirectory(available, listing[i], deepUpdate, parse);
      if step.ScanFailed? {
        ScanFailedStays(current, listing, i + 1, deepUpdate, parse);
        return step, deepUpdateNecessary';
      }
      available := step.index;
    }
    assert listing[..|listing|] == listing;
    result := Scanned(available);
  }

  /** One turn of the walk: a hidden directory is skipped, any other one is reconciled in place. */
  method ScanDirectory(available: Index, dir: (string, seq<string>), deep: bool, parse: Parser)
    returns (result: ScanResult)
    requires dir.0 != ""
    ensures result == StepChecked(available, dir, deep, parse)
  {
    var (region, filenames) := dir;
    if region[0] == '_' || region[0] == '.' {
      return Scanned(available);
    }
    var regions := available;
    if region !in regions {
      regions := regions[region := map[]];
    }
    var entries := RemoveUnlisted(regions[region], filenames);
    var loaded := LoadNew(entries, region, filenames, deep, parse);
    StepCheckedIs(available, dir, deep, parse, entries, loaded);
    assert regions[region := map[]] == available[region := map[]];
    if loaded.Err? {
      return ScanFailed(regions[region := loaded.error]);
    }
    result := Scanned(regions[region := loaded.value]);
  }

  /** Deletes, one key at a time, the entries whose file is no longer listed. */
  method RemoveUnlisted(entries: RegionIndex, filenames: seq<string>) returns (kept: RegionIndex)
    ensures kept == map f | f in entries && f in filenames :: entries[f]
  {
    kept := entries;
    var currentFiles := entries.Keys;
    while currentFiles != {}
      invariant currentFiles <= entries.Keys
      invariant kept == map f | f in entries && (f in currentFiles || f in filenames) :: entries[f]
      decreases currentFiles
    {
      var filename :| filename in currentFiles;
      if filename !in filenames {
        kept := kept - {filename};
      }
      currentFiles := currentFiles - {filename};
    }
  }

  /**
   * Parses each listed file that the dict does not hold, or every listed file on a deep pass; a
   * parse that raises ends the loop with the dict as it stands.
   */
  method LoadNew(kept: RegionIndex, region: string, filenames: seq<string>, deep: bool, parse: Parser)
    returns (r: Result<RegionIndex, RegionIndex>)
    ensures r == LoadChecked(kept, region, filenames, deep, parse)
  {
    var entries := kept;
    for j := 0 to |filenames|
      invariant LoadChecked(kept, region, filenames[..j], deep, parse) == Ok(entries)
    {
      var filename := filenames[j];
      assert filenames[..j + 1][..j] == filenames[..j];
      if deep || filename !in entries {
        var e := parse(region, filename);
        if e.None? {
          LoadFailedStays(kept, region, filenames, j + 1, deep, parse);
          return Err(entries);
        }
        entries := entries[filename := e.value];
      }
    }
    assert filenames[..|filenames|] == filenames;
    r := Ok(entries);
  }
}
