/**
 * The session of the editor: the module-level state of the Dash application (the index of regimes,
 * `saved_data_state`, `check_fired_by`, `deep_update_necessary`, `current_figures`) and the
 * callbacks that update it, with the YAML directory as a map the writes act on.
 */
module Session {
  import opened Wrappers
  import opened Text
  import opened Regimes
  import opened FileStore
  import opened Normalise
  import opened DirtyState
  import opened Confirm
  import opened DatasetList
  import opened FigureSlots
  import TableEdits

  /** What a file of the YAML directory holds after this session wrote it. */
  datatype Content =
    | EmptyRegime                 // an empty `Regime()` written by the new-file dialog
    | Saved(regime: NewRegime)    // the regime built from the table by a save
    | Uploaded(contents: string)  // the uploaded file, as the upload component delivered it
    | Truncated                   // the empty file `open(..., 'w')` leaves when the upload then raises

  /** The YAML directory: region directory -> file name -> content. */
  type Disk = map<string, map<string, Content>>

  /** The directory after writing `content` to `region`/`file`, or none when the region directory is missing. */
  function WriteFile(disk: Disk, region: string, file: string, content: Content): (r: Option<Disk>)
    ensures r.Some? <==> region in disk
    ensures r.Some? ==> r.value.Keys == disk.Keys && r.value[region] == disk[region][file := content]
    ensures r.Some? ==> forall g :: g in disk && g != region ==> r.value[g] == disk[g]
  {
    if region in disk then Some(disk[region := disk[region][file := content]]) else None
  }

  /** The directory after removing `region`/`file`, or none when that file does not exist. */
  function RemoveFile(disk: Disk, region: string, file: string): (r: Option<Disk>)
    ensures r.Some? <==> region in disk && file in disk[region]
    ensures r.Some? ==> r.value.Keys == disk.Keys && r.value[region] == disk[region] - {file}
    ensures r.Some? ==> forall g :: g in disk && g != region ==> r.value[g] == disk[g]
  {
    if region in disk && file in disk[region] then Some(disk[region := disk[region] - {file}]) else None
  }

  /** The snapshot after a dataset was written: it names the file and records the four live values. */
  function Committed(s: Snapshot, file: string, title: string, description: string, figures: Figures,
                     table: seq<Row>): (r: Snapshot)
    ensures r.region == s.region && r.file == Some(file) && r.newFile
    ensures Describes(r, title, description, figures, table)
  {
    s.(file := Some(file), name := Some(title), description := Some(description), figures := figures,
       table := Some(table), newFile := true)
  }

  /** Right after a commit the very values written are clean, and any other value of the four is dirty. */
  lemma CommitIsClean(s: Snapshot, file: string, title: string, description: string, figures: Figures,
                      table: seq<Row>, title': string, description': string, figures': Figures, table': seq<Row>)
    ensures !CheckChanges(Committed(s, file, title, description, figures, table), figures, description, title, table)
    ensures CheckChanges(Committed(s, file, title, description, figures, table), figures', description', title', table')
      <==> title' != title || description' != description || AsMap(figures') != AsMap(figures) || table' != table
  {
  }

  /**
   * A save records the normalised rows, which have lost their `property` cell, so the table the
   * browser still shows looks changed until the list reload replaces it.
   */
  lemma SavedTableLooksChanged(s: Snapshot, file: string, title: string, description: string, figures: Figures,
                               rows: seq<Row>, pf: FloatParser, le: LiteralParser)
    requires AllText(rows) && |rows| > 0 && ConvertAll(rows, pf, le).Ok?
    ensures CheckChanges(Committed(s, file, title, description, figures, RowsAfter(rows, pf, le)), figures,
                         description, title, rows)
  {
    RowsAfterDropProperty(rows, pf, le);
    ConvertAllLength(rows, pf, le);
    assert "property" in rows[0] && "property" !in RowsAfter(rows, pf, le)[0];
  }

  /** What `update_meta_info` answers: `PreventUpdate`, an exception, or the title, its tooltip and the description. */
  datatype MetaReply = MetaPrevented | MetaCrashed | Meta(name: string, tooltip: string, description: string)

  /** The input that fired `update_yaml_list`. */
  datatype ListTrigger = FilterButton | DatasetsCancelled | RegionSubmitted

  /** What `update_yaml_list` answers: an exception, only the data selection (a cancelled dialog), or all four lists. */
  datatype ListReply =
    | ListCrashed
    | ListCancelled(restored: Option<string>)
    | Lists(mapItems: seq<MapItem>, mapSelected: set<string>, dataItems: seq<DataItem>, dataSelected: string)

  /** The input of `write_yaml_file` that fired: the submit button of one of the five dialogs. */
  datatype WriteSource = NewFileDialog | SaveDialog | SaveAsDialog | UploadDialog | DeleteDialog

  /** What `write_yaml_file` answers: an exception, no update, or the filter submit count and the upload contents. */
  datatype WriteReply = WriteCrashed | WriteNoUpdate | Written(filterSubmit: nat, uploadContents: Update<string>)

  /**
   * The file name a write goes to, per the dialog that fired: none when no dialog fired with a
   * truthy click count, else the state that dialog names (itself possibly none).
   */
  function WriteTarget(source: Option<WriteSource>, clicks: Option<nat>, currentFile: Option<string>,
                       newFileName: Option<string>, saveAsName: Option<string>, uploadName: Option<string>)
    : (r: Option<Option<string>>)
    ensures r.None? <==> source.None? || !Truthy(clicks)
    ensures r.Some? && source.value in {SaveDialog, DeleteDialog} ==> r.value == currentFile
    ensures r.Some? && source.value == NewFileDialog ==> r.value == newFileName
    ensures r.Some? && source.value == SaveAsDialog ==> r.value == saveAsName
    ensures r.Some? && source.value == UploadDialog ==> r.value == uploadName
  {
    if source.None? || !Truthy(clicks) then None
    else match source.value
      case NewFileDialog => Some(newFileName)
      case SaveDialog => Some(currentFile)
      case SaveAsDialog => Some(saveAsName)
      case UploadDialog => Some(uploadName)
      case DeleteDialog => Some(currentFile)
  }

  /**
   * What `update_data` answers: an exception, the edit of `TableEdits.UpdateData`, or the table
   * rebuilt from the selected regime, as its rows.
   */
  datatype DataReply = DataCrashed | DataEdited(edit: TableEdits.TableReply) | DataRebuilt(rows: seq<Row>)

  /** The input that fired `change_figures`. */
  datatype FigureSource = FigureUploaded | FigureDeleteClicked | DatasetApproved

  /** What `change_figures` answers: an exception, or the four slots, the upload area's class and the close button's count. */
  datatype FiguresReply =
    | FiguresCrashed
    | Slots(titles: seq<string>, srcs: seq<string>, classes: seq<string>, uploadClass: string,
            closeClicks: Update<Option<nat>>)

  class GuiSession {
    /** `regimes`: region -> file name -> parsed regime. */
    var index: Index
    /** `saved_data_state`. */
    var snapshot: Snapshot
    /** `check_fired_by`: the input that fired a confirmation check last. */
    var marker: Option<Source>
    /** `deep_update_necessary`: the next scan must re-parse every file. */
    var deepUpdateNecessary: bool
    /** `current_figures`: the figures of the dataset being edited. */
    var currentFigures: Figures
    /** The YAML directory the writes act on. */
    var disk: Disk
    /** `Regime.load_props`, the parse of one file. */
    const parse: Parser
    /** `Regime.DESCRIPTION_DEFAULT`, the caption of an uploaded figure. */
    const descriptionDefault: string

    /** A session holding `index`, with nothing loaded yet and no figures. */
    constructor(index: Index, parse: Parser, descriptionDefault: string, disk: Disk)
      ensures this.index == index && snapshot == Initial && marker == Some(YamlListData)
      ensures !deepUpdateNecessary && currentFigures == []
      ensures this.disk == disk && this.parse == parse && this.descriptionDefault == descriptionDefault
    {
      this.index := index;
      this.parse := parse;
      this.descriptionDefault := descriptionDefault;
      this.disk := disk;
      snapshot := Initial;
      marker := Some(YamlListData);
      currentFigures := [];
      deepUpdateNecessary := false;
    }

    /**
     * The module-level initialisation: a deep scan of the directory into an empty index. When a
     * parse raises, the module does not load and there is no session.
     */
    static method Start(listing: Listing, parse: Parser, descriptionDefault: string, disk: Disk)
      returns (session: Option<GuiSession>)
      requires WellFormed(listing)
      ensures session.None? <==> Scan(map[], listing, true, parse).ScanFailed?
      ensures session.Some? ==>
        && fresh(session.value)
        && session.value.index == Scan(map[], listing, true, parse).index
        && session.value.snapshot == Initial && session.value.marker == Some(YamlListData)
        && !session.value.deepUpdateNecessary && session.value.currentFigures == []
        && session.value.disk == disk && session.value.parse == parse
        && session.value.descriptionDefault == descriptionDefault
    {
      var scan, flag := LoadAvailableYamlFiles(map[], listing, true, false, parse);
      if scan.ScanFailed? {
        return None;
      }
      var s := new GuiSession(scan.index, parse, descriptionDefault, disk);
      session := Some(s);
    }

    /**
     * `regimes = load_available_yaml_files(regimes)`: a scan, deep if a save asked for one, which
     * clears the request. When a parse raises, the assignment does not happen, but the region dicts
     * the index shares with the scan's copy keep what the scan did to them.
     */
    method Rescan(listing: Listing) returns (raised: bool)
      requires WellFormed(listing)
      modifies this
      ensures var scan := Scan(old(index), listing, old(deepUpdateNecessary), parse);
        && raised == scan.ScanFailed?
        && index == (if scan.Scanned? then scan.index else Visible(old(index), scan.index))
      ensures !deepUpdateNecessary
      ensures snapshot == old(snapshot) && marker == old(marker) && currentFigures == old(currentFigures)
      ensures disk == old(disk)
    {
      var scan, flag := LoadAvailableYamlFiles(index, listing, false, deepUpdateNecessary, parse);
      deepUpdateNecessary := flag;
      if scan.ScanFailed? {
        index := Visible(index, scan.index);
        return true;
      }
      index := scan.index;
      raised := false;
    }

    /**
     * `update_yaml_list`: a cancelled dataset dialog restores the saved file; otherwise the list of
     * the region is rebuilt (after a scan when the filter button was clicked), the data selection
     * is chosen and the snapshot moves to the region with no file loaded. `listing` is the directory
     * at the time of the call.
     */
    method UpdateYamlList(trigger: Option<ListTrigger>, filterClicks: Option<nat>, region: string, filter: string,
                          mapPrev: Option<seq<string>>, dataPrev: Option<string>, listing: Listing)
      returns (reply: ListReply)
      requires WellFormed(listing)
      modifies this
      ensures marker == old(marker) && currentFigures == old(currentFigures) && disk == old(disk)
      ensures trigger == Some(DatasetsCancelled) ==>
        reply == ListCancelled(old(snapshot).file) && index == old(index) && snapshot == old(snapshot) &&
        deepUpdateNecessary == old(deepUpdateNecessary)
      ensures var scan := Scan(old(index), listing, old(deepUpdateNecessary), parse);
        trigger != Some(DatasetsCancelled) ==>
        && (Truthy(filterClicks) ==>
              index == (if scan.Scanned? then scan.index else Visible(old(index), scan.index)) && !deepUpdateNecessary)
        && (!Truthy(filterClicks) ==> index == old(index) && deepUpdateNecessary == old(deepUpdateNecessary))
        && (reply.ListCrashed? <==>
              (Truthy(filterClicks) && scan.ScanFailed?) || region !in index ||
              (index[region] == map[] && (trigger == Some(RegionSubmitted) || old(snapshot).file.None?)))
        && (reply.ListCrashed? ==> snapshot == old(snapshot))
      ensures reply.Lists? ==>
        && region in index
        && snapshot == old(snapshot).(region := Some(region), file := None)
        && |reply.mapItems| == |reply.dataItems|
        && (forall i :: 0 <= i < |reply.mapItems| ==>
              ItemFor(reply.mapItems[i], index[region]) && reply.dataItems[i] == DataItem("", reply.mapItems[i].value))
        && (forall f :: f in index[region] ==>
              (f in Values(reply.mapItems) <==> ContainsIgnoringCase(DisplayName(f, index[region][f]), filter)))
        && Distinct(Values(reply.mapItems))
        && (forall i, j :: 0 <= i < j < |reply.mapItems| ==> LessEq(reply.mapItems[i].caption, reply.mapItems[j].caption))
        && reply.mapSelected == MapSelection(index[region].Keys, mapPrev)
        && (trigger != Some(RegionSubmitted) && old(snapshot).file.Some? ==> reply.dataSelected == old(snapshot).file.value)
        && ((trigger != Some(RegionSubmitted) && old(snapshot).file.None? && dataPrev.Some? && dataPrev.value != ""
              && dataPrev.value in index[region]) ==> reply.dataSelected == dataPrev.value)
        && (Some(reply.dataSelected) != old(snapshot).file ==> reply.dataSelected in index[region])
        && ((trigger == Some(RegionSubmitted) ||
             (old(snapshot).file.None? && !(dataPrev.Some? && dataPrev.value != "" && dataPrev.value in index[region]))) ==>
              reply.dataSelected in index[region] && forall f :: f in index[region] ==> LessEq(reply.dataSelected, f))
    {
      if trigger == Some(DatasetsCancelled) {
        return ListCancelled(snapshot.file);
      }
      if Truthy(filterClicks) {
        var raised := Rescan(listing);
        if raised {
          return ListCrashed;
        }
      }
      if region !in index {
        return ListCrashed;
      }
      var entries := index[region];
      var mapItems, dataItems := BuildItems(entries, filter);
      var mapSelected := MapSelection(entries.Keys, mapPrev);
      var first := SmallestName(entries.Keys);
      var selected := SelectData(trigger == Some(RegionSubmitted), snapshot.file, dataPrev, entries.Keys, first);
      if selected.None? {
        return ListCrashed;
      }
      snapshot := snapshot.(region := Some(region), file := None);
      reply := Lists(mapItems, mapSelected, dataItems, selected.value);
    }

    /** `reset_selected_region`: a cancelled region dialog puts the dropdown back on the snapshot's region. */
    method ResetSelectedRegion() returns (region: Option<string>)
      ensures region == snapshot.region
    {
      region := snapshot.region;
    }

    /**
     * `update_meta_info`: after an approved dataset selection the title and description of the
     * selected regime are shown and recorded in the snapshot, which now names the file as loaded.
     */
    method UpdateMetaInfo(region: string, selected: Option<string>) returns (reply: MetaReply)
      modifies this
      ensures index == old(index) && marker == old(marker) && deepUpdateNecessary == old(deepUpdateNecessary)
      ensures currentFigures == old(currentFigures) && disk == old(disk)
      ensures reply == MetaPrevented <==> marker != Some(YamlListData)
      ensures marker == Some(YamlListData) ==>
        (reply.MetaCrashed? <==> !(region in index && selected.Some? && selected.value in index[region]))
      ensures !reply.Meta? ==> snapshot == old(snapshot)
      ensures reply.Meta? ==> region in index && selected.Some? && selected.value in index[region]
      ensures reply.Meta? ==>
        reply == Meta(DisplayName(selected.value, index[region][selected.value]), selected.value,
                      index[region][selected.value].description)
      ensures reply.Meta? ==>
        snapshot == old(snapshot).(file := selected, name := Some(reply.name), description := Some(reply.description),
                                   newFile := false)
    {
      if marker != Some(YamlListData) {
        return MetaPrevented;
      }
      if !(region in index && selected.Some? && selected.value in index[region]) {
        return MetaCrashed;
      }
      var file := selected.value;
      var e := index[region][file];
      var name := DisplayName(file, e);
      snapshot := snapshot.(file := selected, name := Some(name), description := Some(e.description), newFile := false);
      reply := Meta(name, file, e.description);
    }

    /**
     * `update_data`: the two edit buttons act on the table as `TableEdits.UpdateData` says; the rebuild
     * of the table from the selected regime records the rebuilt rows in the snapshot. `records`
     * stands for those rows, which are built from the regime's property table; none is the
     * `KeyError` of a selection missing from the index.
     */
    method UpdateDataTable(source: Option<TableEdits.TableSource>, addColumnClicks: Option<nat>, addRowClicks: Option<nat>,
                           rows: seq<Row>, columns: seq<TableEdits.Column>, name: string, records: Option<seq<Row>>)
      returns (reply: DataReply)
      modifies this
      ensures index == old(index) && marker == old(marker) && deepUpdateNecessary == old(deepUpdateNecessary)
      ensures currentFigures == old(currentFigures) && disk == old(disk)
      ensures var r := TableEdits.UpdateData(marker, source, addColumnClicks, addRowClicks, rows, columns, name);
        && (!r.Rebuild? ==> reply == DataEdited(r) && snapshot == old(snapshot))
        && (r.Rebuild? && records.None? ==> reply == DataCrashed && snapshot == old(snapshot))
        && (r.Rebuild? && records.Some? ==> reply == DataRebuilt(records.value) && snapshot == old(snapshot).(table := records))
    {
      var r := TableEdits.UpdateData(marker, source, addColumnClicks, addRowClicks, rows, columns, name);
      if !r.Rebuild? {
        return DataEdited(r);
      }
      if records.None? {
        return DataCrashed;
      }
      snapshot := snapshot.(table := records);
      reply := DataRebuilt(records.value);
    }

    /** `check_changes` against the session's snapshot and figures. */
    function Dirty(description: string, name: string, table: seq<Row>): (changed: bool)
      reads this
      ensures changed <==> !Describes(snapshot, name, description, currentFigures, table)
    {
      CheckChanges(snapshot, currentFigures, description, name, table)
    }

    /** `data_changed_check_region`, which updates the marker. */
    method DataChangedCheckRegion(name: string, description: string, table: seq<Row>, approvals: Option<nat>)
      returns (reply: CheckReply)
      modifies this
      ensures (marker, reply) == RegionCheck(old(marker), snapshot.region, old(Dirty(description, name, table)), approvals)
      ensures index == old(index) && snapshot == old(snapshot) && deepUpdateNecessary == old(deepUpdateNecessary)
      ensures currentFigures == old(currentFigures) && disk == old(disk)
    {
      var dirty := Dirty(description, name, table);
      var (m, r) := RegionCheck(marker, snapshot.region, dirty, approvals);
      marker := m;
      reply := r;
    }

    /** `data_changed_check_datasets`, which records the input that fired in the marker. */
    method DataChangedCheckDatasets(trigger: Option<Source>, selected: Option<string>, content: Option<string>,
                                    name: string, description: string, table: seq<Row>, approvals: Option<nat>)
      returns (reply: CheckReply)
      requires trigger != Some(MainDropdown)
      modifies this
      ensures (marker, reply) == DatasetsCheck(old(marker), trigger, snapshot.file, snapshot.newFile, selected, content,
                                               old(Dirty(description, name, table)), approvals)
      ensures index == old(index) && snapshot == old(snapshot) && deepUpdateNecessary == old(deepUpdateNecessary)
      ensures currentFigures == old(currentFigures) && disk == old(disk)
    {
      var dirty := Dirty(description, name, table);
      var (m, r) := DatasetsCheck(marker, trigger, snapshot.file, snapshot.newFile, selected, content, dirty, approvals);
      marker := m;
      reply := r;
    }

    /**
     * `change_figures`: an approved dataset loads its figures into both the live dict and the
     * snapshot, an upload adds or replaces a figure, a delete removes the figure shown (raising
     * `KeyError` when it is gone) and counts a click on the close button; then the slots are laid out.
     */
    method ChangeFigures(source: Option<FigureSource>, uploadName: string, uploadSrc: string, region: string,
                         fileName: Option<string>, visible: string, closeClicks: Option<nat>)
      returns (reply: FiguresReply)
      modifies this
      ensures index == old(index) && marker == old(marker) && deepUpdateNecessary == old(deepUpdateNecessary)
      ensures disk == old(disk)
      ensures source == Some(DatasetApproved) ==>
        if region in index && fileName.Some? && fileName.value in index[region] then
          currentFigures == index[region][fileName.value].figures &&
          snapshot == old(snapshot).(figures := currentFigures) && reply.Slots? && reply.closeClicks == NoUpdate
        else reply == FiguresCrashed && currentFigures == old(currentFigures) && snapshot == old(snapshot)
      ensures source == Some(FigureUploaded) ==>
        currentFigures == SetFigure(old(currentFigures), uploadName, Figure(uploadSrc, descriptionDefault)) &&
        AsMap(currentFigures) == AsMap(old(currentFigures))[uploadName := Figure(uploadSrc, descriptionDefault)] &&
        snapshot == old(snapshot) && reply.Slots? && reply.closeClicks == NoUpdate
      ensures source == Some(FigureDeleteClicked) ==>
        snapshot == old(snapshot) &&
        if visible in Names(old(currentFigures)) then
          currentFigures == RemoveFigure(old(currentFigures), visible) &&
          AsMap(currentFigures) == AsMap(old(currentFigures)) - {visible} &&
          reply.Slots? && reply.closeClicks == Set(Some(Bump(closeClicks)))
        else reply == FiguresCrashed && currentFigures == old(currentFigures)
      ensures source.None? ==>
        currentFigures == old(currentFigures) && snapshot == old(snapshot) && reply.Slots? && reply.closeClicks == Set(closeClicks)
      ensures reply.Slots? ==>
        && |reply.titles| == |reply.srcs| == |reply.classes| == SlotCount
        && (forall k :: 0 <= k < SlotCount && k < |currentFigures| ==>
              reply.titles[k] == currentFigures[k].0 && reply.srcs[k] == currentFigures[k].1.src &&
              reply.classes[k] == "img_figure")
        && (forall k :: |currentFigures| <= k < SlotCount ==>
              reply.titles[k] == "" && reply.srcs[k] == "" && reply.classes[k] == "img_figure_hidden")
        && (reply.uploadClass == "div_upload_figure_hidden" <==> |currentFigures| >= SlotCount)
        && (reply.uploadClass == "div_upload_figure_block" <==> |currentFigures| == 2)
    {
      var close: Update<Option<nat>> := Set(closeClicks);
      if source == Some(FigureDeleteClicked) {
        close := Set(Some(Bump(closeClicks)));
      } else if source.Some? {
        close := NoUpdate;
      }
      var done := EditFigures(source, uploadName, uploadSrc, region, fileName, visible);
      if !done {
        return FiguresCrashed;
      }
      var titles, srcs, classes, nFigures, uploadClass := Layout(currentFigures);
      reply := Slots(titles, srcs, classes, uploadClass, close);
    }

    /**
     * The figure-dict half of `change_figures`: the edit the firing input calls for, applied to the
     * live dict (and, for an approved dataset, to the snapshot); `done` is false where it raises.
     */
    method EditFigures(source: Option<FigureSource>, uploadName: string, uploadSrc: string, region: string,
                       fileName: Option<string>, visible: string)
      returns (done: bool)
      modifies this
      ensures index == old(index) && marker == old(marker) && deepUpdateNecessary == old(deepUpdateNecessary)
      ensures disk == old(disk)
      ensures !done ==> currentFigures == old(currentFigures) && snapshot == old(snapshot)
      ensures source == Some(DatasetApproved) ==>
        (done <==> region in index && fileName.Some? && fileName.value in index[region]) &&
        (done ==> currentFigures == index[region][fileName.value].figures &&
                  snapshot == old(snapshot).(figures := currentFigures))
      ensures source == Some(FigureUploaded) ==>
        done && currentFigures == SetFigure(old(currentFigures), uploadName, Figure(uploadSrc, descriptionDefault)) &&
        AsMap(currentFigures) == AsMap(old(currentFigures))[uploadName := Figure(uploadSrc, descriptionDefault)] &&
        snapshot == old(snapshot)
      ensures source == Some(FigureDeleteClicked) ==>
        snapshot == old(snapshot) && (done <==> visible in Names(old(currentFigures))) &&
        (done ==> currentFigures == RemoveFigure(old(currentFigures), visible) &&
                  AsMap(currentFigures) == AsMap(old(currentFigures)) - {visible})
      ensures source.None? ==> done && currentFigures == old(currentFigures) && snapshot == old(snapshot)
    {
      var edit: FigureEdit;
      match source {
        case None => return true;
        case Some(DatasetApproved) =>
          if !(region in index && fileName.Some? && fileName.value in index[region]) {
            return false;
          }
          edit := LoadFigures(index[region][fileName.value].figures);
        case Some(FigureUploaded) =>
          edit := UploadFigure(uploadName, uploadSrc, descriptionDefault);
        case Some(FigureDeleteClicked) =>
          edit := DeleteFigure(visible);
      }
      var figs := ApplyEdit(currentFigures, edit);
      if figs.None? {
        return false;
      }
      if source == Some(FigureUploaded) {
        assert figs.value == SetFigure(currentFigures, uploadName, Figure(uploadSrc, descriptionDefault));
      } else if source == Some(FigureDeleteClicked) {
        assert figs.value == RemoveFigure(currentFigures, visible);
      }
      currentFigures := figs.value;
      if source == Some(DatasetApproved) {
        snapshot := snapshot.(figures := currentFigures);
      }
      done := true;
    }

    /**
     * An approved dataset selection fires `update_meta_info`, `change_figures` and `update_data` on
     * the same submit count. Each writes its own part of the snapshot, so in any order, here the
     * order of the layout, the title, description, figures and table shown afterwards are clean.
     */
    method ApproveDataset(region: string, file: string, records: seq<Row>, closeClicks: Option<nat>)
      returns (meta: MetaReply, figures: FiguresReply, table: DataReply)
      modifies this
      ensures old(marker) == Some(YamlListData) && region in old(index) && file in old(index)[region] ==>
        && index == old(index)
        && meta == Meta(DisplayName(file, index[region][file]), file, index[region][file].description)
        && figures.Slots? && table == DataRebuilt(records)
        && currentFigures == index[region][file].figures
        && !Dirty(meta.description, meta.name, table.rows)
    {
      meta := UpdateMetaInfo(region, Some(file));
      figures := ChangeFigures(Some(DatasetApproved), "", "", region, Some(file), "", closeClicks);
      table := UpdateDataTable(Some(TableEdits.ApprovedDataset), None, None, [], [], "", Some(records));
    }

    /** The delete branch of `write_yaml_file`: the file is removed and the snapshot no longer names a file. */
    method DeleteDataset(region: string, file: string, filterClicks: nat) returns (reply: WriteReply)
      modifies this
      ensures index == old(index) && marker == old(marker) && currentFigures == old(currentFigures)
      ensures deepUpdateNecessary == old(deepUpdateNecessary)
      ensures RemoveFile(old(disk), region, file).None? ==>
        reply == WriteCrashed && disk == old(disk) && snapshot == old(snapshot)
      ensures RemoveFile(old(disk), region, file).Some? ==>
        && reply == Written(filterClicks + 1, NoUpdate)
        && disk == RemoveFile(old(disk), region, file).value
        && snapshot == old(snapshot).(file := None, newFile := false)
    {
      var removed := RemoveFile(disk, region, file);
      if removed.None? {
        return WriteCrashed;
      }
      disk := removed.value;
      snapshot := snapshot.(file := None, newFile := false);
      reply := Written(filterClicks + 1, NoUpdate);
    }

    /**
     * The upload branch: the uploaded contents are stored under the file and the snapshot names it
     * as a new file; the reply clears the upload component. The file is opened for writing before
     * the contents are read, so missing contents raise after truncating it.
     */
    method StoreUpload(region: string, file: string, uploadContent: Option<string>, filterClicks: nat)
      returns (reply: WriteReply)
      modifies this
      ensures index == old(index) && marker == old(marker) && currentFigures == old(currentFigures)
      ensures deepUpdateNecessary == old(deepUpdateNecessary)
      ensures region !in old(disk) ==> reply == WriteCrashed && disk == old(disk) && snapshot == old(snapshot)
      ensures region in old(disk) && uploadContent.None? ==>
        reply == WriteCrashed && disk == WriteFile(old(disk), region, file, Truncated).value && snapshot == old(snapshot)
      ensures region in old(disk) && uploadContent.Some? ==>
        && reply == Written(filterClicks + 1, Set(""))
        && disk == WriteFile(old(disk), region, file, Uploaded(uploadContent.value)).value
        && snapshot == old(snapshot).(file := Some(file), newFile := true)
    {
      var truncated := WriteFile(disk, region, file, Truncated);
      if truncated.None? {
        return WriteCrashed;
      }
      if uploadContent.None? {
        disk := truncated.value;
        return WriteCrashed;
      }
      disk := WriteFile(disk, region, file, Uploaded(uploadContent.value)).value;
      snapshot := snapshot.(file := Some(file), newFile := true);
      reply := Written(filterClicks + 1, Set(""));
    }

    /** The new-file branch: an empty regime is written and the live values are committed as they are. */
    method CreateEmpty(region: string, file: string, title: string, description: string, table: seq<Row>,
                       filterClicks: nat) returns (reply: WriteReply)
      modifies this
      ensures index == old(index) && marker == old(marker) && currentFigures == old(currentFigures)
      ensures deepUpdateNecessary == old(deepUpdateNecessary)
      ensures WriteFile(old(disk), region, file, EmptyRegime).None? ==>
        reply == WriteCrashed && disk == old(disk) && snapshot == old(snapshot)
      ensures WriteFile(old(disk), region, file, EmptyRegime).Some? ==>
        && reply == Written(filterClicks + 1, NoUpdate)
        && disk == WriteFile(old(disk), region, file, EmptyRegime).value
        && snapshot == Committed(old(snapshot), file, title, description, currentFigures, table)
    {
      var written := WriteFile(disk, region, file, EmptyRegime);
      if written.None? {
        return WriteCrashed;
      }
      disk := written.value;
      snapshot := Committed(snapshot, file, title, description, currentFigures, table);
      reply := Written(filterClicks + 1, NoUpdate);
    }

    /**
     * The save and save-as branch: the regime built from the table is written, the live values are
     * committed with the table as the build left it, and a plain save (`deep`) requests a deep scan.
     */
    method SaveDataset(region: string, file: string, title: string, description: string, data: array<Row>,
                       filterClicks: nat, deep: bool, pf: FloatParser, le: LiteralParser) returns (reply: WriteReply)
      requires AllText(data[..])
      modifies this, data
      ensures index == old(index) && marker == old(marker) && currentFigures == old(currentFigures)
      ensures var built := Normalise.Normalise(old(data[..]), title, description, currentFigures, pf, le);
        built.Err? || WriteFile(old(disk), region, file, Saved(built.value)).None? ==>
          reply == WriteCrashed && disk == old(disk) && snapshot == old(snapshot) &&
          deepUpdateNecessary == old(deepUpdateNecessary)
      ensures var built := Normalise.Normalise(old(data[..]), title, description, currentFigures, pf, le);
        built.Ok? && WriteFile(old(disk), region, file, Saved(built.value)).Some? ==>
          && reply == Written(filterClicks + 1, NoUpdate)
          && disk == WriteFile(old(disk), region, file, Saved(built.value)).value
          && data[..] == RowsAfter(old(data[..]), pf, le)
          && snapshot == Committed(old(snapshot), file, title, description, currentFigures, data[..])
          && deepUpdateNecessary == (old(deepUpdateNecessary) || deep)
    {
      var built := GetRegimeFromCurrentDataset(data, title, description, currentFigures, pf, le);
      if built.Err? {
        return WriteCrashed;
      }
      var written := WriteFile(disk, region, file, Saved(built.value));
      if written.None? {
        return WriteCrashed;
      }
      disk := written.value;
      snapshot := Committed(snapshot, file, title, description, currentFigures, data[..]);
      if deep {
        deepUpdateNecessary := true;
      }
      reply := Written(filterClicks + 1, NoUpdate);
    }

    /**
     * `write_yaml_file`: the dialog that fired picks the file of the current region, and the branch
     * for that dialog acts on it (a file name that is none raises in the path join). Only the save
     * dialog requests a deep scan; the reply bumps the filter's submit count, which reloads the list.
     */
    method WriteYamlFile(source: Option<WriteSource>, clicks: Option<nat>, region: string, currentFile: Option<string>,
                         title: string, description: string, data: array<Row>, filterClicks: nat,
                         newFileName: Option<string>, saveAsName: Option<string>, uploadContent: Option<string>,
                         uploadName: Option<string>, pf: FloatParser, le: LiteralParser)
      returns (reply: WriteReply)
      requires AllText(data[..])
      modifies this, data
      ensures index == old(index) && marker == old(marker) && currentFigures == old(currentFigures)
      ensures var target := WriteTarget(source, clicks, currentFile, newFileName, saveAsName, uploadName);
        target.None? || target == Some(None) ==>
          reply == (if target.None? then WriteNoUpdate else WriteCrashed) &&
          disk == old(disk) && snapshot == old(snapshot) && deepUpdateNecessary == old(deepUpdateNecessary)
      ensures reply.Written? ==> reply.filterSubmit == filterClicks + 1
      ensures reply.Written? ==> (reply.uploadContents == Set("") <==> source == Some(UploadDialog))
      ensures reply.Written? ==> reply.uploadContents.NoUpdate? || source == Some(UploadDialog)
      ensures !reply.Written? ==> snapshot == old(snapshot)
      ensures !reply.Written? && !(source == Some(UploadDialog) && uploadContent.None?) ==> disk == old(disk)
      ensures deepUpdateNecessary == (old(deepUpdateNecessary) || (source == Some(SaveDialog) && reply.Written?))
      ensures var target := WriteTarget(source, clicks, currentFile, newFileName, saveAsName, uploadName);
        target.Some? && target.value.Some? && source == Some(DeleteDialog) ==>
          var removed := RemoveFile(old(disk), region, target.value.value);
          (reply.Written? <==> removed.Some?) &&
          (removed.Some? ==> disk == removed.value && snapshot == old(snapshot).(file := None, newFile := false))
      ensures var target := WriteTarget(source, clicks, currentFile, newFileName, saveAsName, uploadName);
        target.Some? && target.value.Some? && source == Some(UploadDialog) ==>
          (reply.Written? <==> uploadContent.Some? && region in old(disk)) &&
          (region in old(disk) && uploadContent.None? ==>
             disk == WriteFile(old(disk), region, target.value.value, Truncated).value) &&
          (reply.Written? ==>
             disk == WriteFile(old(disk), region, target.value.value, Uploaded(uploadContent.value)).value &&
             snapshot == old(snapshot).(file := Some(target.value.value), newFile := true))
      ensures var target := WriteTarget(source, clicks, currentFile, newFileName, saveAsName, uploadName);
        target.Some? && target.value.Some? && source == Some(NewFileDialog) ==>
          (reply.Written? <==> region in old(disk)) &&
          (reply.Written? ==>
             disk == WriteFile(old(disk), region, target.value.value, EmptyRegime).value &&
             snapshot == Committed(old(snapshot), target.value.value, title, description, currentFigures, old(data[..])))
      ensures var target := WriteTarget(source, clicks, currentFile, newFileName, saveAsName, uploadName);
        var built := Normalise.Normalise(old(data[..]), title, description, currentFigures, pf, le);
        target.Some? && target.value.Some? && source.value in {SaveDialog, SaveAsDialog} ==>
          (reply.Written? <==> built.Ok? && region in old(disk)) &&
          (reply.Written? ==>
             disk == WriteFile(old(disk), region, target.value.value, Saved(built.value)).value &&
             data[..] == RowsAfter(old(data[..]), pf, le) &&
             snapshot == Committed(old(snapshot), target.value.value, title, description, currentFigures, data[..]))
      ensures !(source == Some(SaveDialog) || source == Some(SaveAsDialog)) ==> data[..] == old(data[..])
    {
      var target := WriteTarget(source, clicks, currentFile, newFileName, saveAsName, uploadName);
      if target.None? {
        return WriteNoUpdate;
      }
      if target.value.None? {
        return WriteCrashed;
      }
      var file := target.value.value;
      match source.value
      case DeleteDialog =>
        reply := DeleteDataset(region, file, filterClicks);
      case UploadDialog =>
        reply := StoreUpload(region, file, uploadContent, filterClicks);
      case NewFileDialog =>
        reply := CreateEmpty(region, file, title, description, data[..], filterClicks);
      case SaveDialog =>
        reply := SaveDataset(region, file, title, description, data, filterClicks, true, pf, le);
      case SaveAsDialog =>
        reply := SaveDataset(region, file, title, description, data, filterClicks, false, pf, le);
    }
  }
}
