/**
 * The confirmation workflow: the callbacks that decide whether switching region or dataset needs the
 * "data has changed" dialog, driven by the marker `check_fired_by`.
 */
module Confirm {
  import opened Wrappers

  /** The inputs whose firing `check_fired_by` records. */
  datatype Source = MainDropdown | YamlListData | BtnAddFile | UploadFile

  /**
   * What a check callback answers: `PreventUpdate`, an exception, or its two outputs (is the dialog
   * displayed, the new approval counter `submit_n_clicks`).
   */
  datatype CheckReply = Prevented | Crashed | Reply(displayed: bool, approvals: Update<nat>)

  /**
   * `data_changed_check_region`, as the new marker and the reply. `savedRegion` is the snapshot's
   * region, `dirty` what `check_changes` answers, `approvals` the counter the dialog holds.
   */
  function RegionCheck(marker: Option<Source>, savedRegion: Option<string>, dirty: bool, approvals: Option<nat>)
    : (r: (Option<Source>, CheckReply))
    ensures r.1.Prevented? <==> marker == Some(MainDropdown)
    ensures r.0.None? <==> r.1.Prevented?
    ensures !r.1.Crashed?
  {
    if marker == Some(MainDropdown) then (None, Prevented)
    else
      (Some(MainDropdown),
       if savedRegion.None? then Reply(false, Set(1))
       else if dirty then Reply(true, NoUpdate)
       else Reply(false, Set(Bump(approvals))))
  }

  /**
   * Re-entrancy: the firing that follows an honoured one (the dropdown being reset by the cancelled
   * dialog) is suppressed and clears the marker, and the firing after that is honoured again.
   */
  lemma {:induction false} RegionCheckAlternates(marker: Option<Source>, savedRegion: Option<string>,
                                                 dirty: bool, approvals: Option<nat>)
    ensures var (m1, r1) := RegionCheck(marker, savedRegion, dirty, approvals);
      var (m2, r2) := RegionCheck(m1, savedRegion, dirty, approvals);
      var (m3, r3) := RegionCheck(m2, savedRegion, dirty, approvals);
      (r1.Prevented? <==> marker == Some(MainDropdown)) &&
      (!r1.Prevented? ==> r2 == Prevented && m2 == None && !r3.Prevented? && m3 == Some(MainDropdown))
  {
  }

  /**
   * A region switch goes ahead without the dialog (the approval counter moves) only when the data is
   * clean or nothing is loaded yet; the dialog is shown only for dirty data.
   */
  lemma RegionCheckGuards(marker: Option<Source>, savedRegion: Option<string>, dirty: bool, approvals: Option<nat>)
    ensures var (_, r) := RegionCheck(marker, savedRegion, dirty, approvals);
      && (r.Reply? && r.approvals.Set? ==> !dirty || savedRegion.None?)
      && (r.Reply? && r.displayed <==> marker != Some(MainDropdown) && savedRegion.Some? && dirty)
      && (r.Reply? && r.approvals.Set? && savedRegion.Some? ==>
            r.approvals.value == Bump(approvals))
  {
  }

  /**
   * `data_changed_check_datasets`, as the new marker and the reply. `trigger` is the input that
   * fired (none on the initial call), `savedFile` and `newFile` come from the snapshot.
   */
  function DatasetsCheck(marker: Option<Source>, trigger: Option<Source>, savedFile: Option<string>, newFile: bool,
                         selected: Option<string>, content: Option<string>, dirty: bool, approvals: Option<nat>)
    : (r: (Option<Source>, CheckReply))
    requires trigger != Some(MainDropdown)
    ensures r.0 == (if trigger.Some? then trigger else marker)
    ensures !r.1.Prevented?
    ensures r.1.Crashed? ==> approvals.None?
  {
    var m := if trigger.Some? then trigger else marker;
    if m == Some(YamlListData) && savedFile.None? then (m, Reply(false, Set(1)))
    else if m == Some(YamlListData) && savedFile == selected then
      (m, if newFile then Reply(false, Set(Bump(approvals))) else Reply(false, NoUpdate))
    else if m == Some(UploadFile) && content == Some("") then (m, Reply(false, NoUpdate))
    else if dirty then (m, Reply(true, NoUpdate))
    else if approvals.None? then (m, Crashed)
    else (m, Reply(false, Set(approvals.value + 1)))
  }

  /**
   * The dataset check never lets a dirty edit be replaced silently: the approval counter moves only
   * when the data is clean, when no dataset is loaded, or when the selection is the file just
   * written; the dialog is shown exactly for a dirty edit outside those cases.
   */
  lemma DatasetsCheckGuards(marker: Option<Source>, trigger: Option<Source>, savedFile: Option<string>, newFile: bool,
                            selected: Option<string>, content: Option<string>, dirty: bool, approvals: Option<nat>)
    requires trigger != Some(MainDropdown)
    ensures var (m, r) := DatasetsCheck(marker, trigger, savedFile, newFile, selected, content, dirty, approvals);
      var listed := m == Some(YamlListData);
      && m == (if trigger.Some? then trigger else marker)
      && (r.Reply? && r.approvals.Set? ==>
            !dirty || (listed && (savedFile.None? || (savedFile == selected && newFile))))
      && (r.Reply? && r.displayed <==>
            dirty && !(listed && (savedFile.None? || savedFile == selected)) &&
            !(m == Some(UploadFile) && content == Some("")))
      && (r.Crashed? <==>
            !dirty && approvals.None? && !(listed && (savedFile.None? || savedFile == selected)) &&
            !(m == Some(UploadFile) && content == Some("")))
  {
  }

  /** Re-selecting the loaded, already saved file (the radio item resetting itself) changes nothing. */
  lemma ReselectIsQuiet(marker: Option<Source>, file: string, content: Option<string>, dirty: bool, approvals: Option<nat>)
    ensures DatasetsCheck(marker, Some(YamlListData), Some(file), false, Some(file), content, dirty, approvals)
      == (Some(YamlListData), Reply(false, NoUpdate))
  {
  }
}
