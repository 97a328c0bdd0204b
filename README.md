# Session core of the sim_data_hub editor, in Dafny

The editor is a Dash web application (`gui/gui.py`). Under its callbacks sits a small sequential
session. It keeps an index of the regime (dataset) files of each region directory. It also keeps
the `saved_data_state` snapshot of what was last loaded or saved, the `check_fired_by` marker that
drives the "data has changed" dialogs, the `deep_update_necessary` flag, and the figures of the
dataset being edited. This project models that session and proves properties of it:

- `wrappers.dfy`: `Option`, `Result`, `Update` (a value or Dash's `no_update`), Python truthiness
  of a click count, and the `n + 1 if n is not None else 1` counter step.
- `text.dfy`: the string operations the source uses: the last `.`-separated segment, `endswith`,
  case-insensitive substring search (ASCII lower-casing), and the lexicographic order of `sorted`.
- `regime.dfy`: index entries and figure dicts. A figure dict is an ordered association list,
  because insertion order decides the slot a figure is shown in. It is compared as a map, as
  Python's dict equality does.
- `filestore.dfy`: `load_available_yaml_files`. The reconciliation is a function over a directory
  listing, proved by lemmas. The imperative loop is proved against it.
- `dirty.dfy`: the snapshot and `check_changes`.
- `normalise.dfy`: `get_regime_from_current_dataset`. A reference function is paired with the
  in-place loop over an `array` of rows. The loop pops the `property` cell and converts cells, as
  the source does.
- `confirm.dfy`: the two confirmation checks, as transition functions over the marker, the
  snapshot, the dirty answer and the approval counter.
- `dialogs.dfy`: the file-name normalisation and the messages of the save, save-as, delete,
  new-file and upload dialogs.
- `datasetlist.dfy`: the lists built by `update_yaml_list` (display names, sorting, filtering, map
  items disabled without a location) and its map and data selections.
- `figures.dfy`: the four figure slots and the figure edits of `change_figures`.
- `table.dfy`: the add-column and add-row edits of `update_data`.
- `nexd.dfy`: the option-disabling rule of `download_nexd` and the name of the exported file.
- `session.dfy`: the class `GuiSession`, which holds the index, the snapshot, the marker, the deep
  flag, the current figures and the YAML directory. Its methods are the state-changing callbacks;
  each is tied to the functions above.

The directory walk, the file parser (`Regime.load_props`), `float()` and `ast.literal_eval` are
parameters. The parsers return `None` where the Python raises. An exception that escapes a
callback is modelled as a `Crashed`-style reply. The state changes made before the raise are kept,
and the ones after it do not happen.

In a few places the code does something other than what a reader of it might expect. The model
follows the code:

- A file whose parse raises is not skipped (gui.py:107-114 has no `try`). The exception leaves
  `load_available_yaml_files`. By then the `deep_update_necessary` flag is already cleared
  (gui.py:81-83). The region dicts the caller's index shares with the scan's shallow copy
  (gui.py:86) also keep every deletion and reload made before the raise. The assignment to
  `regimes` (gui.py:186, 601) does not happen, so the application does not start, or the list
  callback fails with the index partly updated. `FileStore.Scan`, `FileStore.Visible` and
  `Session.GuiSession.Rescan` state this.
- An empty `location` value is not turned into `None`: `ast.literal_eval('')` raises
  (gui.py:151-153). `Normalise.EmptyLocationFails` states it.
- The save dialogs keep a name whose last `.`-segment is `yaml`, and that includes the bare name
  `yaml`. An upload, by contrast, demands the suffix `.yaml` (gui.py:1486-1487, 1526-1527, 1554).
  `Dialogs.BareYamlName` and `Dialogs.SegmentRuleKeepsOnlySuffixOrBare` state where the two rules
  part.
- After a save the snapshot records the table as normalisation left it: the `property` cells are
  popped and the cells converted (gui.py:135, 1638, 1648). Against the table the browser still
  shows, the data therefore looks changed until the reload the reply triggers
  (`Session.SavedTableLooksChanged`).

## Model

| member | source | states |
|---|---|---|
| Wrappers.Bump | gui/gui.py:676 | the approval counter after a clean check is 1 when it was `None` and one more than its value otherwise |
| Text.LastSegment | gui/gui.py:1486 | the result is the suffix of the name after its last `.`, holds no `.`, and is the whole name when there is no `.` |
| Text.ContainsIgnoringCase | gui/gui.py:619 | a needle found ignoring case is no longer than the text, and a needle whose lower-cased form is a prefix of the lower-cased text is found |
| Text.LessEq | gui/gui.py:616 | the order of `sorted` on strings extends the prefix order and puts a smaller first character first |
| Text.LessEqTotal | gui/gui.py:616 | the order used by `sorted` on strings is total |
| Text.LessEqTransitive | gui/gui.py:616 | that order is transitive |
| Text.LessEqAntisymmetric | gui/gui.py:616 | that order is antisymmetric, so a sorted list of distinct names is unique |
| Regimes.AsMap | gui/gui.py:121 | the dict as Python's `==` sees it: its keys are exactly the figure names |
| Regimes.SetFigureSpec | gui/gui.py:969-970 | `figs[name] = f` updates the map, keeps every slot when the name is present, appends it otherwise, and keeps keys unique |
| Regimes.ReplaceNames | gui/gui.py:969-970 | replacing a figure in place keeps the order of the names |
| Regimes.ReplaceAsMap | gui/gui.py:969-970 | replacing a present figure updates the map at that key only |
| Regimes.ReplaceAbsent | gui/gui.py:969-970 | replacing an absent name changes nothing |
| Regimes.AsMapSnoc | gui/gui.py:969-970 | appending a figure updates the map at its key |
| Regimes.RemoveFigureAsMap | gui/gui.py:974 | `del figs[name]` removes exactly that key from the map |
| Regimes.Without | gui/gui.py:974 | a name survives the filtering iff it was there and is not the deleted one |
| Regimes.RemoveFigureNames | gui/gui.py:974 | after a delete the names are the old names with the deleted one filtered out, in their old order |
| Regimes.RemoveFigureUnique | gui/gui.py:974 | deleting keeps keys unique |
| FileStore.Refresh | gui/gui.py:105-114 | the refreshed region holds exactly the listed files; a file keeps its entry iff the pass is not deep and it was indexed, and is parsed otherwise |
| FileStore.Step | gui/gui.py:91-114 | a hidden directory leaves the index unchanged; any other adds its region and changes no other region |
| FileStore.Reconcile | gui/gui.py:88-114 | a pass over a listing never drops a region |
| FileStore.ReconcileAt | gui/gui.py:86-114 | an unwalked or hidden region keeps its entries; a walked region holds exactly the files of its last listing; a file keeps its old entry iff the pass is not deep and no earlier visit dropped it, and is parsed otherwise |
| FileStore.ReconcileIdempotent | gui/gui.py:70-115 | a non-deep pass over an unchanged listing after any pass gives the same index |
| FileStore.RemovesExactlyUnlisted | gui/gui.py:99-103 | a non-deep pass over one region deletes exactly the indexed files no longer listed and leaves every other region unchanged |
| FileStore.StepChecked | gui/gui.py:91-114 | one directory of the walk with a parser that may raise; the regions indexed before are still indexed, whether the step completes or raises |
| FileStore.Scan | gui/gui.py:88-114 | the walk stops at the first raising parse; the regions indexed before stay indexed |
| FileStore.Visible | gui/gui.py:86-112 | after a raise the caller's index keeps its own regions, each with the contents the shared region dict had when the exception left |
| FileStore.LoadCheckedOk | gui/gui.py:105-114 | loading a region's files completes iff every file it parses parses, and then adds exactly the parsed entries of the files that need parsing |
| FileStore.ScanCompletes | gui/gui.py:88-114 | a walk whose every file parses completes |
| FileStore.DeepScanNeedsParses | gui/gui.py:70-115 | a deep walk completes only if every listed file parses |
| FileStore.ScanReconciles | gui/gui.py:88-114 | a completed walk gives the reconciliation with the parsed entries |
| FileStore.ScanKeepsUnwalked | gui/gui.py:86-114 | a region the walk does not reach keeps its entries in the result and in the caller's index, even after a raise |
| FileStore.LoadAvailableYamlFiles | gui/gui.py:70-115 | the loop computes the walk, deep when asked or when the flag is set, stops at the first raise, and clears the flag even then |
| FileStore.ScanDirectory | gui/gui.py:91-114 | one turn of the walk: skip a hidden folder, add the region, delete the unlisted files and load the files that need it |
| FileStore.RemoveUnlisted | gui/gui.py:99-103 | the entries kept are those whose file is listed |
| FileStore.LoadNew | gui/gui.py:105-114 | every listed file not yet indexed (every listed file on a deep pass) gets the parsed entry, the others keep theirs; a raising parse stops the loop with the entries loaded so far |
| DirtyState.CheckChanges | gui/gui.py:118-125 | data is changed iff the name, the description, the figures (as dicts) or the table differ from the snapshot |
| DirtyState.FigureOrderIgnored | gui/gui.py:121 | reordering the figure dict never changes the answer |
| DirtyState.InitialIsDirty | gui/gui.py:166-167 | before anything is loaded, any live data counts as changed |
| Normalise.ConvertCell | gui/gui.py:137-149 | `'nan'` becomes `None`; a scalar `value`/`dev_value` goes through `float` unless it is `''`, `None` or `'None'`; an array or tabulated one goes through `literal_eval`; other cells are kept; the cell conversion fails exactly when a parser raises |
| Normalise.ConvertRow | gui/gui.py:137-149 | a converted row has the same cells; a failure is a missing `type` cell or a raising parser; a non-numeric cell only loses a `'nan'` |
| Normalise.ConvertAll | gui/gui.py:134-149 | every row yields one pair; a missing `property` cell names a row that lacks it |
| Normalise.Collect | gui/gui.py:136 | the collected properties are exactly those some row names |
| Normalise.LocationLiteral | gui/gui.py:151-153 | the location converts iff it has a text `value` that `literal_eval` accepts, and then to that literal; otherwise the error says which part failed |
| Normalise.Normalise | gui/gui.py:128-155 | name, description and figures are passed through; a row's exception is the regime's; a built regime has exactly the collected properties |
| Normalise.RowsAfter | gui/gui.py:134-153 | the caller keeps one row per row |
| Normalise.ConvertAllLength | gui/gui.py:134-149 | each row has a `property` cell and yields one pair of that property and its converted cells |
| Normalise.RowsAfterDropProperty | gui/gui.py:135 | afterwards every row has lost exactly its `property` cell |
| Normalise.ConvertAllPrefixError | gui/gui.py:134-149 | the first failing row decides the exception |
| Normalise.CollectAt | gui/gui.py:136 | `formated_data[prop]` holds the row that names `prop` last |
| Normalise.NormaliseProps | gui/gui.py:128-155 | the property map holds exactly the named properties; each is the converted last row naming it, with the location value literal-parsed; name, description and figures are passed through |
| Normalise.EmptyLocationFails | gui/gui.py:151-153 | an empty location value raises instead of becoming `None` |
| Normalise.ConvertEntries | gui/gui.py:137-149 | the inner loop converts a row's cells as `ConvertRow` says |
| Normalise.ConvertStep | gui/gui.py:134-136 | one turn of the outer loop extends the converted prefix by the popped row |
| Normalise.ConvertRowsInPlace | gui/gui.py:134-149 | the loop yields `formated_data` or the first row's exception, and leaves the rows converted in place |
| Normalise.GetRegimeFromCurrentDataset | gui/gui.py:128-155 | the method returns the regime or the exception `Normalise` states, and leaves the caller's rows as the source does |
| Confirm.RegionCheck | gui/gui.py:660-676 | the check is suppressed iff the marker says the region dropdown fired last; the marker is cleared exactly when the check is suppressed, and set otherwise; this check never raises |
| Confirm.RegionCheckAlternates | gui/gui.py:660-667 | an honoured region check sets the marker so that the next firing is suppressed and clears it, and the firing after that is honoured again |
| Confirm.RegionCheckGuards | gui/gui.py:669-676 | the dialog is shown iff the check is honoured, a region is loaded and the data is dirty; the counter moves only for clean data or an initial call, and then to `Bump` of its value |
| Confirm.DatasetsCheck | gui/gui.py:688-715 | the marker becomes the input that fired, or stays without one; the check is never suppressed, and raises only on a `None` counter |
| Confirm.DatasetsCheckGuards | gui/gui.py:688-715 | the counter moves only for clean data, an unloaded session, or re-selecting a new file; the dialog is shown exactly for dirty data outside those cases and the empty upload; a `None` counter on the last branch raises |
| Confirm.ReselectIsQuiet | gui/gui.py:701-705 | re-selecting the loaded, saved file changes nothing |
| Dialogs.RegionFiles | gui/gui.py:1489 | the files indexed in the region, or none when the lookup raises |
| Dialogs.WithYamlExtension | gui/gui.py:1486-1487 | the name gets `.yaml` appended iff its last segment is not `yaml`, and the result's last segment is `yaml` |
| Dialogs.WithYamlExtensionIdempotent | gui/gui.py:1486-1487 | normalising twice is normalising once |
| Dialogs.YamlSuffixSegment | gui/gui.py:1486-1487 | a name ending in `.yaml` has the last segment `yaml` |
| Dialogs.SuffixKeptBySegmentRule | gui/gui.py:1486-1487 | a name that already ends in `.yaml` is kept |
| Dialogs.SegmentRuleKeepsOnlySuffixOrBare | gui/gui.py:1486-1487 | a kept name ends in `.yaml` or is the bare `yaml` |
| Dialogs.BareYamlName | gui/gui.py:1526-1527 | the bare name `yaml` is kept although it lacks the `.yaml` suffix the upload demands |
| Dialogs.MessagesNameTheFile | gui/gui.py:1472-1572 | equal messages of one kind name the same file |
| Dialogs.ReplaceIsNotCreate | gui/gui.py:1490-1495 | a replace message never equals a create message |
| Dialogs.SaveYamlFile | gui/gui.py:1469-1475 | a truthy click asks to replace exactly the selected file, and nothing else is asked |
| Dialogs.DeleteYamlFile | gui/gui.py:1505-1511 | a truthy click asks to delete exactly the selected file |
| Dialogs.SaveYamlFileAs | gui/gui.py:1484-1498 | the name is normalised and written back; the message is the replace variant iff the normalised name is indexed in the region, the create variant otherwise; a missing region raises |
| Dialogs.NewYamlFile | gui/gui.py:1521-1533 | acts only after the add-file check; the same replace/create rule with the empty-file messages |
| Dialogs.UploadFile | gui/gui.py:1545-1572 | after the upload check, a `.yaml` file is offered iff it parses and its region is indexed, with "replace" iff the file is indexed there; it crashes iff the YAML raises an error other than `ParserError` or the region is missing; a name without `.yaml` or a `ParserError` is rejected with its message |
| Dialogs.UploadMessageMentionsReplace | gui/gui.py:1557-1562 | the upload message differs between an existing and a new file |
| DatasetList.DisplayName | gui/gui.py:609-612 | a regime named other than the default is shown under its name, and one with the default name under its filename |
| DatasetList.DisplayNames | gui/gui.py:605-613 | every file of the region gets its regime name, or its filename when the name is the default |
| DatasetList.InsertByName | gui/gui.py:616 | inserting keeps the order sorted by display name and the files distinct |
| DatasetList.SortByName | gui/gui.py:616 | every file once, sorted by display name |
| DatasetList.Listed | gui/gui.py:616-621 | the listing has no more items than the order it filters |
| DatasetList.ListedItems | gui/gui.py:618-621 | each item is labelled with the display name, valued with the filename, disabled iff the regime has no `location`, and matches the filter |
| DatasetList.ListedComplete | gui/gui.py:619-621 | every file whose display name matches the filter is listed |
| DatasetList.ListedDistinct | gui/gui.py:616-621 | no file is listed twice |
| DatasetList.ListedSorted | gui/gui.py:616 | items appear in display-name order |
| DatasetList.ListItems | gui/gui.py:616-621 | the loop builds that listing and a data item with an empty label per map item |
| DatasetList.BuildItems | gui/gui.py:603-621 | a file is listed iff its display name contains the filter, ignoring case; items are distinct, sorted and labelled as above |
| DatasetList.EmptyFilterKeepsAll | gui/gui.py:619 | the empty filter keeps every file |
| DatasetList.MapSelection | gui/gui.py:624-627 | the previous map selection intersected with the current files, or nothing without one |
| DatasetList.SmallestName | gui/gui.py:629-630 | `sorted(names)[0]`: the least filename, or none for an empty region |
| DatasetList.SelectData | gui/gui.py:629-636 | the least filename after a region change; else the snapshot's file; else the still-listed previous selection; else the least filename; none (an `IndexError`) only for an empty region |
| FigureSlots.UploadClass | gui/gui.py:990-996 | the upload area is a block iff two figures are shown, hidden iff four, and inline otherwise |
| FigureSlots.Layout | gui/gui.py:976-996 | the first four figures fill the slots and the rest stay empty and hidden; `n_figures` is 1 for no figure; the upload area is hidden iff four or more figures and a block iff exactly two |
| FigureSlots.ApplyEdit | gui/gui.py:964-974 | loading replaces the dict; an upload sets the figure under its name; a delete removes the name, and raises iff it is absent |
| FigureSlots.EditsKeepKeysUnique | gui/gui.py:968-974 | uploads and deletes keep the dict's keys unique |
| FigureSlots.UploadKeepsSlots | gui/gui.py:968-970 | re-uploading a shown name keeps every slot |
| FigureSlots.UploadAppends | gui/gui.py:968-970 | a new upload takes the next free slot |
| TableEdits.AddColumn | gui/gui.py:1154-1162 | the name is a column afterwards; a present name leaves the columns unchanged; else one editable column is appended, a dropdown iff the name is in `dropdown_in_table` |
| TableEdits.AddColumnIdempotent | gui/gui.py:1157 | adding a column twice is adding it once |
| TableEdits.EmptyRow | gui/gui.py:1167 | the new row has an empty text cell under every column id and nothing else |
| TableEdits.UpdateData | gui/gui.py:1145-1169 | prevented iff the marker is not the dataset list; a truthy add-column click adds the column; a truthy add-row click keeps the rows and appends one empty row; anything else rebuilds |
| NexdExport.HandlingAsWritten | gui/gui.py:910-918 | as written, a `ValueError` from the encoder escapes the callback, and so does any exception class no `except` names (an `ImportError` from the import at gui.py:907, a `KeyError` or `TypeError` from the encoder); a `ModuleNotFoundError` or `AttributeError` is handled |
| NexdExport.Handle | gui/gui.py:910-918 | corrected: a `ValueError` is handled like an `AttributeError`; only an exception class no `except` names escapes; every other result is handled as written |
| NexdExport.AsWrittenLetsValueErrorEscape | gui/gui.py:914 | the written handler lets a `ValueError` escape with any message, while the corrected one disables the failing type |
| NexdExport.FailingDisabled | gui/gui.py:915-917 | an option is disabled afterwards iff it was disabled or it is the failing type, or `poro2f` after a `poro1f` failure; captions and values are kept |
| NexdExport.FailingTypeDisabled | gui/gui.py:915-917 | after a failure, the failing type and, for `poro1f`, `poro2f` can no longer be chosen |
| NexdExport.FailureOnlyDisables | gui/gui.py:915-917 | a failure never re-enables an option and leaves unrelated options unchanged |
| NexdExport.ClosingEnablesAll | gui/gui.py:926-927 | closing the modal makes every type selectable |
| NexdExport.Stem | gui/gui.py:902 | the name before its last `.`, or the empty string without a `.` |
| NexdExport.MatpropOfNormalisedName | gui/gui.py:902 | a dot-free name other than `yaml`, once normalised by a save dialog, exports as `matprop_` and that name |
| NexdExport.BareYamlExportName | gui/gui.py:902 | the bare name `yaml` exports as `matprop_` with nothing after it |
| NexdExport.SetAllDisabled | gui/gui.py:911-912 | the loop sets every option's flag in place |
| NexdExport.DisableFailingOptions | gui/gui.py:915-917 | the loop disables, in place, exactly the options the failure rules out |
| NexdExport.DownloadNexd | gui/gui.py:900-928 | a `None` file name raises; a closed modal enables every option; an open modal answers what the given handler makes of the export result: an escaping error crashes and leaves the options, and only success carries the download action |
| Session.WriteFile | gui/gui.py:1630-1641 | the write succeeds iff the region directory exists, and changes only that file |
| Session.RemoveFile | gui/gui.py:1626 | the removal succeeds iff the file exists, and removes only that file |
| Session.Committed | gui/gui.py:1644-1649 | the committed snapshot names the file as new and describes exactly the four live values |
| Session.CommitIsClean | gui/gui.py:1644-1649 | right after a commit the written values are clean and any other value is dirty |
| Session.SavedTableLooksChanged | gui/gui.py:1637-1648 | after a save the snapshot's table differs from the table the browser shows |
| Session.WriteTarget | gui/gui.py:1608-1620 | no write without a fired dialog with a truthy click; otherwise the file the fired dialog names |
| Session.GuiSession.constructor | gui/gui.py:165-186 | a session over a given index in the initial state: the initial snapshot, the marker on the dataset list, no deep request, no figures |
| Session.GuiSession.Start | gui/gui.py:165-186 | the application starts iff the startup deep walk over an empty index does not raise, and then over that walk's index |
| Session.GuiSession.Rescan | gui/gui.py:599-601 | the index is walked, deep if a save asked for it, and the request is cleared; a raise leaves the caller's index as `Visible` says |
| Session.GuiSession.UpdateYamlList | gui/gui.py:586-641 | a cancelled dataset dialog restores the saved file; otherwise the region's list is built as `BuildItems` states, the selections are chosen with the least filename in both fallbacks, and the snapshot moves to the region with no file; a raising walk, a missing region, or an empty one with no fallback raises |
| Session.GuiSession.ResetSelectedRegion | gui/gui.py:647-648 | the dropdown goes back to the snapshot's region |
| Session.GuiSession.Dirty | gui/gui.py:118-125 | the dirty check of the session's snapshot and figures |
| Session.GuiSession.UpdateMetaInfo | gui/gui.py:755-793 | prevented iff the dataset list did not fire last; shows the selected regime's display name and description and records them, with the file, as loaded and not new |
| Session.GuiSession.UpdateDataTable | gui/gui.py:1143-1202 | the table edits as `UpdateData` says; a rebuild answers the rebuilt rows and records them in the snapshot, and crashes without them |
| Session.GuiSession.DataChangedCheckRegion | gui/gui.py:660-676 | the new marker and the reply are those of `RegionCheck` on the session's dirty answer; nothing else changes |
| Session.GuiSession.DataChangedCheckDatasets | gui/gui.py:688-715 | the new marker and the reply are those of `DatasetsCheck` on the snapshot's file and the dirty answer |
| Session.GuiSession.ChangeFigures | gui/gui.py:953-996 | an approved dataset loads its figures into the dict and the snapshot; an upload makes the dict `SetFigure` of the old one; a delete makes it `RemoveFigure` of the old one and counts a close click, or raises; the slots are laid out as `Layout` states |
| Session.GuiSession.EditFigures | gui/gui.py:959-974 | the figure dict after the firing input: an approved dataset's figures (also into the snapshot), `SetFigure` for an upload, `RemoveFigure` for a delete of a present name; a missing dataset or figure raises and changes nothing |
| Session.GuiSession.ApproveDataset | gui/gui.py:755-793 | approving a dataset runs `update_meta_info` (gui.py:755-793), `change_figures` (gui.py:964-967) and `update_data` (gui.py:1172-1202); it shows the dataset's name, description, figures and rows, and leaves the session clean with respect to them |
| Session.GuiSession.DeleteDataset | gui/gui.py:1625-1628 | the file is removed and the snapshot names no file and no new file; a missing file raises |
| Session.GuiSession.StoreUpload | gui/gui.py:1629-1635 | the uploaded contents are stored and the snapshot names the file as new, and the reply clears the upload; missing contents raise after the file was truncated |
| Session.GuiSession.CreateEmpty | gui/gui.py:1636-1649 | an empty regime is written and the live values committed |
| Session.GuiSession.SaveDataset | gui/gui.py:1636-1651 | the regime built from the table is written, the values are committed with the table as the build left it, and a plain save requests a deep scan |
| Session.GuiSession.WriteYamlFile | gui/gui.py:1594-1655 | the fired dialog selects the file and the branch; an unrecognised source changes nothing; only the save dialog sets the deep flag; the reply bumps the filter's submit count |

## Left out

- The Dash layout, the Flask route, module discovery, the map and plot callbacks, the export modal
  toggles and the plain YAML and ICEX downloads: these are presentation and plumbing.
- File I/O is left out: `os.walk` and the file parser are parameters, and the YAML directory is a
  map of contents. Base64 decoding of uploads and the temporary download files are not modelled.
  The listing handed to a scan is not tied to that map.
- `float`, `ast.literal_eval` and YAML parsing are opaque parsers that may fail. Floating-point
  values are an opaque type.
- The internals of the `Regime` class are not part of this model. `load_props` is a parameter;
  `NAME_DEFAULT` is taken as "Default", as the comment at gui/gui.py:609-610 says;
  `DESCRIPTION_DEFAULT` is a constant of the session.
- The pandas table records that the table reload builds, its columns and tooltips: the rebuilt rows
  are a parameter of `Session.GuiSession.UpdateDataTable`.
- Session.GuiSession.SaveDataset: `save_regime` is not shown, so a missing region directory is
  assumed to raise, as `open` does for the upload.
- NexdExport.DownloadNexd: the encoder and writer are foreign. Their outcome is a parameter, and so
  is whether building the regime before the `try` succeeded. The download action is the file name
  relative to the client path, and removing the old download is I/O.
- DatasetList.SortByName: the order of files with equal display names is not fixed. Python's
  stable sort keeps them in dict order.
- DatasetList.BuildItems: the filter folds only ASCII letters, not the full Unicode case mapping of
  Python's `str.lower()`, so a non-ASCII letter in another case ("grön" against "GRÖNLAND") does not
  match in the model.
- Text.ContainsIgnoringCase: the same ASCII-only lower-casing, for the same reason.
- FileStore.LoadAvailableYamlFiles: `props.applymap(str)` and the `os.walk` itself are taken not to
  raise; only a raising `load_props` is modelled.
- Dash itself is not modelled: its callback ordering and concurrency, and the browser's copy of the
  state. Each callback is a method called with the values it reads. An exception keeps the
  changes made before it and makes none after it: a raising walk leaves the partly updated index and
  the cleared deep flag, and a failed upload leaves the truncated file.

## Findings

| source | as written | input that shows it | evidently intended | confidence | as-written member | corrected member |
|---|---|---|---|---|---|---|
| gui/gui.py:914 | `except AttributeError or ValueError` evaluates the `or` and catches only `AttributeError` | the NEXD encoder raises `ValueError("...")` for the chosen material type | both exception classes disable the failing type and report the message; `DownloadNexd` given `HandlingAsWritten` crashes on that input | not executed | NexdExport.HandlingAsWritten | NexdExport.Handle |
