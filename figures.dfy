/** The four figure slots of the editor and the figure edits behind them (`change_figures`). */
module FigureSlots {
  import opened Wrappers
  import opened Regimes

  /** The editor shows at most this many figures. */
  const SlotCount: nat := 4

  /** The class of the upload area: a block beside two figures, hidden when all slots are full, inline else. */
  function UploadClass(nFigures: nat): (r: string)
    ensures r in {"div_upload_figure_block", "div_upload_figure_hidden", "div_upload_figure_inline"}
    ensures r == "div_upload_figure_block" <==> nFigures == 2
    ensures r == "div_upload_figure_hidden" <==> nFigures == 4
  {
    if nFigures == 2 then "div_upload_figure_block"
    else if nFigures == 4 then "div_upload_figure_hidden"
    else "div_upload_figure_inline"
  }

  /**
   * The slot-filling loop: the first four figures, in dict order, fill the slots; the rest stay
   * empty and hidden. The counter starts at 0 and keeps the last index reached, so no figure at
   * all still counts as one.
   */
  method Layout(figs: Figures) returns (titles: seq<string>, srcs: seq<string>, classes: seq<string>,
                                        nFigures: nat, uploadClass: string)
    ensures |titles| == |srcs| == |classes| == SlotCount
    ensures forall k :: 0 <= k < SlotCount && k < |figs| ==>
      titles[k] == figs[k].0 && srcs[k] == figs[k].1.src && classes[k] == "img_figure"
    ensures forall k :: |figs| <= k < SlotCount ==>
      titles[k] == "" && srcs[k] == "" && classes[k] == "img_figure_hidden"
    ensures nFigures == if |figs| == 0 then 1 else if |figs| < SlotCount then |figs| else SlotCount
    ensures uploadClass == UploadClass(nFigures)
    ensures uploadClass == "div_upload_figure_hidden" <==> |figs| >= SlotCount
    ensures uploadClass == "div_upload_figure_block" <==> |figs| == 2
  {
    titles := ["", "", "", ""];
    srcs := ["", "", "", ""];
    classes := ["img_figure_hidden", "img_figure_hidden", "img_figure_hidden", "img_figure_hidden"];
    var i := 0;
    var k := 0;
    while k < |figs|
      invariant 0 <= k <= 3 && k <= |figs|
      invariant i == if k == 0 then 0 else k - 1
      invariant |titles| == |srcs| == |classes| == SlotCount
      invariant forall m :: 0 <= m < k ==>
        titles[m] == figs[m].0 && srcs[m] == figs[m].1.src && classes[m] == "img_figure"
      invariant forall m :: k <= m < SlotCount ==>
        titles[m] == "" && srcs[m] == "" && classes[m] == "img_figure_hidden"
      decreases |figs| - k
    {
      i := k;
      titles := titles[i := figs[i].0];
      srcs := srcs[i := figs[i].1.src];
      classes := classes[i := "img_figure"];
      k := k + 1;
      if i == 3 {
        break;
      }
    }
    nFigures := i + 1;
    uploadClass := UploadClass(nFigures);
  }

  /**
   * What `change_figures` does to the figure dict before laying it out. An upload is captioned with
   * the `Regime` class's default description, which the caller supplies.
   */
  datatype FigureEdit =
    | LoadFigures(figures: Figures)                // the approved dataset's figures replace the dict
    | UploadFigure(name: string, src: string, description: string)  // an uploaded image under its filename
    | DeleteFigure(name: string)                   // the figure shown in the dialog is deleted

  /** The figure dict after an edit, or none when `del` raises `KeyError` for a name not in it. */
  function ApplyEdit(figs: Figures, edit: FigureEdit): (r: Option<Figures>)
    ensures edit.LoadFigures? ==> r == Some(edit.figures)
    ensures edit.UploadFigure? ==> r.Some?
    ensures edit.UploadFigure? ==> AsMap(r.value) == AsMap(figs)[edit.name := Figure(edit.src, edit.description)]
    ensures edit.DeleteFigure? ==> (r.Some? <==> edit.name in Names(figs))
    ensures edit.DeleteFigure? && r.Some? ==> AsMap(r.value) == AsMap(figs) - {edit.name}
  {
    match edit
    case LoadFigures(f) => Some(f)
    case UploadFigure(name, src, description) =>
      SetFigureSpec(figs, name, Figure(src, description));
      Some(SetFigure(figs, name, Figure(src, description)))
    case DeleteFigure(name) =>
      if name in Names(figs) then
        RemoveFigureAsMap(figs, name);
        Some(RemoveFigure(figs, name))
      else None
  }

  /** Uploads and deletions keep the dict's keys unique. */
  lemma EditsKeepKeysUnique(figs: Figures, edit: FigureEdit)
    requires UniqueNames(figs) && !edit.LoadFigures?
    requires ApplyEdit(figs, edit).Some?
    ensures UniqueNames(ApplyEdit(figs, edit).value)
  {
    match edit
    case UploadFigure(name, src, description) => SetFigureSpec(figs, name, Figure(src, description));
    case DeleteFigure(name) => RemoveFigureUnique(figs, name);
  }

  /** Re-uploading an image under a name already shown keeps every figure in its slot. */
  lemma UploadKeepsSlots(figs: Figures, name: string, src: string, description: string)
    requires name in Names(figs)
    ensures Names(ApplyEdit(figs, UploadFigure(name, src, description)).value) == Names(figs)
  {
    SetFigureSpec(figs, name, Figure(src, description));
  }

  /** Uploading a new image puts it in the first free slot, after the figures already shown. */
  lemma UploadAppends(figs: Figures, name: string, src: string, description: string)
    requires name !in Names(figs)
    ensures Names(ApplyEdit(figs, UploadFigure(name, src, description)).value) == Names(figs) + [name]
  {
    SetFigureSpec(figs, name, Figure(src, description));
  }
}
