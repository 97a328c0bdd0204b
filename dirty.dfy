/** The snapshot of the last loaded or saved state, and the dirty check against it (`check_changes`). */
module DirtyState {
  import opened Wrappers
  import opened Regimes
  import opened Normalise

  /** `saved_data_state`: what was last loaded or written, plus the current region and file. */
  datatype Snapshot = Snapshot(
    region: Option<string>,
    file: Option<string>,
    name: Option<string>,
    description: Option<string>,
    table: Option<seq<Row>>,
    newFile: bool,
    figures: Figures)

  /** The snapshot before anything is loaded. */
  const Initial: Snapshot := Snapshot(None, None, None, None, None, false, [])

  /** The snapshot describes exactly these live values (figures compared as dicts, ignoring order). */
  predicate Describes(s: Snapshot, name: string, description: string, figures: Figures, table: seq<Row>)
  {
    && s.name == Some(name)
    && s.description == Some(description)
    && AsMap(s.figures) == AsMap(figures)
    && s.table == Some(table)
  }

  /** `check_changes`: is there unsaved data, that is, does any of the four live values differ from the snapshot? */
  function CheckChanges(s: Snapshot, currentFigures: Figures, description: string, name: string, table: seq<Row>)
    : (changed: bool)
    ensures changed <==> !Describes(s, name, description, currentFigures, table)
  {
    var nameChanged := s.name != Some(name);
    var descriptionChanged := s.description != Some(description);
    var figuresChanged := AsMap(s.figures) != AsMap(currentFigures);
    var tableChanged := s.table != Some(table);
    nameChanged || descriptionChanged || figuresChanged || tableChanged
  }

  /** Reordering the figures (same dict) never makes the data look changed or unchanged. */
  lemma FigureOrderIgnored(s: Snapshot, f1: Figures, f2: Figures, description: string, name: string, table: seq<Row>)
    requires AsMap(f1) == AsMap(f2)
    ensures CheckChanges(s, f1, description, name, table) == CheckChanges(s, f2, description, name, table)
  {
  }

  /** Before anything is loaded every live state counts as changed. */
  lemma InitialIsDirty(figures: Figures, description: string, name: string, table: seq<Row>)
    ensures CheckChanges(Initial, figures, description, name, table)
  {
  }
}
