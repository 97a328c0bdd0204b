/** The two table edits of `update_data`: adding a column and adding an empty row. */
module TableEdits {
  import opened Wrappers
  import opened Normalise
  import opened Confirm

  /**
   * A column of the data table: its id and header, whether the user may select, rename and delete
   * it (true for added columns), and whether its cells are a dropdown.
   */
  datatype Column = Column(id: string, name: string, editable: bool, dropdown: bool)

  /** The columns whose cells are edited through a dropdown (`dropdown_in_table`). */
  const DropdownInTable: seq<string> := ["type"]

  /** The input that fired `update_data`. */
  datatype TableSource = ApprovedDataset | BtnAddColumn | BtnAddRow

  /**
   * What `update_data` answers: `PreventUpdate`, new columns, new rows, or the full rebuild of the
   * table from the selected regime (not part of this model).
   */
  datatype TableReply = TablePrevented | NewColumns(columns: seq<Column>) | NewRows(rows: seq<Row>) | Rebuild

  function ColumnNames(columns: seq<Column>): (r: seq<string>)
    ensures |r| == |columns| && forall i :: 0 <= i < |columns| ==> r[i] == columns[i].name
  {
    seq(|columns|, i requires 0 <= i < |columns| => columns[i].name)
  }

  /** The column list after adding `name`: unchanged if a column has that header, else one more column. */
  function AddColumn(columns: seq<Column>, name: string): (r: seq<Column>)
    ensures name in ColumnNames(r)
    ensures name in ColumnNames(columns) ==> r == columns
    ensures name !in ColumnNames(columns) ==>
      |r| == |columns| + 1 && r[..|columns|] == columns &&
      r[|columns|] == Column(name, name, true, name in DropdownInTable)
  {
    if name in ColumnNames(columns) then columns
    else
      var r := columns + [Column(name, name, true, name in DropdownInTable)];
      assert ColumnNames(r)[|columns|] == name;
      r
  }

  /** Adding the same column twice is adding it once. */
  lemma AddColumnIdempotent(columns: seq<Column>, name: string)
    ensures AddColumn(AddColumn(columns, name), name) == AddColumn(columns, name)
  {
  }

  /** The row added by the button: an empty text cell under every column id. */
  function EmptyRow(columns: seq<Column>): (r: Row)
    ensures forall k :: k in r <==> exists i :: 0 <= i < |columns| && columns[i].id == k
    ensures forall k :: k in r ==> r[k] == Text("")
  {
    map c | c in columns :: c.id := Text("")
  }

  /**
   * `update_data` for the two edit buttons. It acts only while the marker shows the dataset list
   * fired last; any other firing rebuilds the table.
   */
  function UpdateData(marker: Option<Source>, source: Option<TableSource>, addColumnClicks: Option<nat>,
                      addRowClicks: Option<nat>, rows: seq<Row>, columns: seq<Column>, name: string): (r: TableReply)
    ensures r.TablePrevented? <==> marker != Some(YamlListData)
    ensures r.NewColumns? <==> marker == Some(YamlListData) && source == Some(BtnAddColumn) && Truthy(addColumnClicks)
    ensures r.NewColumns? ==> r.columns == AddColumn(columns, name)
    ensures r.NewRows? <==> marker == Some(YamlListData) && source == Some(BtnAddRow) && Truthy(addRowClicks)
    ensures r.NewRows? ==> |r.rows| == |rows| + 1 && r.rows[..|rows|] == rows && r.rows[|rows|] == EmptyRow(columns)
  {
    if marker != Some(YamlListData) then TablePrevented
    else if source == Some(BtnAddColumn) && Truthy(addColumnClicks) then NewColumns(AddColumn(columns, name))
    else if source == Some(BtnAddRow) && Truthy(addRowClicks) then
      NewRows(if addRowClicks.value > 0 then rows + [EmptyRow(columns)] else rows)
    else Rebuild
  }
}
