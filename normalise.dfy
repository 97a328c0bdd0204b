/**
 * Turning the table the editor holds (rows of text cells, one per property) into the property map
 * of a regime (`get_regime_from_current_dataset`).
 */
module Normalise {
  import opened Wrappers
  import opened Regimes

  /** A Python float; `float()` itself is not modelled. */
  type Float(==)

  /** A Python value built by `ast.literal_eval` (lists, tuples, dicts of numbers); not modelled. */
  type Literal(==)

  /** One table cell: text from the editor, or what normalisation put there. */
  datatype Cell = Text(text: string) | Null | Number(number: Float) | Parsed(literal: Literal)

  /** One table row (a dict of cells keyed by column). */
  type Row = map<string, Cell>

  /** `float(s)`, which may raise `ValueError`. */
  type FloatParser = string -> Option<Float>

  /** `ast.literal_eval(s)`, which may raise. */
  type LiteralParser = string -> Option<Literal>

  /** The exception that aborts normalisation. */
  datatype NormError =
    | NoPropertyCell(row: nat)      // `data[j].pop('property')` raises KeyError
    | NoTypeCell(property: string)  // `formated_data[prop]['type']` raises KeyError
    | BadValue(property: string)    // `float` or `ast.literal_eval` rejects a value or dev_value
    | NoLocationValue               // `formated_data['location']['value']` raises KeyError
    | BadLocation                   // `ast.literal_eval` rejects the location value

  /** The regime that is built: title, description, figures and the property map. */
  datatype NewRegime = NewRegime(name: string, description: string, figures: Figures, props: map<string, Row>)

  /** The editor hands over text cells only. */
  predicate AllText(rows: seq<Row>)
  {
    forall j, k :: 0 <= j < |rows| && k in rows[j] ==> rows[j][k].Text?
  }

  predicate TextRow(row: Row)
  {
    forall k :: k in row ==> row[k].Text?
  }

  /** The attributes whose text is converted according to the type tag. */
  predicate Numeric(entry: string)
  {
    entry == "value" || entry == "dev_value"
  }

  /** The row's type tag as the comparisons see it. */
  function TypeTag(row: Row): string
  {
    if "type" in row && row["type"].Text? then row["type"].text else ""
  }

  /** The new content of one cell of text `s` under attribute `entry`, or `None` if a parser raised. */
  function ConvertCell(ty: string, entry: string, s: string, pf: FloatParser, le: LiteralParser): (r: Option<Cell>)
    // 'nan' becomes None, whatever the attribute and the type
    ensures r == Some(Null) <==> s == "nan"
    // a cell that stays text keeps its text
    ensures r.Some? && r.value.Text? ==> r.value.text == s
    // float() is applied only to a scalar's value/dev_value that is neither '', 'None' nor 'nan'
    ensures r.Some? && r.value.Number? <==>
      Numeric(entry) && ty == "scalar" && s !in {"", "None", "nan"} && pf(s).Some?
    ensures r.Some? && r.value.Number? ==> pf(s) == Some(r.value.number)
    // literal_eval is applied only to an array's or tabulated's value/dev_value that is not 'nan'
    ensures r.Some? && r.value.Parsed? <==>
      Numeric(entry) && ty in {"tabulated", "array"} && s != "nan" && le(s).Some?
    ensures r.Some? && r.value.Parsed? ==> le(s) == Some(r.value.literal)
    // only those two conversions can fail
    ensures r.None? <==>
      Numeric(entry) &&
      ((ty == "scalar" && s !in {"", "None", "nan"} && pf(s).None?) ||
       (ty in {"tabulated", "array"} && s != "nan" && le(s).None?))
  {
    var cell := if s == "nan" then Null else Text(s);
    if !Numeric(entry) then Some(cell)
    else if ty == "scalar" then
      if s == "" || s == "None" || s == "nan" then Some(cell)
      else match pf(s)
        case Some(x) => Some(Number(x))
        case None => None
    else if ty == "tabulated" || ty == "array" then
      if s == "nan" then Some(Null)
      else match le(s)
        case Some(l) => Some(Parsed(l))
        case None => None
    else Some(cell)
  }

  /** The cells of a row (its `property` cell already removed) after conversion. */
  function ConvertRow(prop: string, row: Row, pf: FloatParser, le: LiteralParser): (r: Result<Row, NormError>)
    requires TextRow(row)
    ensures r.Ok? ==> r.value.Keys == row.Keys
    ensures r.Err? ==> r.error == NoTypeCell(prop) || r.error == BadValue(prop)
    ensures r.Ok? ==> forall k :: k in row && !Numeric(k) ==> r.value[k] == if row[k].text == "nan" then Null else row[k]
  {
    if ("value" in row || "dev_value" in row) && "type" !in row then Err(NoTypeCell(prop))
    else if exists k :: k in row && ConvertCell(TypeTag(row), k, row[k].text, pf, le).None? then Err(BadValue(prop))
    else Ok(map k | k in row :: ConvertCell(TypeTag(row), k, row[k].text, pf, le).value)
  }

  /** Each row in order: its property name and its converted cells; the first failing row decides the error. */
  function ConvertAll(rows: seq<Row>, pf: FloatParser, le: LiteralParser): (r: Result<seq<(string, Row)>, NormError>)
    requires AllText(rows)
    ensures r.Ok? ==> |r.value| == |rows|
    ensures r.Err? && r.error.NoPropertyCell? ==> r.error.row < |rows| && "property" !in rows[r.error.row]
    decreases |rows|
  {
    if rows == [] then Ok([])
    else
      var init, last := rows[..|rows| - 1], rows[|rows| - 1];
      match ConvertAll(init, pf, le)
      case Err(e) => Err(e)
      case Ok(pairs) =>
        if "property" !in last then Err(NoPropertyCell(|rows| - 1))
        else match ConvertRow(last["property"].text, last - {"property"}, pf, le)
          case Err(e) => Err(e)
          case Ok(row) => Ok(pairs + [(last["property"].text, row)])
  }

  /** `formated_data` after the loop: each property keyed to the row that came last. */
  function Collect(pairs: seq<(string, Row)>): (r: map<string, Row>)
    ensures forall p :: p in r <==> exists j :: 0 <= j < |pairs| && pairs[j].0 == p
  {
    if pairs == [] then map[]
    else Collect(pairs[..|pairs| - 1])[pairs[|pairs| - 1].0 := pairs[|pairs| - 1].1]
  }

  /** The index of the last row whose property is `p`, or -1. */
  function LastRowOf(pairs: seq<(string, Row)>, p: string): (j: int)
    ensures -1 <= j < |pairs|
    ensures j >= 0 ==> pairs[j].0 == p && forall i :: j < i < |pairs| ==> pairs[i].0 != p
    ensures j == -1 ==> forall i :: 0 <= i < |pairs| ==> pairs[i].0 != p
  {
    if pairs == [] then -1
    else if pairs[|pairs| - 1].0 == p then |pairs| - 1
    else LastRowOf(pairs[..|pairs| - 1], p)
  }

  /** The literal a converted location row yields for its value, if it has one and it parses. */
  function LocationLiteral(row: Row, le: LiteralParser): (r: Result<Literal, NormError>)
    ensures r.Ok? <==> "value" in row && row["value"].Text? && le(row["value"].text).Some?
    ensures r.Ok? ==> le(row["value"].text) == Some(r.value)
    ensures r.Err? ==> r.error == (if "value" in row then BadLocation else NoLocationValue)
  {
    if "value" !in row then Err(NoLocationValue)
    else match row["value"]
      case Text(s) => (match le(s) case Some(l) => Ok(l) case None => Err(BadLocation))
      case _ => Err(BadLocation)
  }

  /** The regime `get_regime_from_current_dataset` returns, or the exception it raises. */
  function Normalise(rows: seq<Row>, title: string, description: string, figures: Figures,
                     pf: FloatParser, le: LiteralParser): (r: Result<NewRegime, NormError>)
    requires AllText(rows)
    ensures r.Ok? ==> r.value.name == title && r.value.description == description && r.value.figures == figures
    ensures ConvertAll(rows, pf, le).Err? ==> r == Err(ConvertAll(rows, pf, le).error)
    ensures r.Ok? ==> ConvertAll(rows, pf, le).Ok? && r.value.props.Keys == Collect(ConvertAll(rows, pf, le).value).Keys
  {
    match ConvertAll(rows, pf, le)
    case Err(e) => Err(e)
    case Ok(pairs) =>
      var props := Collect(pairs);
      if "location" !in props then Ok(NewRegime(title, description, figures, props))
      else match LocationLiteral(props["location"], le)
        case Err(e) => Err(e)
        case Ok(l) =>
          Ok(NewRegime(title, description, figures, props["location" := props["location"]["value" := Parsed(l)]]))
  }

  /**
   * The rows the caller's list holds afterwards: each row lost its `property` cell and holds its
   * converted cells, and the dict that ended up as `formated_data['location']` (the last location
   * row) also holds the parsed location value.
   */
  function RowsAfter(rows: seq<Row>, pf: FloatParser, le: LiteralParser): (r: seq<Row>)
    requires AllText(rows)
    ensures |r| == |rows|
  {
    match ConvertAll(rows, pf, le)
    case Err(_) => rows
    case Ok(pairs) =>
      var converted := Converted(pairs);
      var k := LastRowOf(pairs, "location");
      if k < 0 then converted
      else match LocationLiteral(pairs[k].1, le)
        case Err(_) => converted
        case Ok(l) => converted[k := converted[k]["value" := Parsed(l)]]
  }

  lemma {:induction false} ConvertAllLength(rows: seq<Row>, pf: FloatParser, le: LiteralParser)
    requires AllText(rows) && ConvertAll(rows, pf, le).Ok?
    ensures |ConvertAll(rows, pf, le).value| == |rows|
    ensures forall j :: 0 <= j < |rows| ==>
      "property" in rows[j] && ConvertAll(rows, pf, le).value[j].0 == rows[j]["property"].text &&
      ConvertRow(rows[j]["property"].text, rows[j] - {"property"}, pf, le) == Ok(ConvertAll(rows, pf, le).value[j].1)
    decreases |rows|
  {
    if rows != [] {
      var init, last := rows[..|rows| - 1], rows[|rows| - 1];
      assert AllText(init);
      ConvertAllLength(init, pf, le);
      var pairs := ConvertAll(init, pf, le).value;
      var row := ConvertRow(last["property"].text, last - {"property"}, pf, le).value;
      assert ConvertAll(rows, pf, le).value == pairs + [(last["property"].text, row)];
      forall j | 0 <= j < |init|
        ensures "property" in rows[j] && ConvertAll(rows, pf, le).value[j] == pairs[j]
      {
        assert rows[j] == init[j];
      }
    }
  }

  /** After a conversion that succeeded every row has lost its `property` cell and kept all its other cells. */
  lemma RowsAfterDropProperty(rows: seq<Row>, pf: FloatParser, le: LiteralParser)
    requires AllText(rows) && ConvertAll(rows, pf, le).Ok?
    ensures |RowsAfter(rows, pf, le)| == |rows|
    ensures forall j :: 0 <= j < |rows| ==> RowsAfter(rows, pf, le)[j].Keys == rows[j].Keys - {"property"}
  {
    ConvertAllLength(rows, pf, le);
  }

  /** The first failing row decides: an error in a prefix is the error of the whole table. */
  lemma {:induction false} ConvertAllPrefixError(rows: seq<Row>, n: nat, pf: FloatParser, le: LiteralParser)
    requires AllText(rows) && n <= |rows|
    requires AllText(rows[..n]) && ConvertAll(rows[..n], pf, le).Err?
    ensures ConvertAll(rows, pf, le) == ConvertAll(rows[..n], pf, le)
    decreases |rows|
  {
    if n < |rows| {
      var init := rows[..|rows| - 1];
      assert init[..n] == rows[..n];
      ConvertAllPrefixError(init, n, pf, le);
    } else {
      assert rows[..n] == rows;
    }
  }

  lemma {:induction false} CollectAt(pairs: seq<(string, Row)>, p: string)
    ensures p in Collect(pairs) <==> LastRowOf(pairs, p) >= 0
    ensures p in Collect(pairs) ==> Collect(pairs)[p] == pairs[LastRowOf(pairs, p)].1
    decreases |pairs|
  {
    if pairs != [] {
      CollectAt(pairs[..|pairs| - 1], p);
    }
  }

  /** Row `j` names property `p` and no later row does. */
  predicate LastNaming(rows: seq<Row>, j: int, p: string)
  {
    && 0 <= j < |rows| && "property" in rows[j] && rows[j]["property"] == Text(p)
    && forall i :: j < i < |rows| ==> "property" in rows[i] && rows[i]["property"] != Text(p)
  }

  /** What the property map holds for `p`, given the last row naming `p`. */
  predicate PropFromRow(props: map<string, Row>, p: string, row: Row, pf: FloatParser, le: LiteralParser)
    requires TextRow(row)
  {
    && p in props
    && ConvertRow(p, row, pf, le).Ok?
    && var cells := ConvertRow(p, row, pf, le).value;
       if p == "location"
       then "value" in cells && cells["value"].Text? && le(cells["value"].text).Some? &&
            props[p] == cells["value" := Parsed(le(cells["value"].text).value)]
       else props[p] == cells
  }

  /**
   * The property map holds exactly the properties named in the rows; each is the converted cells of
   * the last row naming it, and the location value is the literal parsed from its text.
   */
  lemma NormaliseProps(rows: seq<Row>, title: string, description: string, figures: Figures,
                       pf: FloatParser, le: LiteralParser)
    requires AllText(rows) && Normalise(rows, title, description, figures, pf, le).Ok?
    ensures var reg := Normalise(rows, title, description, figures, pf, le).value;
      && reg.name == title && reg.description == description && reg.figures == figures
      && (forall j :: 0 <= j < |rows| ==> "property" in rows[j] && rows[j]["property"].text in reg.props)
      && (forall p :: p in reg.props ==>
            exists j :: LastNaming(rows, j, p) && PropFromRow(reg.props, p, rows[j] - {"property"}, pf, le))
  {
    var pairs := ConvertAll(rows, pf, le).value;
    ConvertAllLength(rows, pf, le);
    var reg := Normalise(rows, title, description, figures, pf, le).value;
    forall j | 0 <= j < |rows| ensures rows[j]["property"].text in reg.props {
      CollectAt(pairs, pairs[j].0);
    }
    forall p | p in reg.props
      ensures exists j :: LastNaming(rows, j, p) && PropFromRow(reg.props, p, rows[j] - {"property"}, pf, le)
    {
      CollectAt(pairs, p);
      var j := LastRowOf(pairs, p);
      assert pairs[j].0 == p;
      assert LastNaming(rows, j, p);
    }
  }

  /**
   * An empty location value is an error, as `ast.literal_eval('')` raises; it does not become None.
   */
  lemma EmptyLocationFails(rows: seq<Row>, title: string, description: string, figures: Figures,
                           pf: FloatParser, le: LiteralParser)
    requires AllText(rows) && le("").None?
    requires exists j :: LastNaming(rows, j, "location") && "value" in rows[j] && rows[j]["value"] == Text("")
    ensures Normalise(rows, title, description, figures, pf, le).Err?
  {
    var j :| LastNaming(rows, j, "location") && "value" in rows[j] && rows[j]["value"] == Text("");
    if ConvertAll(rows, pf, le).Ok? {
      var pairs := ConvertAll(rows, pf, le).value;
      ConvertAllLength(rows, pf, le);
      CollectAt(pairs, "location");
      var k := LastRowOf(pairs, "location");
      assert k == j;
      var row := rows[j] - {"property"};
      assert ConvertCell(TypeTag(row), "value", "", pf, le) != Some(Null);
    }
  }

  /** Converts the cells of one row, attribute by attribute, as the inner loop does. */
  method ConvertEntries(prop: string, row: Row, pf: FloatParser, le: LiteralParser) returns (r: Result<Row, NormError>)
    requires TextRow(row)
    ensures r == ConvertRow(prop, row, pf, le)
  {
    var ty := TypeTag(row);
    var result := row;
    var entries := row.Keys;
    while entries != {}
      invariant entries <= row.Keys && result.Keys == row.Keys
      invariant forall k :: k in entries ==> result[k] == row[k]
      invariant forall k :: k in row && k !in entries ==>
        ConvertCell(ty, k, row[k].text, pf, le).Some? && result[k] == ConvertCell(ty, k, row[k].text, pf, le).value
      invariant "type" !in row ==> forall k :: k in row && k !in entries ==> !Numeric(k)
      decreases entries
    {
      var entry :| entry in entries;
      var s := row[entry].text;
      if result[entry] == Text("nan") {
        result := result[entry := Null];
      }
      if entry == "value" || entry == "dev_value" {
        if "type" !in result {
          return Err(NoTypeCell(prop));
        }
        assert result["type"] == Text("scalar") <==> ty == "scalar";
        assert result["type"] in {Text("tabulated"), Text("array")} <==> ty in {"tabulated", "array"};
        var current := result[entry];
        if result["type"] == Text("scalar") {
          if current == Text("None") {
            current := Null;
          }
          if current != Text("") && current != Null {
            match pf(s)
            case None => return Err(BadValue(prop));
            case Some(x) => result := result[entry := Number(x)];
          }
        } else if result["type"] == Text("tabulated") || result["type"] == Text("array") {
          if current != Null {
            match le(s)
            case None => return Err(BadValue(prop));
            case Some(l) => result := result[entry := Parsed(l)];
          }
        }
      }
      entries := entries - {entry};
    }
    assert !(exists k :: k in row && ConvertCell(ty, k, row[k].text, pf, le).None?);
    assert result == map k | k in row :: ConvertCell(ty, k, row[k].text, pf, le).value;
    r := Ok(result);
  }

  /** The converted rows of a conversion that succeeded. */
  function Converted(pairs: seq<(string, Row)>): (r: seq<Row>)
    ensures |r| == |pairs| && forall j :: 0 <= j < |pairs| ==> r[j] == pairs[j].1
  {
    seq(|pairs|, j requires 0 <= j < |pairs| => pairs[j].1)
  }

  /** One turn of the conversion loop: row `j` converted extends the converted prefix by one pair. */
  lemma ConvertStep(rows: seq<Row>, j: nat, before: seq<Row>, prop: string, newRow: Row,
                    pf: FloatParser, le: LiteralParser)
    requires j < |rows| == |before| && AllText(rows)
    requires AllText(rows[..j]) && ConvertAll(rows[..j], pf, le).Ok?
    requires before[..j] == Converted(ConvertAll(rows[..j], pf, le).value)
    requires before[j..] == rows[j..]
    requires "property" in rows[j] && prop == rows[j]["property"].text
    requires ConvertRow(prop, rows[j] - {"property"}, pf, le) == Ok(newRow)
    ensures AllText(rows[..j + 1]) && ConvertAll(rows[..j + 1], pf, le).Ok?
    ensures ConvertAll(rows[..j + 1], pf, le).value == ConvertAll(rows[..j], pf, le).value + [(prop, newRow)]
    ensures before[j := newRow][..j + 1] == Converted(ConvertAll(rows[..j + 1], pf, le).value)
    ensures before[j := newRow][j + 1..] == rows[j + 1..]
    ensures Collect(ConvertAll(rows[..j + 1], pf, le).value) == Collect(ConvertAll(rows[..j], pf, le).value)[prop := newRow]
    ensures LastRowOf(ConvertAll(rows[..j + 1], pf, le).value, "location") ==
      if prop == "location" then j else LastRowOf(ConvertAll(rows[..j], pf, le).value, "location")
  {
    assert rows[..j + 1][..j] == rows[..j];
    var pairs := ConvertAll(rows[..j], pf, le).value;
    ConvertAllLength(rows[..j], pf, le);
    var next := pairs + [(prop, newRow)];
    assert next[..|next| - 1] == pairs;
    assert Converted(next) == Converted(pairs) + [newRow];
    var after := before[j := newRow];
    assert after[..j + 1] == before[..j] + [newRow];
    assert after[j + 1..] == before[j + 1..];
    assert before[j + 1..] == before[j..][1..];
  }

  /** The loop of `get_regime_from_current_dataset`: pops each property cell and converts the row in place. */
  method ConvertRowsInPlace(data: array<Row>, pf: FloatParser, le: LiteralParser)
    returns (r: Result<map<string, Row>, NormError>, locationRow: int)
    requires AllText(data[..])
    modifies data
    ensures ConvertAll(old(data[..]), pf, le).Err? ==> r == Err(ConvertAll(old(data[..]), pf, le).error)
    ensures ConvertAll(old(data[..]), pf, le).Ok? ==>
      var pairs := ConvertAll(old(data[..]), pf, le).value;
      && r == Ok(Collect(pairs))
      && data[..] == Converted(pairs)
      && locationRow == LastRowOf(pairs, "location")
  {
    ghost var rows := data[..];
    var formatted: map<string, Row> := map[];
    locationRow := -1;
    for j := 0 to data.Length
      invariant AllText(rows[..j]) && ConvertAll(rows[..j], pf, le).Ok?
      invariant data[..j] == Converted(ConvertAll(rows[..j], pf, le).value)
      invariant data[j..] == rows[j..]
      invariant formatted == Collect(ConvertAll(rows[..j], pf, le).value)
      invariant locationRow == LastRowOf(ConvertAll(rows[..j], pf, le).value, "location")
    {
      ghost var pairs := ConvertAll(rows[..j], pf, le).value;
      assert data[j] == rows[j] by { assert data[j..][0] == rows[j..][0]; }
      if "property" !in data[j] {
        assert rows[..j + 1][..j] == rows[..j];
        ConvertAllPrefixError(rows, j + 1, pf, le);
        return Err(NoPropertyCell(j)), locationRow;
      }
      var prop := data[j]["property"].text;
      var row := data[j] - {"property"};
      var converted := ConvertEntries(prop, row, pf, le);
      if converted.Err? {
        data[j] := row;
        assert rows[..j + 1][..j] == rows[..j];
        ConvertAllPrefixError(rows, j + 1, pf, le);
        return Err(converted.error), locationRow;
      }
      var newRow := converted.value;
      ghost var before := data[..];
      data[j] := newRow;
      assert data[..] == before[j := newRow];
      ConvertStep(rows, j, before, prop, newRow, pf, le);
      formatted := formatted[prop := newRow];
      if prop == "location" {
        locationRow := j;
      }
    }
    assert rows[..data.Length] == rows;
    r := Ok(formatted);
  }

  /**
   * `get_regime_from_current_dataset`: the regime built from the rows, which the method changes in
   * place as the source does (the property cell popped, the cells converted).
   */
  method GetRegimeFromCurrentDataset(data: array<Row>, title: string, description: string, figures: Figures,
                                     pf: FloatParser, le: LiteralParser)
    returns (r: Result<NewRegime, NormError>)
    requires AllText(data[..])
    modifies data
    ensures r == Normalise(old(data[..]), title, description, figures, pf, le)
    ensures r.Ok? ==> data[..] == RowsAfter(old(data[..]), pf, le)
  {
    ghost var rows := data[..];
    var converted, locationRow := ConvertRowsInPlace(data, pf, le);
    if converted.Err? {
      return Err(converted.error);
    }
    var formatted := converted.value;
    ghost var pairs := ConvertAll(rows, pf, le).value;
    CollectAt(pairs, "location");
    if "location" in formatted {
      // formated_data['location'] is the dict of the last location row
      var loc := data[locationRow];
      assert loc == formatted["location"];
      if "value" !in loc {
        return Err(NoLocationValue);
      }
      if !loc["value"].Text? {
        return Err(BadLocation);
      }
      match le(loc["value"].text) {
        case None => return Err(BadLocation);
        case Some(l) =>
          data[locationRow] := loc["value" := Parsed(l)];
          formatted := formatted["location" := data[locationRow]];
      }
    }
    r := Ok(NewRegime(title, description, figures, formatted));
  }
}
