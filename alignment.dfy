/** The feature-alignment step of the predictor page: the request
    (year, station id) becomes a one-row table with a `year` column and the
    one-hot indicator of the station, every column of the training schema
    that the row lacks is added with value 0, and the row is projected onto
    the schema's columns in the schema's order. */
module Alignment {

  import opened Options

  /** The column that carries the requested year. */
  const YearColumn: string := "year"

  /** One-hot encoding of the `id` column names its indicator after the
      column, joined by the default separator `_`. */
  const IndicatorPrefix: string := "id_"

  predicate IsIndicator(c: string) {
    |IndicatorPrefix| <= |c| && c[..|IndicatorPrefix|] == IndicatorPrefix
  }

  /** The indicator column of one station. */
  function IndicatorColumn(stationId: string): (c: string)
    ensures IsIndicator(c) && c != YearColumn
    ensures c[|IndicatorPrefix|..] == stationId
  {
    var c := IndicatorPrefix + stationId;
    assert c[0] != YearColumn[0];
    c
  }

  lemma YearIsNotIndicator()
    ensures !IsIndicator(YearColumn)
  {
    assert YearColumn[..|IndicatorPrefix|][0] == 'y';
  }

  /** Reference definition: the value a schema column must hold for a request.
      The year column passes the year through, the station's own indicator
      is 1 (pandas' `True`), every other column is 0. */
  function FeatureValue(year: int, stationId: string, c: string): int {
    if c == YearColumn then year else if c == IndicatorColumn(stationId) then 1 else 0
  }

  /** A one-row data frame: its column labels in order and the value under each. */
  datatype Table = Table(columns: seq<string>, cells: map<string, int>)
  {
    ghost predicate Valid() {
      && (forall i, j :: 0 <= i < j < |columns| ==> columns[i] != columns[j])
      && (forall c :: c in cells <==> c in columns)
    }
  }

  /** The row after building the frame from the request and one-hot encoding
      its `id` column: `year` first, then the station's indicator. */
  function Encode(year: int, stationId: string): (t: Table)
    ensures t.Valid()
    ensures t.columns == [YearColumn, IndicatorColumn(stationId)]
    ensures t.cells.Keys == {YearColumn, IndicatorColumn(stationId)}
    ensures forall c :: c in t.cells ==> t.cells[c] == FeatureValue(year, stationId, c)
  {
    Table([YearColumn, IndicatorColumn(stationId)],
          map[YearColumn := year, IndicatorColumn(stationId) := 1])
  }

  /** `frame[c] = v`: a new label is appended after the existing columns,
      an existing one keeps its place and takes the new value. */
  function Assign(t: Table, c: string, v: int): (r: Table)
    ensures t.Valid() ==> r.Valid()
    ensures c in r.cells && r.cells[c] == v
    ensures forall d :: d != c ==> (d in r.cells <==> d in t.cells)
    ensures forall d :: d != c && d in t.cells ==> r.cells[d] == t.cells[d]
    ensures t.Valid() ==> |t.columns| <= |r.columns| && r.columns[..|t.columns|] == t.columns
  {
    Table(if c in t.cells then t.columns else t.columns + [c], t.cells[c := v])
  }

  /** One step of the fill loop: a label the row lacks is added with 0. */
  function InsertIfMissing(t: Table, c: string): (r: Table)
    ensures c in r.cells
    ensures forall d :: d in r.cells <==> d in t.cells || d == c
    ensures forall d :: d in t.cells ==> r.cells[d] == t.cells[d]
    ensures c !in t.cells ==> r.cells[c] == 0
  {
    if c in t.cells then t else Assign(t, c, 0)
  }

  /** The row after the fill loop has visited every label of `cols`, in order. */
  function FillMissing(t: Table, cols: seq<string>): (r: Table)
    ensures forall c :: c in cols ==> c in r.cells
    ensures forall c :: c in t.cells ==> c in r.cells && r.cells[c] == t.cells[c]
    ensures |t.columns| <= |r.columns| && r.columns[..|t.columns|] == t.columns
    decreases |cols|
  {
    if cols == [] then t else InsertIfMissing(FillMissing(t, cols[..|cols| - 1]), cols[|cols| - 1])
  }

  /** Visiting one more label of the schema is one more fill step. */
  lemma FillMissingStep(t: Table, cols: seq<string>, i: nat)
    requires i < |cols|
    ensures FillMissing(t, cols[..i + 1]) == InsertIfMissing(FillMissing(t, cols[..i]), cols[i])
  {
    assert cols[..i + 1][..i] == cols[..i];
  }

  /** The fill loop keeps the row well formed, adds exactly the schema labels
      the row lacked, gives each of them 0, changes no column that was already
      there and keeps the existing columns in their places. */
  lemma {:induction false} FillMissingSpec(t: Table, cols: seq<string>)
    requires t.Valid()
    ensures FillMissing(t, cols).Valid()
    ensures forall c :: c in FillMissing(t, cols).cells <==> c in t.cells || c in cols
    ensures forall c :: c in t.cells ==> FillMissing(t, cols).cells[c] == t.cells[c]
    ensures forall c :: c in FillMissing(t, cols).cells && c !in t.cells ==> FillMissing(t, cols).cells[c] == 0
    ensures |t.columns| <= |FillMissing(t, cols).columns|
    ensures FillMissing(t, cols).columns[..|t.columns|] == t.columns
    decreases |cols|
  {
    if cols != [] {
      var init := cols[..|cols| - 1];
      FillMissingSpec(t, init);
      assert forall c :: c in cols <==> c in init || c == cols[|cols| - 1];
    }
  }

  /** `frame[names]`: the row's values under `names`, in that order, or None
      (pandas' KeyError) when some name is not a column of the row. */
  function Project(t: Table, names: seq<string>): (r: Option<seq<int>>)
    ensures r.Some? <==> forall c :: c in names ==> c in t.cells
    ensures r.Some? ==> |r.value| == |names|
    ensures r.Some? ==> forall i :: 0 <= i < |names| ==> r.value[i] == t.cells[names[i]]
    decreases |names|
  {
    if names == [] then Some([])
    else if names[0] !in t.cells then None
    else match Project(t, names[1..])
      case None => None
      case Some(rest) => Some([t.cells[names[0]]] + rest)
  }

  /** The feature vector handed to the model for one request. */
  function Aligned(year: int, stationId: string, modelCols: seq<string>): (v: seq<int>)
    ensures |v| == |modelCols|
  {
    FillMissingSpec(Encode(year, stationId), modelCols);
    Project(FillMissing(Encode(year, stationId), modelCols), modelCols).value
  }

  /** The aligned vector has one entry per schema column, in schema order, and
      each entry is the reference value of its column. */
  lemma AlignedIsReference(year: int, stationId: string, modelCols: seq<string>)
    ensures forall i :: 0 <= i < |modelCols| ==>
      Aligned(year, stationId, modelCols)[i] == FeatureValue(year, stationId, modelCols[i])
  {
    var encoded := Encode(year, stationId);
    FillMissingSpec(encoded, modelCols);
  }

  /** Every `year` position of the vector holds the requested year. */
  lemma YearPassesThrough(year: int, stationId: string, modelCols: seq<string>)
    ensures forall i :: 0 <= i < |modelCols| && modelCols[i] == YearColumn ==>
      Aligned(year, stationId, modelCols)[i] == year
  {
    AlignedIsReference(year, stationId, modelCols);
  }

  /** A station the schema knows: its indicator positions hold 1, every other
      indicator position holds 0, and at least one position holds its 1. */
  lemma KnownStationOneHot(year: int, stationId: string, modelCols: seq<string>)
    requires IndicatorColumn(stationId) in modelCols
    ensures forall i :: 0 <= i < |modelCols| && IsIndicator(modelCols[i]) ==>
      Aligned(year, stationId, modelCols)[i] == (if modelCols[i] == IndicatorColumn(stationId) then 1 else 0)
    ensures exists i :: (0 <= i < |modelCols| && modelCols[i] == IndicatorColumn(stationId) &&
                         Aligned(year, stationId, modelCols)[i] == 1)
  {
    AlignedIsReference(year, stationId, modelCols);
    YearIsNotIndicator();
    var k :| 0 <= k < |modelCols| && modelCols[k] == IndicatorColumn(stationId);
    assert Aligned(year, stationId, modelCols)[k] == 1;
  }

  /** A station the schema does not know: its indicator is dropped by the
      projection, every indicator position is 0, and every position other
      than `year` is 0. */
  lemma UnseenStationAllZero(year: int, stationId: string, modelCols: seq<string>)
    requires IndicatorColumn(stationId) !in modelCols
    ensures forall i :: 0 <= i < |modelCols| && modelCols[i] != YearColumn ==>
      Aligned(year, stationId, modelCols)[i] == 0
    ensures forall i :: 0 <= i < |modelCols| && IsIndicator(modelCols[i]) ==>
      Aligned(year, stationId, modelCols)[i] == 0
  {
    AlignedIsReference(year, stationId, modelCols);
    YearIsNotIndicator();
  }

  /** The two requests against the schema `year, id_1, id_2`: a known and an
      unseen station. */
  lemma SchemaExamples()
    ensures Aligned(2022, "1", ["year", "id_1", "id_2"]) == [2022, 1, 0]
    ensures Aligned(2022, "99", ["year", "id_1", "id_2"]) == [2022, 0, 0]
  {
    var schema := ["year", "id_1", "id_2"];
    AlignedIsReference(2022, "1", schema);
    AlignedIsReference(2022, "99", schema);
    assert IndicatorColumn("1") == "id_1";
    assert IndicatorColumn("99") != "id_1" && IndicatorColumn("99") != "id_2";
  }

  /** The data frame the page builds and grows column by column. */
  class Frame {
    var columns: seq<string>
    var cells: map<string, int>

    function Snapshot(): Table
      reads this
    {
      Table(columns, cells)
    }

    ghost predicate Valid()
      reads this
    {
      Snapshot().Valid()
    }

    /** The frame of the request with its `id` column one-hot encoded. */
    constructor FromRequest(year: int, stationId: string)
      ensures Valid() && Snapshot() == Encode(year, stationId)
    {
      columns := [YearColumn, IndicatorColumn(stationId)];
      cells := map[YearColumn := year, IndicatorColumn(stationId) := 1];
    }

    /** `c in frame.columns` */
    predicate HasColumn(c: string)
      reads this
    {
      c in columns
    }

    /** `frame[c] = v` */
    method SetColumn(c: string, v: int)
      requires Valid()
      modifies this
      ensures Valid() && Snapshot() == Assign(old(Snapshot()), c, v)
    {
      if c !in cells {
        columns := columns + [c];
      }
      cells := cells[c := v];
    }
  }

  /** The alignment as the page runs it: build the encoded frame, add each
      missing schema column with 0, then select the schema's columns. */
  method AlignFeatures(year: int, stationId: string, modelCols: seq<string>) returns (features: seq<int>)
    ensures features == Aligned(year, stationId, modelCols)
  {
    var frame := new Frame.FromRequest(year, stationId);
    for i := 0 to |modelCols|
      invariant frame.Valid()
      invariant frame.Snapshot() == FillMissing(Encode(year, stationId), modelCols[..i])
    {
      var col := modelCols[i];
      ghost var before := frame.Snapshot();
      if !frame.HasColumn(col) {
        frame.SetColumn(col, 0);
      }
      assert frame.Snapshot() == InsertIfMissing(before, col);
      FillMissingStep(Encode(year, stationId), modelCols, i);
    }
    assert modelCols[..|modelCols|] == modelCols;
    var selected := Project(frame.Snapshot(), modelCols);
    features := selected.value;
  }
}
