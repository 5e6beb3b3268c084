/** What one form submission produces: the warning for a missing station id,
    or the table pairing the nine pollutants with the model's (rounded)
    outputs together with the name of the CSV download. */
module Report {

  import opened Options
  import opened Decimal
  import opened Alignment

  /** Bounds of the year field of the form. */
  const MinYear: int := 2000
  const MaxYear: int := 2100

  predicate ValidYear(year: int) {
    MinYear <= year <= MaxYear
  }

  /** The model's outputs, in the order it was trained to produce them. */
  const Pollutants: seq<string> := ["NH4", "BSK5", "Suspended", "O2", "NO3", "NO2", "SO4", "PO4", "CL"]

  /** One row of the result table: a pollutant and its predicted value. */
  datatype ResultRow<V> = ResultRow(pollutant: string, value: V)

  /** Rows pairing names and values position by position. */
  function Zip<V>(names: seq<string>, values: seq<V>): (rows: seq<ResultRow<V>>)
    requires |names| == |values|
    ensures |rows| == |names|
    ensures forall i :: 0 <= i < |rows| ==> rows[i] == ResultRow(names[i], values[i])
    decreases |names|
  {
    if names == [] then [] else [ResultRow(names[0], values[0])] + Zip(names[1..], values[1..])
  }

  /** The result table built from the two columns `Pollutant` and `Value`;
      None when the value column does not have one entry per pollutant
      (the table constructor rejects columns of different lengths). */
  function ResultTable<V>(values: seq<V>): (r: Option<seq<ResultRow<V>>>)
    ensures r.Some? <==> |values| == |Pollutants|
  {
    if |values| == |Pollutants| then Some(Zip(Pollutants, values)) else None
  }

  function PollutantColumn<V>(rows: seq<ResultRow<V>>): seq<string> {
    seq(|rows|, i requires 0 <= i < |rows| => rows[i].pollutant)
  }

  function ValueColumn<V>(rows: seq<ResultRow<V>>): seq<V> {
    seq(|rows|, i requires 0 <= i < |rows| => rows[i].value)
  }

  /** Reading the two columns back out of the table gives the nine pollutant
      names in their fixed order and the values in the model's order. */
  lemma ResultTableColumns<V>(values: seq<V>)
    requires |values| == |Pollutants|
    ensures ResultTable(values).Some?
    ensures PollutantColumn(ResultTable(values).value) == Pollutants
    ensures ValueColumn(ResultTable(values).value) == values
  {
  }

  /** The `round(val, 2)` comprehension over the model's outputs. */
  function RoundAll<V>(values: seq<V>, round: V -> V): (r: seq<V>)
    ensures |r| == |values|
    ensures forall i :: 0 <= i < |values| ==> r[i] == round(values[i])
  {
    seq(|values|, i requires 0 <= i < |values| => round(values[i]))
  }

  const FilePrefix: string := "pollution_prediction_"
  const FileSuffix: string := ".csv"

  /** The name offered for the CSV download. */
  function FileName(stationId: string, year: int): (f: string)
    ensures |FilePrefix| + |stationId| + 1 + |FileSuffix| < |f|
    ensures f[..|FilePrefix|] == FilePrefix && f[|f| - |FileSuffix|..] == FileSuffix
    ensures f[|FilePrefix|..|FilePrefix| + |stationId|] == stationId
  {
    FilePrefix + stationId + "_" + IntToDecimal(year) + FileSuffix
  }

  /** Position of the last `_` of `x`, or -1 when there is none. */
  function LastSeparator(x: string): (k: int)
    ensures -1 <= k < |x|
    ensures 0 <= k ==> x[k] == '_'
    ensures forall j :: k < j < |x| ==> x[j] != '_'
    decreases |x|
  {
    if x == [] then -1
    else if x[|x| - 1] == '_' then |x| - 1
    else LastSeparator(x[..|x| - 1])
  }

  /** Recovers the station id and the year from a download name. */
  function ParseFileName(f: string): Option<(string, int)> {
    if |f| < |FilePrefix| + |FileSuffix| || f[..|FilePrefix|] != FilePrefix
       || f[|f| - |FileSuffix|..] != FileSuffix then None
    else
      var core := f[|FilePrefix|..|f| - |FileSuffix|];
      var k := LastSeparator(core);
      if k < 0 then None
      else match ParseInt(core[k + 1..])
        case None => None
        case Some(year) => Some((core[..k], year))
  }

  /** A string framed by a prefix and a suffix gives back its three parts. */
  lemma SplitFramed(prefix: string, middle: string, suffix: string)
    ensures var f := prefix + middle + suffix;
      && |prefix| + |suffix| <= |f|
      && f[..|prefix|] == prefix
      && f[|f| - |suffix|..] == suffix
      && f[|prefix|..|f| - |suffix|] == middle
  {
  }

  /** When the text after a `_` holds no `_`, that `_` is the last one. */
  lemma {:induction false} SplitAtLastSeparator(head: string, tail: string)
    requires forall j :: 0 <= j < |tail| ==> tail[j] != '_'
    ensures LastSeparator(head + "_" + tail) == |head|
    ensures (head + "_" + tail)[..|head|] == head
    ensures (head + "_" + tail)[|head| + 1..] == tail
    decreases |tail|
  {
    var x := head + "_" + tail;
    if tail != [] {
      var shorter := tail[..|tail| - 1];
      assert x[|x| - 1] == tail[|tail| - 1];
      assert x[..|x| - 1] == head + "_" + shorter;
      SplitAtLastSeparator(head, shorter);
    }
  }

  /** The download name determines the station id and the year: the year's
      text holds no `_`, so the last `_` separates the two. */
  lemma ParseFileNameInverse(stationId: string, year: int)
    ensures ParseFileName(FileName(stationId, year)) == Some((stationId, year))
  {
    var digits := IntToDecimal(year);
    var core := stationId + "_" + digits;
    assert FileName(stationId, year) == FilePrefix + core + FileSuffix;
    SplitFramed(FilePrefix, core, FileSuffix);
    SplitAtLastSeparator(stationId, digits);
    ParseIntToDecimal(year);
  }

  lemma FileNameInjective(s1: string, y1: int, s2: string, y2: int)
    requires FileName(s1, y1) == FileName(s2, y2)
    ensures s1 == s2 && y1 == y2
  {
    ParseFileNameInverse(s1, y1);
    ParseFileNameInverse(s2, y2);
  }

  /** The page's answer to one submission. */
  datatype Response<V> =
    | MissingStationWarning
    | LengthMismatch(outputs: nat)
    | Predicted(table: seq<ResultRow<V>>, fileName: string)

  /** The answer built from the model's outputs for a non-empty station id:
      the table of rounded outputs and the download name, or the table
      constructor's error when the output count is not nine. */
  function Tabulate<V>(year: int, stationId: string, outputs: seq<V>, round: V -> V): (r: Response<V>)
    ensures r.LengthMismatch? <==> |outputs| != |Pollutants|
    ensures r.Predicted? ==> (|r.table| == |Pollutants| &&
      forall i :: 0 <= i < |Pollutants| ==> r.table[i] == ResultRow(Pollutants[i], round(outputs[i])))
    ensures !r.MissingStationWarning?
  {
    match ResultTable(RoundAll(outputs, round))
    case None => LengthMismatch(|outputs|)
    case Some(table) => Predicted(table, FileName(stationId, year))
  }

  /** A submission of the form, with the trained model's prediction on the
      aligned row and the rounding of its outputs as parameters. Only the
      empty station id is refused; the year is within the field's bounds. */
  function Respond<V>(year: int, stationId: string, modelCols: seq<string>,
                      predict: seq<int> -> seq<V>, round: V -> V): (r: Response<V>)
    requires ValidYear(year)
    ensures r.MissingStationWarning? <==> stationId == ""
    ensures r.Predicted? ==> (|r.table| == |Pollutants| &&
      forall i :: 0 <= i < |Pollutants| ==> r.table[i].pollutant == Pollutants[i])
  {
    if stationId == "" then MissingStationWarning
    else Tabulate(year, stationId, predict(Aligned(year, stationId, modelCols)), round)
  }

  /** The warning is given exactly when the station id is empty, whatever the
      model would predict. */
  lemma WarningIffEmptyStation<V>(year: int, stationId: string, modelCols: seq<string>,
                                  predict: seq<int> -> seq<V>, round: V -> V)
    requires ValidYear(year)
    ensures Respond(year, stationId, modelCols, predict, round) == MissingStationWarning <==> stationId == ""
  {
  }

  /** For a non-empty station id and a model with nine outputs, row i of the
      table pairs the i-th pollutant with the i-th rounded output, and the
      download name gives back the station id and the year. */
  lemma PredictedTable<V>(year: int, stationId: string, modelCols: seq<string>,
                          predict: seq<int> -> seq<V>, round: V -> V)
    requires ValidYear(year) && stationId != ""
    requires |predict(Aligned(year, stationId, modelCols))| == |Pollutants|
    ensures Respond(year, stationId, modelCols, predict, round).Predicted?
    ensures |Respond(year, stationId, modelCols, predict, round).table| == |Pollutants|
    ensures forall i :: 0 <= i < |Pollutants| ==>
      Respond(year, stationId, modelCols, predict, round).table[i]
        == ResultRow(Pollutants[i], round(predict(Aligned(year, stationId, modelCols))[i]))
    ensures ParseFileName(Respond(year, stationId, modelCols, predict, round).fileName) == Some((stationId, year))
  {
    ParseFileNameInverse(stationId, year);
  }

  /** A model whose output count differs from the nine pollutants yields no table. */
  lemma MismatchedOutputs<V>(year: int, stationId: string, modelCols: seq<string>,
                             predict: seq<int> -> seq<V>, round: V -> V)
    requires ValidYear(year) && stationId != ""
    requires |predict(Aligned(year, stationId, modelCols))| != |Pollutants|
    ensures Respond(year, stationId, modelCols, predict, round)
      == LengthMismatch(|predict(Aligned(year, stationId, modelCols))|)
  {
  }

  /** The submission handler as the page runs it: the same guard and table as
      `Respond`, with the feature row built by the loop of `AlignFeatures`. */
  method Submit<V>(year: int, stationId: string, modelCols: seq<string>,
                   predict: seq<int> -> seq<V>, round: V -> V) returns (r: Response<V>)
    requires ValidYear(year)
    ensures r == Respond(year, stationId, modelCols, predict, round)
  {
    if stationId == "" {
      return MissingStationWarning;
    }
    var features := AlignFeatures(year, stationId, modelCols);
    r := Tabulate(year, stationId, predict(features), round);
  }
}
