# Water pollution predictor: feature alignment, in Dafny

The predictor is a single web page. A user enters a year (2000 to 2100) and a
station id. The page turns them into the one-row feature vector that a
pre-trained regressor expects, asks the regressor for nine pollutant levels,
and shows them as a table with a CSV download.

This project models the logic of that page. The first part is the alignment
step, which works in four stages:

- it builds a row with a `year` column;
- it one-hot encodes the station id into a column `id_<station>` holding 1;
- it adds every training-schema column the row lacks, with value 0;
- it selects the schema's columns in the schema's order.

The second part is what happens around the alignment:

- the empty-station guard;
- pairing the nine pollutant names with the model's outputs;
- the name of the CSV download.

Modules:

- `Options` (options.dfy): the `Option` type, used for error paths.
- `Decimal` (decimal.dfy): how the page writes an integer as text in the
  download name, and a parser that undoes it.
- `Alignment` (alignment.dfy): the data frame and the alignment. `Table` is a
  one-row frame as a value: ordered column labels and a map from label to
  value. `Frame` is the mutable frame the page grows column by column.
  `FillMissing` is the fill loop written as a fold over the schema. `Project`
  is the column selection. `Aligned` is the resulting feature vector.
  `FeatureValue` is an independent reference definition of what each schema
  column must hold. `AlignFeatures` is the loop as the page runs it, and it is
  proved equal to `Aligned`.
- `Report` (report.dfy): the result table and the download name, with a
  parser that recovers the station id and the year from the name. `Respond`
  is the page's answer to one submission; `Tabulate` is the part after the
  model's prediction, and the method `Submit` runs the guard, the imperative
  alignment and `Tabulate`.

The model's `predict` and the `round(val, 2)` applied to its outputs are
function parameters. Prediction values have an abstract type `V`.

The guard `if not station_id` (app.py:117) refuses only the empty string. A
station id made of spaces passes it and gets an all-zero indicator block
unless the schema names that id.

## Model

| member | source | states |
|---|---|---|
| Alignment.IndicatorColumn | app.py:122 | the one-hot column of a station is `id_` followed by the station id; it is an indicator name, it is never `year`, and the station id can be read back from it |
| Alignment.Encode | app.py:121-122 | the encoded request row has exactly the columns `year` and `id_<station>`, in that order, is well formed, and each column holds its reference value (the year, and 1) |
| Alignment.Assign | app.py:126 | setting a column gives it the new value, leaves every other column and its value unchanged, keeps the row well formed, and keeps existing columns in their places |
| Alignment.Frame.FromRequest | app.py:121-122 | the new frame is well formed and equals the encoded request row |
| Alignment.Frame.SetColumn | app.py:126 | `frame[c] = v` keeps the frame well formed and turns it into `Assign` of the old frame |
| Alignment.InsertIfMissing | app.py:125-126 | one step of the fill loop: the visited label becomes a column; no other label is added; every existing column keeps its value; a label that was missing holds 0 |
| Alignment.FillMissing | app.py:124-126 | after visiting the schema's labels in order, every schema label is a column, every existing column keeps its value, and the existing columns keep their places (full account in `FillMissingSpec`) |
| Alignment.FillMissingSpec | app.py:124-126 | after the fill loop the row is well formed; its columns are exactly the old ones plus the schema's names; columns that were already there keep their values and places; every inserted column holds 0 |
| Alignment.Project | app.py:127 | selecting `names` succeeds exactly when every name is a column (otherwise it is a KeyError); the result has one entry per name, and entry i is the value of column `names[i]` |
| Alignment.Aligned | app.py:121-127 | the feature vector has exactly as many entries as the schema has columns |
| Alignment.AlignedIsReference | app.py:121-127 | entry i of the feature vector is the reference value of schema column i: the year for `year`, 1 for the station's own indicator, and 0 for every other column |
| Alignment.YearPassesThrough | app.py:121-127 | every `year` position of the feature vector holds the requested year |
| Alignment.KnownStationOneHot | app.py:122-127 | when the schema names the station's indicator, that indicator's positions hold 1, every other `id_` position holds 0, and a position holding the 1 exists |
| Alignment.UnseenStationAllZero | app.py:122-127 | when the schema does not name the station's indicator, the projection drops it; every `id_` position is 0, and so is every position other than `year` |
| Alignment.SchemaExamples | app.py:121-127 | for the schema `year, id_1, id_2` and year 2022, station `1` gives `[2022, 1, 0]` and the unseen station `99` gives `[2022, 0, 0]` |
| Alignment.AlignFeatures | app.py:121-127 | the loop that grows the frame column by column and then selects the schema's columns returns exactly `Aligned` of the request |
| Decimal.NatToDecimal | app.py:147 | the text of a non-negative year is at least one digit, all digits, and has no leading zero |
| Decimal.IntToDecimal | app.py:147 | the text of an integer is digits, with a leading minus sign exactly when the integer is negative |
| Decimal.ParseIntToDecimal | app.py:147 | parsing the text of an integer gives back that integer |
| Report.Zip | app.py:131-134 | pairing names and values gives one row per name, and row i holds the i-th name and the i-th value |
| Report.ResultTable | app.py:130-134 | the result table exists exactly when the value column has one entry per pollutant, that is nine |
| Report.ResultTableColumns | app.py:130-134 | the `Pollutant` column of the table is `NH4, BSK5, Suspended, O2, NO3, NO2, SO4, PO4, CL` in that order, and the `Value` column is the model's outputs in their order |
| Report.RoundAll | app.py:133 | the `round(val, 2)` comprehension has one entry per model output, and entry i is the rounding of output i |
| Report.FileName | app.py:147 | the download name starts with `pollution_prediction_` followed by the station id and ends with `.csv`; `ParseFileNameInverse` and `FileNameInjective` show it determines the station id and the year |
| Report.ParseFileNameInverse | app.py:147 | the name `pollution_prediction_<station>_<year>.csv` gives back its station id and year, even when the station id contains `_` |
| Report.FileNameInjective | app.py:147 | two submissions with the same download name have the same station id and the same year |
| Report.Tabulate | app.py:129-134 | from the model's outputs: a length error exactly when there are not nine outputs, otherwise a nine-row table whose row i pairs pollutant i with the rounded output i; never the warning |
| Report.Respond | app.py:116-134 | the answer to one submission is the warning exactly when the station id is empty, and any table it carries has the nine pollutants as its rows, in order (see also `WarningIffEmptyStation`, `PredictedTable`, `MismatchedOutputs`) |
| Report.WarningIffEmptyStation | app.py:116-118 | the missing-station warning is the answer exactly when the station id is empty, whatever the model would predict; no table and no download name are built then |
| Report.PredictedTable | app.py:119-134 | for a non-empty station id and a model with nine outputs, the answer is a nine-row table whose row i pairs pollutant i with the rounded output i, and whose download name gives back the station id and the year |
| Report.MismatchedOutputs | app.py:129-134 | a model whose output count is not nine gives no table: the table constructor rejects the mismatched columns |
| Report.Submit | app.py:116-147 | the submission handler, with the step-by-step alignment, gives exactly the answer `Respond` specifies |

## Left out

- Page setup, styling, layout, tabs, spinner, success message, data-frame display, bar chart and the download-button widget (app.py:8-98, 105-114, 136-141, 144-146, 148-173) are user interface with no logic to state.
- Loading the model and the schema from their files (app.py:101-102) is file I/O into an opaque artifact. The schema is a parameter (`modelCols`). Failing to load is not modelled.
- `model.predict` (app.py:129) calls into a trained regressor whose code is not part of this model. It is the parameter `predict`, which takes the feature vector and returns the first output row.
- `round(val, 2)` (app.py:133) is floating-point rounding. It is the parameter `round`, and values have the abstract type `V`.
- Writing the table to CSV text in memory (app.py:142-143) depends on pandas' quoting and number formatting, so it is not modelled. `ResultTableColumns` states the two columns of the in-memory table; the CSV text and reading it back are not modelled.
- pandas' column types are not modelled. The indicator `True` produced by one-hot encoding is the integer 1.
- Calling the page twice with the same inputs gives the same answer. In this model that holds by construction, because every function is deterministic, so no separate lemma states it.
