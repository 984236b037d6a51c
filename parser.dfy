/**
 * The workout CSV aggregator of data/parser.py (`parse_csv` and
 * `generate_unique_name`), starting from the table pandas has already read.
 *
 * `parse_csv` keeps the rows whose raw `Exercise` cell equals the chosen
 * exercise, normalises the header names, totals the weight, reps and sets of
 * the kept rows, and writes a fixed-layout description with one line per
 * recognised metric column. Anything that raises yields one fixed fallback.
 */
module Parser {
  import opened Wrappers
  import opened Text

  // ---------------------------------------------------------------------------
  // The table

  /** One cell as read from the CSV: its text, or a missing value (pandas' NaN). */
  datatype Cell = Filled(text: string) | Empty

  /** Header names and rows; cell i of a row sits under column i. */
  datatype Frame = Frame(columns: seq<string>, rows: seq<seq<Cell>>)

  /** A row shorter than the header reads as missing values past its end. */
  function CellAt(row: seq<Cell>, i: nat): Cell {
    if i < |row| then row[i] else Empty
  }

  /** The position of the first column called `name`. */
  function IndexOf(cols: seq<string>, name: string): (r: Option<nat>)
    ensures r.None? <==> name !in cols
    ensures r.Some? ==> r.value < |cols| && cols[r.value] == name && name !in cols[..r.value]
  {
    if cols == [] then None
    else if cols[0] == name then Some(0)
    else
      match IndexOf(cols[1..], name)
      case None => None
      case Some(i) =>
        assert cols[..i + 1] == [cols[0]] + cols[1..][..i];
        Some(i + 1)
  }

  // ---------------------------------------------------------------------------
  // The exercise filter (line 76), applied to the raw header names

  predicate Matches(row: seq<Cell>, exercise: nat, activity: Option<string>) {
    activity.Some? && CellAt(row, exercise) == Filled(activity.value)
  }

  /** `df[df['Exercise'] == activity_name]`: a missing cell and `None` match nothing. */
  function Select(rows: seq<seq<Cell>>, exercise: nat, activity: Option<string>): (r: seq<seq<Cell>>)
    ensures |r| <= |rows|
    ensures forall row :: row in r <==> row in rows && Matches(row, exercise, activity)
    decreases |rows|
  {
    if rows == [] then []
    else (if Matches(rows[0], exercise, activity) then [rows[0]] else []) + Select(rows[1..], exercise, activity)
  }

  /** Filtering what is already filtered keeps every row. */
  lemma {:induction false} SelectIdempotent(rows: seq<seq<Cell>>, exercise: nat, activity: Option<string>)
    ensures Select(Select(rows, exercise, activity), exercise, activity) == Select(rows, exercise, activity)
    decreases |rows|
  {
    if rows != [] {
      var rest := Select(rows[1..], exercise, activity);
      SelectIdempotent(rows[1..], exercise, activity);
      if Matches(rows[0], exercise, activity) {
        assert Select(rows, exercise, activity) == [rows[0]] + rest;
        assert ([rows[0]] + rest)[1..] == rest;
      } else {
        assert Select(rows, exercise, activity) == rest;
      }
    }
  }

  /** The filter goes row by row: filtering a concatenation filters each part, in order. */
  lemma {:induction false} SelectAppend(a: seq<seq<Cell>>, b: seq<seq<Cell>>, exercise: nat, activity: Option<string>)
    ensures Select(a + b, exercise, activity) == Select(a, exercise, activity) + Select(b, exercise, activity)
    decreases |a|
  {
    if a == [] {
      assert a + b == b;
    } else {
      assert (a + b)[0] == a[0] && (a + b)[1..] == a[1..] + b;
      SelectAppend(a[1..], b, exercise, activity);
      ConcatAssoc(if Matches(a[0], exercise, activity) then [a[0]] else [],
                  Select(a[1..], exercise, activity), Select(b, exercise, activity));
    }
  }

  /** Appending a row the filter accepts keeps it, once, at the end. */
  lemma SelectKeepsRow(rows: seq<seq<Cell>>, row: seq<Cell>, exercise: nat, activity: Option<string>)
    requires Matches(row, exercise, activity)
    ensures Select(rows + [row], exercise, activity) == Select(rows, exercise, activity) + [row]
  {
    SelectAppend(rows, [row], exercise, activity);
    assert Select([row], exercise, activity) == [row] + Select([row][1..], exercise, activity);
  }

  // ---------------------------------------------------------------------------
  // Header normalisation (line 80)

  /** `col.strip().replace(' ', '').replace('(kg)', 'kg')`: the result holds no space. */
  function NormalizeColumn(col: string): (r: string)
    ensures ' ' !in r
  {
    var stripped := Strip(col);
    var spaceless := Replace(stripped, " ", "");
    RemoveCharRemovesAll(stripped, ' ');
    ReplaceKeepsAbsentChar(spaceless, "(kg)", "kg", ' ');
    Replace(spaceless, "(kg)", "kg")
  }

  function NormalizeColumns(cols: seq<string>): seq<string> {
    seq(|cols|, i requires 0 <= i < |cols| => NormalizeColumn(cols[i]))
  }

  /** A name that starts with no white space and holds no space and no `(`, followed by
      " (kg)", loses the space and the brackets: "Weight (kg)" becomes "Weightkg". */
  lemma NormalizeUnitSuffix(w: string)
    requires w != [] && !IsSpace(w[0]) && ' ' !in w && '(' !in w
    ensures NormalizeColumn(w + " (kg)") == w + "kg"
  {
    StripUnitSuffix(w);
    SpacelessUnit(w);
    NormalizeSteps(w + " (kg)", w + " (kg)", w + "(kg)");
    UnitBrackets(w);
  }

  /** `NormalizeColumn` one step at a time. */
  lemma NormalizeSteps(col: string, stripped: string, spaceless: string)
    requires Strip(col) == stripped && Replace(stripped, " ", "") == spaceless
    ensures NormalizeColumn(col) == Replace(spaceless, "(kg)", "kg")
  {
  }

  lemma SpacelessUnit(w: string)
    requires ' ' !in w
    ensures Replace(w + " (kg)", " ", "") == w + "(kg)"
  {
    ReplaceSplit(w, " (kg)", " ", "");
    DropUnitSpace();
  }

  lemma UnitBrackets(w: string)
    requires '(' !in w
    ensures Replace(w + "(kg)", "(kg)", "kg") == w + "kg"
  {
    ReplaceSplit(w, "(kg)", "(kg)", "kg");
    ReplaceSelf("(kg)", "kg");
  }

  lemma StripUnitSuffix(w: string)
    requires w != [] && !IsSpace(w[0])
    ensures Strip(w + " (kg)") == w + " (kg)"
  {
    var s := w + " (kg)";
    assert s[0] == w[0] && s[|s| - 1] == ')';
  }

  lemma DropUnitSpace()
    ensures Replace(" (kg)", " ", "") == "(kg)"
  {
    var k := "(kg)";
    assert " (kg)" == " " + k;
    ReplaceLeading(" ", k, "");
    ReplaceWithoutFirstChar(k, " ", "");
    assert "" + k == k;
  }

  /** A name without white space and without `(` is left as it is. */
  lemma NormalizePlainName(col: string)
    requires forall i :: 0 <= i < |col| ==> !IsSpace(col[i]) && col[i] != '('
    ensures NormalizeColumn(col) == col
  {
    PlainEnds(col);
    PlainSpaceless(col);
    NormalizeSteps(col, col, col);
    ReplaceWithoutFirstChar(col, "(kg)", "kg");
  }

  lemma PlainEnds(col: string)
    requires forall i :: 0 <= i < |col| ==> !IsSpace(col[i])
    ensures Strip(col) == col
  {
    if col != [] {
      assert !IsSpace(col[0]) && !IsSpace(col[|col| - 1]);
    }
  }

  lemma PlainSpaceless(col: string)
    requires forall i :: 0 <= i < |col| ==> !IsSpace(col[i])
    ensures Replace(col, " ", "") == col
  {
    assert ' ' !in col by {
      forall i | 0 <= i < |col| ensures col[i] != ' ' { assert !IsSpace(col[i]); }
    }
    ReplaceWithoutFirstChar(col, " ", "");
  }

  // ---------------------------------------------------------------------------
  // Totals (lines 82-97)

  /** What makes `parse_csv` fall back: a missing `Exercise` column, or a kept cell that does not
      parse as a number. */
  datatype ParseError = MissingExerciseColumn | BadWeight(cell: string) | BadReps(cell: string)

  datatype Totals = Totals(weight: real, sets: nat, reps: int)

  /** Lines 83-87: `Load` is looked up before `Weightkg`. */
  function WeightColumn(cols: seq<string>): (r: Option<string>)
    ensures r.Some? ==> r.value in cols
    ensures r.None? <==> "Load" !in cols && "Weightkg" !in cols
    ensures "Load" in cols ==> r == Some("Load")
    ensures "Load" !in cols && "Weightkg" in cols ==> r == Some("Weightkg")
  {
    if "Load" in cols then Some("Load")
    else if "Weightkg" in cols then Some("Weightkg")
    else None
  }

  /** Line 96: `Reps` is looked up before `Rep`. */
  function RepsColumn(cols: seq<string>): (r: Option<string>)
    ensures r.Some? ==> r.value in cols
    ensures r.None? <==> "Reps" !in cols && "Rep" !in cols
    ensures "Reps" in cols ==> r == Some("Reps")
    ensures "Reps" !in cols && "Rep" in cols ==> r == Some("Rep")
  {
    if "Reps" in cols then Some("Reps")
    else if "Rep" in cols then Some("Rep")
    else None
  }

  /** One weight cell after `astype(str).str.replace('kg', '').astype(float)`; a missing cell
      turns into NaN, which `sum` skips. */
  function CellWeight(c: Cell): (r: Result<real, ParseError>)
    ensures c.Empty? ==> r == Success(0.0)
    ensures r.Failure? ==> c.Filled? && r.error == BadWeight(c.text)
  {
    match c
    case Empty => Success(0.0)
    case Filled(t) =>
      match ParseFloat(Replace(t, "kg", ""))
      case Some(v) => Success(v)
      case None => Failure(BadWeight(t))
  }

  /** One reps cell as a number; a missing cell is skipped by `sum`. */
  function CellReps(c: Cell): (r: Result<int, ParseError>)
    ensures c.Empty? ==> r == Success(0)
    ensures r.Failure? ==> c.Filled? && r.error == BadReps(c.text)
  {
    match c
    case Empty => Success(0)
    case Filled(t) =>
      match ParseInt(t)
      case Some(v) => Success(v)
      case None => Failure(BadReps(t))
  }

  /** `df[col].sum()` over converted cells: the first cell that does not convert makes it fail. */
  function SumColumn(rows: seq<seq<Cell>>, col: nat, convert: Cell -> Result<real, ParseError>): Result<real, ParseError>
    decreases |rows|
  {
    if rows == [] then Success(0.0)
    else
      var x :- convert(CellAt(rows[0], col));
      var rest :- SumColumn(rows[1..], col, convert);
      Success(x + rest)
  }

  /** The same for a column of whole numbers. */
  function SumIntColumn(rows: seq<seq<Cell>>, col: nat, convert: Cell -> Result<int, ParseError>): Result<int, ParseError>
    decreases |rows|
  {
    if rows == [] then Success(0)
    else
      var x :- convert(CellAt(rows[0], col));
      var rest :- SumIntColumn(rows[1..], col, convert);
      Success(x + rest)
  }

  /** The sum exists exactly when every cell of the column converts. */
  lemma {:induction false} SumColumnDefined(rows: seq<seq<Cell>>, col: nat, convert: Cell -> Result<real, ParseError>)
    ensures SumColumn(rows, col, convert).Success? <==> forall i :: 0 <= i < |rows| ==> convert(CellAt(rows[i], col)).Success?
    decreases |rows|
  {
    if rows != [] {
      SumColumnDefined(rows[1..], col, convert);
      assert forall i :: 1 <= i < |rows| ==> rows[i] == rows[1..][i - 1];
    }
  }

  /** The same for a column of whole numbers. */
  lemma {:induction false} SumIntColumnDefined(rows: seq<seq<Cell>>, col: nat, convert: Cell -> Result<int, ParseError>)
    ensures SumIntColumn(rows, col, convert).Success? <==> forall i :: 0 <= i < |rows| ==> convert(CellAt(rows[i], col)).Success?
    decreases |rows|
  {
    if rows != [] {
      SumIntColumnDefined(rows[1..], col, convert);
      assert forall i :: 1 <= i < |rows| ==> rows[i] == rows[1..][i - 1];
    }
  }

  /** Column sums add up over any split of the rows. */
  lemma {:induction false} SumColumnAppend(a: seq<seq<Cell>>, b: seq<seq<Cell>>, col: nat, convert: Cell -> Result<real, ParseError>)
    requires SumColumn(a, col, convert).Success? && SumColumn(b, col, convert).Success?
    ensures SumColumn(a + b, col, convert) == Success(SumColumn(a, col, convert).value + SumColumn(b, col, convert).value)
    decreases |a|
  {
    if a == [] {
      assert a + b == b;
    } else {
      assert (a + b)[0] == a[0] && (a + b)[1..] == a[1..] + b;
      SumColumnAppend(a[1..], b, col, convert);
    }
  }

  /** The same for a column of whole numbers. */
  lemma {:induction false} SumIntColumnAppend(a: seq<seq<Cell>>, b: seq<seq<Cell>>, col: nat, convert: Cell -> Result<int, ParseError>)
    requires SumIntColumn(a, col, convert).Success? && SumIntColumn(b, col, convert).Success?
    ensures SumIntColumn(a + b, col, convert) == Success(SumIntColumn(a, col, convert).value + SumIntColumn(b, col, convert).value)
    decreases |a|
  {
    if a == [] {
      assert a + b == b;
    } else {
      assert (a + b)[0] == a[0] && (a + b)[1..] == a[1..] + b;
      SumIntColumnAppend(a[1..], b, col, convert);
    }
  }

  /** The distinct texts of a column; missing cells are not counted (`nunique`). */
  function DistinctValues(rows: seq<seq<Cell>>, col: nat): (r: set<string>)
    ensures |r| <= |rows|
    ensures forall t :: t in r <==> exists i :: 0 <= i < |rows| && CellAt(rows[i], col) == Filled(t)
    decreases |rows|
  {
    if rows == [] then {}
    else
      var rest := DistinctValues(rows[1..], col);
      assert forall i :: 1 <= i < |rows| ==> rows[i] == rows[1..][i - 1];
      match CellAt(rows[0], col)
      case Empty => rest
      case Filled(t) => {t} + rest
  }

  /** Lines 89-93: the weight total, 0 when neither weight column exists; it can only fail on a
      weight cell. */
  function TotalWeight(cols: seq<string>, rows: seq<seq<Cell>>): (r: Result<real, ParseError>)
    ensures WeightColumn(cols).None? ==> r == Success(0.0)
    ensures r.Failure? ==> r.error.BadWeight?
  {
    match WeightColumn(cols)
    case None => Success(0.0)
    case Some(name) =>
      var col := IndexOf(cols, name).value;
      SumColumnErrors(rows, col, CellWeight);
      SumColumn(rows, col, CellWeight)
  }

  /** Line 96: the reps total, 0 when neither reps column exists; it can only fail on a reps
      cell. */
  function TotalReps(cols: seq<string>, rows: seq<seq<Cell>>): (r: Result<int, ParseError>)
    ensures RepsColumn(cols).None? ==> r == Success(0)
    ensures r.Failure? ==> r.error.BadReps?
  {
    match RepsColumn(cols)
    case None => Success(0)
    case Some(name) =>
      var col := IndexOf(cols, name).value;
      SumIntColumnErrors(rows, col, CellReps);
      SumIntColumn(rows, col, CellReps)
  }

  /** Line 97: distinct `Set` values, or the number of rows; never more than the rows. */
  function TotalSets(cols: seq<string>, rows: seq<seq<Cell>>): (r: nat)
    ensures r <= |rows|
    ensures "Set" !in cols ==> r == |rows|
    ensures "Set" in cols ==>
      r == |set i | 0 <= i < |rows| && CellAt(rows[i], IndexOf(cols, "Set").value).Filled? :: CellAt(rows[i], IndexOf(cols, "Set").value).text|
  {
    match IndexOf(cols, "Set")
    case None => |rows|
    case Some(i) =>
      assert DistinctValues(rows, i) == set j | 0 <= j < |rows| && CellAt(rows[j], i).Filled? :: CellAt(rows[j], i).text;
      |DistinctValues(rows, i)|
  }

  /** The index of the raw `Exercise` column, if there is one. */
  function ExerciseIndex(f: Frame): Option<nat> {
    IndexOf(f.columns, "Exercise")
  }

  /** The rows the filter of line 76 keeps. */
  function SelectedRows(f: Frame, activity: Option<string>): seq<seq<Cell>> {
    match ExerciseIndex(f)
    case None => []
    case Some(ex) => Select(f.rows, ex, activity)
  }

  /** Lines 73-97: the filter runs on the raw header, every other lookup on the normalised one. */
  function Aggregate(f: Frame, activity: Option<string>): (r: Result<Totals, ParseError>)
    ensures r.Success? ==> r.value.sets <= |SelectedRows(f, activity)|
    ensures r.Failure? ==> r.error == MissingExerciseColumn || r.error.BadWeight? || r.error.BadReps?
    ensures r.Success? ==> r.value.sets == TotalSets(NormalizeColumns(f.columns), SelectedRows(f, activity))
  {
    if ExerciseIndex(f).None? then Failure(MissingExerciseColumn)
    else
      var rows := SelectedRows(f, activity);
      var cols := NormalizeColumns(f.columns);
      var weight :- TotalWeight(cols, rows);
      var reps :- TotalReps(cols, rows);
      Success(Totals(weight, TotalSets(cols, rows), reps))
  }

  // ---------------------------------------------------------------------------
  // The description (lines 100-125)

  /** A recognised metric column with its display name, unit and decimal places. */
  datatype Metric = Metric(column: string, name: string, units: string, decimals: nat)

  /** The metric table of lines 100-110, in its order. */
  const Metrics: seq<Metric> := [
    Metric("Average", "Mean Velocity", "m/s", 2),
    Metric("MeanVelocity(m/s)", "Mean Velocity", "m/s", 2),
    Metric("Best", "Peak Velocity", "m/s", 2),
    Metric("PeakVelocity(m/s)", "Peak Velocity", "m/s", 2),
    Metric("MeanPower(W)", "Mean Power", "W", 0),
    Metric("PeakPower(W)", "Peak Power", "W", 0),
    Metric("Height(cm)", "Height", "cm", 2),
    Metric("VerticalDistance(cm)", "Vertical Distance", "cm", 2)
  ]

  /** The mean of the named column printed with the given number of decimals,
      `f"{df[col].mean():.{decimals}f}"`, which the model does not compute. */
  type MeanText = (string, nat) -> string

  /** Lines 113-119: the block in front of the metric lines; the total weight is not in it. */
  function Header(activity: Option<string>, sets: nat, reps: int): string {
    "Workout Summary\n\n"
      + "- Exercise: " + Format(activity) + "\n"
      + "- Sets: " + IntToString(sets) + "\n"
      + "- Reps: " + IntToString(reps) + "\n\n"
      + "Performance Metrics\n"
  }

  /** Line 125. */
  function MetricLine(m: Metric, meanText: MeanText): string {
    "- **" + m.name + ":** " + meanText(m.column, m.decimals) + " " + m.units + "\n"
  }

  /** The metrics of `ms` whose column is among `cols`, in the order of `ms`. */
  function Present(ms: seq<Metric>, cols: seq<string>): (r: seq<Metric>)
    ensures |r| <= |ms|
    decreases |ms|
  {
    if ms == [] then []
    else Present(ms[..|ms| - 1], cols) + (if ms[|ms| - 1].column in cols then [ms[|ms| - 1]] else [])
  }

  /** A metric is selected exactly when it is in the table and its column is in the frame. */
  lemma {:induction false} PresentMembers(ms: seq<Metric>, cols: seq<string>, m: Metric)
    ensures m in Present(ms, cols) <==> m in ms && m.column in cols
    decreases |ms|
  {
    if ms != [] {
      var front := ms[..|ms| - 1];
      assert ms == front + [ms[|ms| - 1]];
      PresentMembers(front, cols, m);
    }
  }

  /** One more table entry adds its line exactly when its column is present. */
  lemma PresentSnoc(ms: seq<Metric>, m: Metric, cols: seq<string>)
    ensures Present(ms + [m], cols) == Present(ms, cols) + (if m.column in cols then [m] else [])
  {
    assert (ms + [m])[..|ms|] == ms;
  }

  function Lines(ms: seq<Metric>, meanText: MeanText): string
    decreases |ms|
  {
    if ms == [] then "" else Lines(ms[..|ms| - 1], meanText) + MetricLine(ms[|ms| - 1], meanText)
  }

  lemma LinesSnoc(ms: seq<Metric>, m: Metric, meanText: MeanText)
    ensures Lines(ms + [m], meanText) == Lines(ms, meanText) + MetricLine(m, meanText)
  {
    assert (ms + [m])[..|ms|] == ms;
  }

  function Description(activity: Option<string>, sets: nat, reps: int, cols: seq<string>, meanText: MeanText): string {
    Header(activity, sets, reps) + Lines(Present(Metrics, cols), meanText)
  }

  lemma ConcatAssoc<T>(a: seq<T>, b: seq<T>, c: seq<T>)
    ensures a + (b + c) == (a + b) + c
  {
  }

  /** Lines 123-125: one line per entry of `table` whose column the frame has, appended in table order. */
  method AppendMetricLines(text: string, table: seq<Metric>, cols: seq<string>, meanText: MeanText)
    returns (description: string)
    ensures description == text + Lines(Present(table, cols), meanText)
  {
    description := text;
    var i := 0;
    while i < |table|
      invariant 0 <= i <= |table|
      invariant description == text + Lines(Present(table[..i], cols), meanText)
    {
      MetricStep(text, table, i, cols, meanText);
      if table[i].column in cols {
        description := description + MetricLine(table[i], meanText);
      }
      i := i + 1;
    }
    assert table[..|table|] == table;
  }

  /** One step of the loop: entry i adds its line exactly when its column is present. */
  lemma MetricStep(text: string, table: seq<Metric>, i: nat, cols: seq<string>, meanText: MeanText)
    requires i < |table|
    ensures text + Lines(Present(table[..i + 1], cols), meanText)
         == text + Lines(Present(table[..i], cols), meanText)
            + (if table[i].column in cols then MetricLine(table[i], meanText) else "")
  {
    var m := table[i];
    var done := Present(table[..i], cols);
    assert table[..i + 1] == table[..i] + [m];
    PresentSnoc(table[..i], m, cols);
    if m.column in cols {
      LinesSnoc(done, m, meanText);
      ConcatAssoc(text, Lines(done, meanText), MetricLine(m, meanText));
    } else {
      assert done + [] == done;
      assert text + Lines(done, meanText) + "" == text + Lines(done, meanText);
    }
  }

  /** Lines 113-125: the header, then the lines of the metric table. */
  method BuildDescription(activity: Option<string>, sets: nat, reps: int, cols: seq<string>, meanText: MeanText)
    returns (description: string)
    ensures description == Description(activity, sets, reps, cols, meanText)
  {
    description := AppendMetricLines(Header(activity, sets, reps), Metrics, cols, meanText);
  }

  /** Splitting the table splits the selected metrics. */
  lemma {:induction false} PresentAppend(a: seq<Metric>, b: seq<Metric>, cols: seq<string>)
    ensures Present(a + b, cols) == Present(a, cols) + Present(b, cols)
    decreases |b|
  {
    if b == [] {
      assert a + b == a;
    } else {
      var b' := b[..|b| - 1];
      assert (a + b)[..|a + b| - 1] == a + b';
      assert (a + b)[|a + b| - 1] == b[|b| - 1];
      PresentAppend(a, b', cols);
    }
  }

  /** The lines of two runs of metrics are the lines of the first, then those of the second. */
  lemma {:induction false} LinesAppend(a: seq<Metric>, b: seq<Metric>, meanText: MeanText)
    ensures Lines(a + b, meanText) == Lines(a, meanText) + Lines(b, meanText)
    decreases |b|
  {
    if b == [] {
      assert a + b == a;
      assert Lines(a, meanText) + "" == Lines(a, meanText);
    } else {
      var b' := b[..|b| - 1];
      assert (a + b)[..|a + b| - 1] == a + b';
      assert (a + b)[|a + b| - 1] == b[|b| - 1];
      LinesAppend(a, b', meanText);
      var last := MetricLine(b[|b| - 1], meanText);
      assert Lines(a + b, meanText) == Lines(a + b', meanText) + last;
      assert Lines(b, meanText) == Lines(b', meanText) + last;
      ConcatAssoc(Lines(a, meanText), Lines(b', meanText), last);
    }
  }

  /** The lines of a table are those of its first `k` entries, then those of the rest. */
  lemma LinesSplit(ms: seq<Metric>, cols: seq<string>, meanText: MeanText, k: nat)
    requires k <= |ms|
    ensures Lines(Present(ms, cols), meanText)
         == Lines(Present(ms[..k], cols), meanText) + Lines(Present(ms[k..], cols), meanText)
  {
    assert ms == ms[..k] + ms[k..];
    PresentAppend(ms[..k], ms[k..], cols);
    LinesAppend(Present(ms[..k], cols), Present(ms[k..], cols), meanText);
  }

  /** Metric lines follow table order: those of the first k entries come before the rest. */
  lemma DescriptionInTableOrder(activity: Option<string>, sets: nat, reps: int, cols: seq<string>, meanText: MeanText, k: nat)
    requires k <= |Metrics|
    ensures Description(activity, sets, reps, cols, meanText)
         == Header(activity, sets, reps) + (Lines(Present(Metrics[..k], cols), meanText) + Lines(Present(Metrics[k..], cols), meanText))
  {
    LinesSplit(Metrics, cols, meanText, k);
  }

  /** When the first two table entries are both present, their lines open the metric block. */
  lemma LinesFirstTwo(ms: seq<Metric>, cols: seq<string>, meanText: MeanText)
    requires |ms| >= 2 && ms[0].column in cols && ms[1].column in cols
    ensures Lines(Present(ms, cols), meanText)
         == MetricLine(ms[0], meanText) + MetricLine(ms[1], meanText) + Lines(Present(ms[2..], cols), meanText)
  {
    LinesSplit(ms, cols, meanText, 2);
    assert ms[..2][..1] == [ms[0]];
    assert [ms[0]][..0] == [];
    var pair := [ms[0], ms[1]];
    assert Present(ms[..2], cols) == pair;
    assert pair[..1] == [ms[0]];
    assert Lines([ms[0]], meanText) == "" + MetricLine(ms[0], meanText);
    assert "" + MetricLine(ms[0], meanText) == MetricLine(ms[0], meanText);
  }

  /** The first two entries of the table both print as "Mean Velocity" lines. */
  lemma MeanVelocityLines(meanText: MeanText)
    ensures MetricLine(Metrics[0], meanText)
         == "- **" + "Mean Velocity" + ":** " + meanText("Average", 2) + " " + "m/s" + "\n"
    ensures MetricLine(Metrics[1], meanText)
         == "- **" + "Mean Velocity" + ":** " + meanText("MeanVelocity(m/s)", 2) + " " + "m/s" + "\n"
  {
    assert Metrics[0] == Metric("Average", "Mean Velocity", "m/s", 2);
    assert Metrics[1] == Metric("MeanVelocity(m/s)", "Mean Velocity", "m/s", 2);
  }

  /** With both an `Average` and a `MeanVelocity(m/s)` column, the description carries two
      "Mean Velocity" lines, one for each, straight after the header. */
  lemma MeanVelocityTwice(activity: Option<string>, sets: nat, reps: int, cols: seq<string>, meanText: MeanText)
    requires "Average" in cols && "MeanVelocity(m/s)" in cols
    ensures exists rest ::
      (Description(activity, sets, reps, cols, meanText)
         == Header(activity, sets, reps)
            + ("- **" + "Mean Velocity" + ":** " + meanText("Average", 2) + " " + "m/s" + "\n")
            + ("- **" + "Mean Velocity" + ":** " + meanText("MeanVelocity(m/s)", 2) + " " + "m/s" + "\n")
            + rest)
  {
    var table := Metrics;
    LinesFirstTwo(table, cols, meanText);
    MeanVelocityLines(meanText);
    var rest := Lines(Present(table[2..], cols), meanText);
    var header := Header(activity, sets, reps);
    var first, second := MetricLine(table[0], meanText), MetricLine(table[1], meanText);
    assert Description(activity, sets, reps, cols, meanText) == header + (first + second + rest);
    ConcatAssoc(header, first + second, rest);
    ConcatAssoc(header, first, second);
  }

  // ---------------------------------------------------------------------------
  // parse_csv (lines 70-134)

  /** The tuple `(description, elapsed_time, total_weight, total_sets, total_reps)`. */
  datatype Summary = Summary(description: string, elapsed: int, weight: real, sets: int, reps: int)

  /** Line 134: what every exception turns into. */
  const Fallback := Summary("Error parsing workout data", 60, 0.0, 0, 0)

  /** Lines 70-134, step by step: filter, rename the columns, total, describe; any error on
      the way returns the fallback. */
  method ParseCsv(frame: Frame, activity: Option<string>, meanText: MeanText) returns (r: Summary)
    ensures Aggregate(frame, activity).Failure? ==> r == Fallback
    ensures Aggregate(frame, activity).Success? ==>
      var t := Aggregate(frame, activity).value;
      r == Summary(Description(activity, t.sets, t.reps, NormalizeColumns(frame.columns), meanText),
                   0, t.weight, t.sets, t.reps)
  {
    var exercise := ExerciseIndex(frame);
    if exercise.None? {
      return Fallback;
    }
    var rows := Select(frame.rows, exercise.value, activity);
    var cols := NormalizeColumns(frame.columns);
    var totalWeight := 0.0;
    var weightCol := WeightColumn(cols);
    if weightCol.Some? {
      var sum := SumColumn(rows, IndexOf(cols, weightCol.value).value, CellWeight);
      if sum.Failure? {
        return Fallback;
      }
      totalWeight := sum.value;
    }
    var reps := TotalReps(cols, rows);
    if reps.Failure? {
      return Fallback;
    }
    var totalSets := TotalSets(cols, rows);
    var description := BuildDescription(activity, totalSets, reps.value, cols, meanText);
    r := Summary(description, 0, totalWeight, totalSets, reps.value);
  }

  // ---------------------------------------------------------------------------
  // Properties of the totals

  /** The only error that is not about a cell is the missing `Exercise` column, and it is
      reported exactly when the raw header lacks that name (" Exercise" does not count). */
  lemma MissingExerciseIff(f: Frame, activity: Option<string>)
    ensures Aggregate(f, activity) == Failure(MissingExerciseColumn) <==> "Exercise" !in f.columns
  {
  }

  /** A failing sum reports the error of one of its cells. */
  lemma {:induction false} SumColumnErrors(rows: seq<seq<Cell>>, col: nat, convert: Cell -> Result<real, ParseError>)
    ensures SumColumn(rows, col, convert).Failure? ==>
      exists i :: 0 <= i < |rows| && convert(CellAt(rows[i], col)) == Failure(SumColumn(rows, col, convert).error)
    decreases |rows|
  {
    if rows != [] && convert(CellAt(rows[0], col)).Success? {
      SumColumnErrors(rows[1..], col, convert);
      if SumColumn(rows, col, convert).Failure? {
        var i :| 0 <= i < |rows[1..]| && convert(CellAt(rows[1..][i], col)) == Failure(SumColumn(rows[1..], col, convert).error);
        assert rows[1..][i] == rows[i + 1];
      }
    }
  }

  /** The same for a column of whole numbers. */
  lemma {:induction false} SumIntColumnErrors(rows: seq<seq<Cell>>, col: nat, convert: Cell -> Result<int, ParseError>)
    ensures SumIntColumn(rows, col, convert).Failure? ==>
      exists i :: 0 <= i < |rows| && convert(CellAt(rows[i], col)) == Failure(SumIntColumn(rows, col, convert).error)
    decreases |rows|
  {
    if rows != [] && convert(CellAt(rows[0], col)).Success? {
      SumIntColumnErrors(rows[1..], col, convert);
      if SumIntColumn(rows, col, convert).Failure? {
        var i :| 0 <= i < |rows[1..]| && convert(CellAt(rows[1..][i], col)) == Failure(SumIntColumn(rows[1..], col, convert).error);
        assert rows[1..][i] == rows[i + 1];
      }
    }
  }

  /** Appending a row the filter rejects leaves the kept rows as they were. */
  lemma {:induction false} SelectSkipsRow(rows: seq<seq<Cell>>, row: seq<Cell>, exercise: nat, activity: Option<string>)
    requires !Matches(row, exercise, activity)
    ensures Select(rows + [row], exercise, activity) == Select(rows, exercise, activity)
    decreases |rows|
  {
    if rows == [] {
      assert Select([row][1..], exercise, activity) == [];
    } else {
      assert (rows + [row])[0] == rows[0] && (rows + [row])[1..] == rows[1..] + [row];
      SelectSkipsRow(rows[1..], row, exercise, activity);
    }
  }

  /** Only rows whose raw `Exercise` cell equals the chosen name count: adding any other row
      changes none of the totals. */
  lemma OtherRowsIgnored(f: Frame, row: seq<Cell>, activity: Option<string>)
    requires "Exercise" in f.columns
    requires !Matches(row, IndexOf(f.columns, "Exercise").value, activity)
    ensures Aggregate(Frame(f.columns, f.rows + [row]), activity) == Aggregate(f, activity)
  {
    SelectSkipsRow(f.rows, row, IndexOf(f.columns, "Exercise").value, activity);
  }

  /** Running the aggregation on the rows it keeps gives the same totals. */
  lemma FilterIdempotent(f: Frame, activity: Option<string>)
    ensures Aggregate(Frame(f.columns, SelectedRows(f, activity)), activity) == Aggregate(f, activity)
  {
    if ExerciseIndex(f).Some? {
      SelectIdempotent(f.rows, ExerciseIndex(f).value, activity);
    }
  }

  /** The filter keeps nothing when no row matches. */
  lemma {:induction false} SelectNothing(rows: seq<seq<Cell>>, exercise: nat, activity: Option<string>)
    requires forall row :: row in rows ==> !Matches(row, exercise, activity)
    ensures Select(rows, exercise, activity) == []
    decreases |rows|
  {
    if rows != [] {
      assert rows[0] in rows;
      assert forall row :: row in rows[1..] ==> row in rows;
      SelectNothing(rows[1..], exercise, activity);
    }
  }

  /** A name that no row carries, and `None` in particular, gives zero weight, sets and reps. */
  lemma NoMatchGivesZero(f: Frame, activity: Option<string>)
    requires "Exercise" in f.columns
    requires forall row :: row in f.rows ==> !Matches(row, IndexOf(f.columns, "Exercise").value, activity)
    ensures Aggregate(f, activity) == Success(Totals(0.0, 0, 0))
  {
    SelectNothing(f.rows, IndexOf(f.columns, "Exercise").value, activity);
    var cols := NormalizeColumns(f.columns);
    assert SelectedRows(f, activity) == [];
    assert TotalWeight(cols, []) == Success(0.0);
    assert TotalReps(cols, []) == Success(0);
    assert TotalSets(cols, []) == 0;
  }

  /** `None`, which the app passes for "All Exercises", matches no row. */
  lemma NoneGivesZero(f: Frame)
    requires "Exercise" in f.columns
    ensures Aggregate(f, None) == Success(Totals(0.0, 0, 0))
  {
    NoMatchGivesZero(f, None);
  }

  /** Weight totals add up over a split of the rows. */
  lemma TotalWeightAppend(cols: seq<string>, a: seq<seq<Cell>>, b: seq<seq<Cell>>)
    requires TotalWeight(cols, a).Success? && TotalWeight(cols, b).Success?
    ensures TotalWeight(cols, a + b) == Success(TotalWeight(cols, a).value + TotalWeight(cols, b).value)
  {
    if WeightColumn(cols).Some? {
      SumColumnAppend(a, b, IndexOf(cols, WeightColumn(cols).value).value, CellWeight);
    }
  }

  /** Reps totals add up over a split of the rows. */
  lemma TotalRepsAppend(cols: seq<string>, a: seq<seq<Cell>>, b: seq<seq<Cell>>)
    requires TotalReps(cols, a).Success? && TotalReps(cols, b).Success?
    ensures TotalReps(cols, a + b) == Success(TotalReps(cols, a).value + TotalReps(cols, b).value)
  {
    if RepsColumn(cols).Some? {
      SumIntColumnAppend(a, b, IndexOf(cols, RepsColumn(cols).value).value, CellReps);
    }
  }

  /** The weight one row contributes: its converted cell, or 0 without the column. */
  lemma OneRowWeight(cols: seq<string>, row: seq<Cell>)
    ensures WeightColumn(cols).Some? ==>
      TotalWeight(cols, [row]) == CellWeight(CellAt(row, IndexOf(cols, WeightColumn(cols).value).value))
  {
    if WeightColumn(cols).Some? {
      var col := IndexOf(cols, WeightColumn(cols).value).value;
      assert [row][0] == row && [row][1..] == [];
      assert SumColumn([], col, CellWeight) == Success(0.0);
      match CellWeight(CellAt(row, col))
      case Failure(_) =>
      case Success(x) => assert SumColumn([row], col, CellWeight) == Success(x + 0.0);
    }
  }

  /** The reps one row contributes: its converted cell, or 0 without the column. */
  lemma OneRowReps(cols: seq<string>, row: seq<Cell>)
    ensures RepsColumn(cols).Some? ==>
      TotalReps(cols, [row]) == CellReps(CellAt(row, IndexOf(cols, RepsColumn(cols).value).value))
  {
    if RepsColumn(cols).Some? {
      var col := IndexOf(cols, RepsColumn(cols).value).value;
      assert [row][0] == row && [row][1..] == [];
      assert SumIntColumn([], col, CellReps) == Success(0);
      match CellReps(CellAt(row, col))
      case Failure(_) =>
      case Success(x) => assert SumIntColumn([row], col, CellReps) == Success(x + 0);
    }
  }

  /** A row of the chosen exercise counts: appended to the frame, it adds its own weight cell
      (0 without a weight column) and its own reps cell (0 without a reps column) to the totals. */
  lemma MatchingRowAdds(f: Frame, row: seq<Cell>, activity: Option<string>)
    requires "Exercise" in f.columns
    requires Matches(row, IndexOf(f.columns, "Exercise").value, activity)
    requires Aggregate(f, activity).Success?
    requires var cols := NormalizeColumns(f.columns);
      WeightColumn(cols).Some? ==> CellWeight(CellAt(row, IndexOf(cols, WeightColumn(cols).value).value)).Success?
    requires var cols := NormalizeColumns(f.columns);
      RepsColumn(cols).Some? ==> CellReps(CellAt(row, IndexOf(cols, RepsColumn(cols).value).value)).Success?
    ensures var cols := NormalizeColumns(f.columns);
            var before := Aggregate(f, activity).value;
            var after := Aggregate(Frame(f.columns, f.rows + [row]), activity);
            after.Success?
            && after.value.weight == before.weight +
                 (if WeightColumn(cols).Some?
                  then CellWeight(CellAt(row, IndexOf(cols, WeightColumn(cols).value).value)).value
                  else 0.0)
            && after.value.reps == before.reps +
                 (if RepsColumn(cols).Some?
                  then CellReps(CellAt(row, IndexOf(cols, RepsColumn(cols).value).value)).value
                  else 0)
  {
    var cols := NormalizeColumns(f.columns);
    var ex := IndexOf(f.columns, "Exercise").value;
    var rows := SelectedRows(f, activity);
    OneRowWeight(cols, row);
    OneRowReps(cols, row);
    SelectKeepsRow(f.rows, row, ex, activity);
    assert SelectedRows(Frame(f.columns, f.rows + [row]), activity) == rows + [row];
    TotalWeightAppend(cols, rows, [row]);
    TotalRepsAppend(cols, rows, [row]);
  }

  /** A trailing "kg" is dropped before the number is read: "50kg" weighs what "50" does. */
  lemma KgSuffixIgnored(t: string, v: real)
    requires 'k' !in t && ParseFloat(t) == Some(v)
    ensures CellWeight(Filled(t + "kg")) == Success(v)
  {
    RemoveTrailingPattern(t, "kg");
  }

  /** A kept weight cell that is no number makes the whole aggregation fail. */
  lemma BadWeightFails(f: Frame, activity: Option<string>, i: nat)
    requires "Exercise" in f.columns && WeightColumn(NormalizeColumns(f.columns)).Some?
    requires i < |SelectedRows(f, activity)|
    requires CellWeight(CellAt(SelectedRows(f, activity)[i],
                               IndexOf(NormalizeColumns(f.columns), WeightColumn(NormalizeColumns(f.columns)).value).value)).Failure?
    ensures Aggregate(f, activity).Failure?
  {
    var cols := NormalizeColumns(f.columns);
    SumColumnDefined(SelectedRows(f, activity), IndexOf(cols, WeightColumn(cols).value).value, CellWeight);
  }

  // ---------------------------------------------------------------------------
  // generate_unique_name (lines 137-138)

  /** The activity title: base name, weight and reps cut toward zero, sets as given. */
  function UniqueName(base: Option<string>, weight: real, sets: int, reps: real): string {
    Format(base) + " - " + IntToString(Trunc(weight)) + "kg TT " + IntToString(sets) + " Sets "
      + IntToString(Trunc(reps)) + " Reps"
  }

  /** What a title is made of. */
  datatype NameParts = NameParts(base: string, weight: int, sets: int, reps: int)

  /** The number of digits at the end of `s`. */
  function TrailingDigits(s: string): (n: nat)
    ensures n <= |s|
    decreases |s|
  {
    if s != [] && IsDigit(s[|s| - 1]) then 1 + TrailingDigits(s[..|s| - 1]) else 0
  }

  /** What `TrailingDigits` counts are digits, and the character before them is not one. */
  lemma {:induction false} TrailingDigitsSound(s: string)
    ensures AllDigits(s[|s| - TrailingDigits(s)..])
    ensures TrailingDigits(s) < |s| ==> !IsDigit(s[|s| - TrailingDigits(s) - 1])
    decreases |s|
  {
    if s != [] && IsDigit(s[|s| - 1]) {
      var front := s[..|s| - 1];
      TrailingDigitsSound(front);
      var n := TrailingDigits(s);
      assert n == 1 + TrailingDigits(front);
      var frontTail := front[|front| - (n - 1)..];
      assert s[|s| - n..] == frontTail + [s[|s| - 1]];
      AllDigitsSnoc(frontTail, s[|s| - 1]);
      if n < |s| {
        assert s[|s| - n - 1] == front[|front| - (n - 1) - 1];
      }
    }
  }

  lemma AllDigitsSnoc(a: string, c: char)
    requires AllDigits(a) && IsDigit(c)
    ensures AllDigits(a + [c])
  {
    var t := a + [c];
    forall i | 0 <= i < |t| ensures IsDigit(t[i]) {
      if i < |a| {
        assert t[i] == a[i];
      }
    }
  }

  /** `s` without the suffix `suffix`, if it ends with it. */
  function DropSuffix(s: string, suffix: string): (r: Option<string>)
    ensures r.Some? <==> |suffix| <= |s| && s[|s| - |suffix|..] == suffix
    ensures r.Some? ==> r.value + suffix == s
  {
    if |suffix| <= |s| && s[|s| - |suffix|..] == suffix then
      assert s[..|s| - |suffix|] + s[|s| - |suffix|..] == s;
      Some(s[..|s| - |suffix|])
    else None
  }

  /** Text and the whole number written at its end. */
  datatype Split = Split(prefix: string, value: int)

  /** Reads an integer, with an optional minus sign, off the end of `s`. */
  function SplitTrailingInt(s: string): Option<Split> {
    var n := TrailingDigits(s);
    TrailingDigitsSound(s);
    if n == 0 then None
    else
      var front, digits := s[..|s| - n], s[|s| - n..];
      if front != [] && front[|front| - 1] == '-' then
        Some(Split(front[..|front| - 1], -(DigitsValue(digits) as int)))
      else Some(Split(front, DigitsValue(digits)))
  }

  /** Takes a title apart from its end; the base name may hold anything. */
  function ParseUniqueName(name: string): Option<NameParts> {
    var beforeReps :- DropSuffix(name, " Reps");
    var reps :- SplitTrailingInt(beforeReps);
    var beforeSets :- DropSuffix(reps.prefix, " Sets ");
    var sets :- SplitTrailingInt(beforeSets);
    var beforeWeight :- DropSuffix(sets.prefix, "kg TT ");
    var weight :- SplitTrailingInt(beforeWeight);
    var base :- DropSuffix(weight.prefix, " - ");
    Some(NameParts(base, weight.value, sets.value, reps.value))
  }

  /** Digits appended to text that ends in anything but a digit are exactly the trailing digits. */
  lemma {:induction false} TrailingDigitsAppend(p: string, d: string)
    requires AllDigits(d)
    requires p == [] || !IsDigit(p[|p| - 1])
    ensures TrailingDigits(p + d) == |d|
    decreases |d|
  {
    if d == [] {
      assert p + d == p;
    } else {
      var s := p + d;
      assert s[..|s| - 1] == p + d[..|d| - 1];
      assert s[|s| - 1] == d[|d| - 1];
      TrailingDigitsAppend(p, d[..|d| - 1]);
    }
  }

  /** A run of digits after text that ends in neither a digit nor a minus sign reads back
      as its value. */
  lemma SplitDigits(front: string, digits: string)
    requires digits != [] && AllDigits(digits)
    requires front != [] && !IsDigit(front[|front| - 1]) && front[|front| - 1] != '-'
    ensures SplitTrailingInt(front + digits) == Some(Split(front, DigitsValue(digits)))
  {
    var s := front + digits;
    TrailingDigitsAppend(front, digits);
    assert s[..|s| - |digits|] == front && s[|s| - |digits|..] == digits;
  }

  /** The same with a minus sign in front of the digits. */
  lemma SplitNegativeDigits(front: string, digits: string)
    requires digits != [] && AllDigits(digits)
    ensures SplitTrailingInt(front + "-" + digits) == Some(Split(front, -(DigitsValue(digits) as int)))
  {
    var signed := front + "-";
    var s := signed + digits;
    assert TrailingDigits(s) == |digits| by {
      TrailingDigitsAppend(signed, digits);
    }
    assert s[..|s| - |digits|] == signed;
    assert s[|s| - |digits|..] == digits;
    assert signed[|signed| - 1] == '-' && signed[..|signed| - 1] == front;
  }

  /** `str(i)` written after a space reads back as `i`, with the text before it. */
  lemma SplitIntToString(p: string, i: int)
    requires p != [] && p[|p| - 1] == ' '
    ensures SplitTrailingInt(p + IntToString(i)) == Some(Split(p, i))
  {
    if i < 0 {
      SplitNegativeToString(p, i);
    } else {
      assert IntToString(i) == NatToString(i);
      SplitDigits(p, NatToString(i));
    }
  }

  lemma SplitNegativeToString(p: string, i: int)
    requires i < 0
    ensures SplitTrailingInt(p + IntToString(i)) == Some(Split(p, i))
  {
    var digits := NatToString(-i);
    assert IntToString(i) == "-" + digits;
    assert p + ("-" + digits) == p + "-" + digits;
    SplitNegativeDigits(p, digits);
  }

  /** Taking a title apart, given that each number field reads back off the end of its prefix. */
  lemma ParseNameFields(base: string, ws: string, ss: string, rs: string, w: int, s: int, r: int)
    requires SplitTrailingInt(base + " - " + ws) == Some(Split(base + " - ", w))
    requires SplitTrailingInt(base + " - " + ws + "kg TT " + ss) == Some(Split(base + " - " + ws + "kg TT ", s))
    requires SplitTrailingInt(base + " - " + ws + "kg TT " + ss + " Sets " + rs)
          == Some(Split(base + " - " + ws + "kg TT " + ss + " Sets ", r))
    ensures ParseUniqueName(base + " - " + ws + "kg TT " + ss + " Sets " + rs + " Reps") == Some(NameParts(base, w, s, r))
  {
    var b := base + " - ";
    var wt := b + ws + "kg TT ";
    var st := wt + ss + " Sets ";
    var rt := st + rs;
    assert DropSuffix(rt + " Reps", " Reps") == Some(rt);
    assert DropSuffix(st, " Sets ") == Some(wt + ss);
    assert DropSuffix(wt, "kg TT ") == Some(b + ws);
    assert DropSuffix(b, " - ") == Some(base);
  }

  /** The title can be taken apart again: base text, truncated weight, sets and truncated reps
      all come back, so different parts never give the same title. */
  lemma UniqueNameRoundTrip(base: Option<string>, weight: real, sets: int, reps: real)
    ensures ParseUniqueName(UniqueName(base, weight, sets, reps))
         == Some(NameParts(Format(base), Trunc(weight), sets, Trunc(reps)))
  {
    var bt := Format(base);
    var w, r := Trunc(weight), Trunc(reps);
    var ws, ss, rs := IntToString(w), IntToString(sets), IntToString(r);
    var b := bt + " - ";
    var wt := b + ws + "kg TT ";
    var st := wt + ss + " Sets ";
    assert SplitTrailingInt(b + ws) == Some(Split(b, w)) by {
      assert b[|b| - 1] == ' ';
      SplitIntToString(b, w);
    }
    assert SplitTrailingInt(wt + ss) == Some(Split(wt, sets)) by {
      assert wt[|wt| - 1] == ' ';
      SplitIntToString(wt, sets);
    }
    assert SplitTrailingInt(st + rs) == Some(Split(st, r)) by {
      assert st[|st| - 1] == ' ';
      SplitIntToString(st, r);
    }
    ParseNameFields(bt, ws, ss, rs, w, sets, r);
  }

  /** Equal titles come from equal base text, truncated weight, sets and truncated reps. */
  lemma UniqueNameDetermines(b1: Option<string>, w1: real, s1: int, r1: real, b2: Option<string>, w2: real, s2: int, r2: real)
    requires UniqueName(b1, w1, s1, r1) == UniqueName(b2, w2, s2, r2)
    ensures Format(b1) == Format(b2) && Trunc(w1) == Trunc(w2) && s1 == s2 && Trunc(r1) == Trunc(r2)
  {
    UniqueNameRoundTrip(b1, w1, s1, r1);
    UniqueNameRoundTrip(b2, w2, s2, r2);
  }
}
