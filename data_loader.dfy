/**
 * The input validators of the loaders (data_loader.py): the case-insensitive
 * required-column checks of the training, ideal and test loaders, the list of
 * missing ideal columns, the null checks, the per-record checks of the results
 * loader, its empty-input shortcut, and the function-number guard of
 * get_function_data.
 *
 * A DataFrame is its column names plus its rows of cells; a null cell (NaN or
 * None in pandas) is None.
 */
module DataLoader {
  import opened Wrappers
  import opened Tables

  type Name = seq<char>

  datatype Frame = Frame(columns: seq<Name>, rows: seq<seq<Option<real>>>)

  /** Every row has one cell per column. */
  predicate WellShaped(f: Frame)
  {
    forall r | 0 <= r < |f.rows| :: |f.rows[r]| == |f.columns|
  }

  /** Which loader raised a null-value error. */
  datatype Table = Training | Ideal | Test

  /**
   * The text of the ideal loader's missing-columns error. The conditional
   * expression wraps the whole message, so with one to five missing columns the
   * message is empty (Blank); with more it shows the first five and the count
   * of the others.
   */
  datatype MissingMessage = Blank | Truncated(shown: seq<Name>, more: nat)

  datatype LoadError =
    | MissingColumn(column: Name, found: seq<Name>)   // "Missing required column '...'. Found columns: ..."
    | MissingColumns(message: MissingMessage)         // the ideal loader's y1..y50 check
    | ColumnsNotFound(names: seq<Name>)               // pandas KeyError from data[[...]]
    | NullValues(table: Table)                        // "... contains null values"
    | NotADictionary(index: nat)
    | MissingKey(key: Name, index: nat)
    | IdealFuncNumberOutOfRange(value: real, index: nat)
    | FunctionNumberOutOfRange(functionNumber: int)   // ValueError of get_function_data

  // ---------------------------------------------------------------------------
  // Names

  /** str.lower on ASCII letters. */
  function LowerChar(c: char): (r: char)
  {
    if 'A' <= c <= 'Z' then (c as int + 32) as char else c
  }

  /** str.lower: no upper-case ASCII letter is left, and every other character is kept. */
  function Lower(s: Name): (r: Name)
    ensures |r| == |s|
    ensures forall i | 0 <= i < |s| :: !('A' <= r[i] <= 'Z')
    ensures forall i | 0 <= i < |s| :: 'A' <= s[i] <= 'Z' ==> r[i] as int == s[i] as int + 32
    ensures forall i | 0 <= i < |s| :: !('A' <= s[i] <= 'Z') ==> r[i] == s[i]
  {
    seq(|s|, i requires 0 <= i < |s| => LowerChar(s[i]))
  }

  /** data_columns_lower: the column names, lower-cased, in order. */
  function Lowered(columns: seq<Name>): (r: seq<Name>)
    ensures |r| == |columns|
    ensures forall i | 0 <= i < |columns| :: r[i] == Lower(columns[i]) && Lower(r[i]) == r[i]
  {
    assert forall i | 0 <= i < |columns| :: Lower(Lower(columns[i])) == Lower(columns[i]);
    seq(|columns|, i requires 0 <= i < |columns| => Lower(columns[i]))
  }

  /** The decimal digits of n, as f'{n}' writes them. */
  function Decimal(n: nat): (r: Name)
    ensures |r| > 0
    decreases n
  {
    if n < 10 then ['0' + n as char] else Decimal(n / 10) + ['0' + (n % 10) as char]
  }

  /** The column name f'y{i}'. */
  function YName(i: nat): (n: Name)
    ensures |n| >= 2 && n[0] == 'y'
  {
    "y" + Decimal(i)
  }

  /** Different numbers have different decimal spellings. */
  lemma {:induction false} DecimalInjective(a: nat, b: nat)
    requires Decimal(a) == Decimal(b)
    ensures a == b
    decreases a
  {
    var da, db := Decimal(a), Decimal(b);
    assert a < 10 <==> |da| == 1;
    assert b < 10 <==> |db| == 1;
    if a < 10 {
      assert da[0] == db[0];
    } else {
      assert da[..|da| - 1] == Decimal(a / 10) && db[..|db| - 1] == Decimal(b / 10);
      assert da[|da| - 1] == db[|db| - 1];
      DecimalInjective(a / 10, b / 10);
    }
  }

  /** required_y_columns: y1, y2, ..., y50, fifty different names in that order. */
  function YNames(): (r: seq<Name>)
    ensures |r| == IdealColumns
    ensures forall i | 0 <= i < IdealColumns :: r[i] == YName(i + 1)
    ensures forall i, j | 0 <= i < j < IdealColumns :: r[i] != r[j]
  {
    var names := seq(IdealColumns, i requires 0 <= i < IdealColumns => YName(i + 1));
    assert forall i, j | 0 <= i < j < IdealColumns :: names[i] != names[j] by {
      forall i, j | 0 <= i < j < IdealColumns
        ensures names[i] != names[j]
      {
        if names[i] == names[j] {
          assert Decimal(i + 1) == names[i][1..] == names[j][1..] == Decimal(j + 1);
          DecimalInjective(i + 1, j + 1);
        }
      }
    }
    names
  }

  /** The required ideal columns are spelled y1, ..., y9, y10, ..., y50. */
  lemma YNamesSpelling()
    ensures YNames()[0] == "y1" && YNames()[8] == "y9"
    ensures YNames()[9] == "y10" && YNames()[49] == "y50"
  {
  }

  const TrainingRequired: seq<Name> := ["x", "y1", "y2", "y3", "y4"]
  const TestRequired: seq<Name> := ["x", "y"]
  const ResultKeys: seq<Name> := ["x", "y", "delta_y", "ideal_func_number"]

  /** The first name of `required`, in order, that `present` lacks. */
  function FirstAbsent(required: seq<Name>, present: set<Name>): (r: Option<Name>)
    ensures r.None? <==> forall i | 0 <= i < |required| :: required[i] in present
    ensures r.Some? ==> exists i | 0 <= i < |required| ::
      && required[i] == r.value
      && r.value !in present
      && forall j | 0 <= j < i :: required[j] in present
    decreases |required|
  {
    if |required| == 0 then None
    else if required[0] !in present then Some(required[0])
    else
      var rest := FirstAbsent(required[1..], present);
      assert forall i | 1 <= i < |required| :: required[i] == required[1..][i - 1];
      rest
  }

  /** The names of `required` that `present` lacks, in the order of `required`. */
  function Absent(required: seq<Name>, present: set<Name>): (r: seq<Name>)
    ensures |r| <= |required|
    ensures forall n :: n in r <==> n in required && n !in present
    decreases |required|
  {
    if |required| == 0 then []
    else
      var last := required[|required| - 1];
      assert required == required[..|required| - 1] + [last];
      Absent(required[..|required| - 1], present) + (if last in present then [] else [last])
  }

  /** Every name is missing from `present` exactly when it is absent; no absent names means nothing to report. */
  lemma {:induction false} AbsentEmptyIff(required: seq<Name>, present: set<Name>)
    ensures Absent(required, present) == [] <==> FirstAbsent(required, present).None?
  {
    if Absent(required, present) != [] {
      var n := Absent(required, present)[0];
      assert n in Absent(required, present);
    }
  }

  // ---------------------------------------------------------------------------
  // Null checks

  /**
   * data[names].isnull().any().any(): a null cell in a column whose name is one
   * of `names`. Selecting every column is the same as looking at the whole frame.
   */
  predicate HasNullIn(f: Frame, names: seq<Name>): (q: bool)
    requires WellShaped(f)
    ensures names == [] ==> !q
    ensures q ==> AnyNull(f)
    ensures (forall c | 0 <= c < |f.columns| :: f.columns[c] in names) ==> (q <==> AnyNull(f))
  {
    var q := exists r, c | 0 <= r < |f.rows| && 0 <= c < |f.columns| :: f.columns[c] in names && f.rows[r][c].None?;
    assert (forall c | 0 <= c < |f.columns| :: f.columns[c] in names) && AnyNull(f) ==> q by {
      if (forall c | 0 <= c < |f.columns| :: f.columns[c] in names) && AnyNull(f) {
        var r, c :| 0 <= r < |f.rows| && 0 <= c < |f.columns| && f.rows[r][c].None?;
        assert f.columns[c] in names;
      }
    }
    q
  }

  /** data.isnull().any().any(): a null cell anywhere in the frame, that is, some row holds a null. */
  predicate AnyNull(f: Frame): (q: bool)
    requires WellShaped(f)
    ensures q <==> exists r | 0 <= r < |f.rows| :: None in f.rows[r]
    ensures q ==> |f.rows| > 0 && |f.columns| > 0
  {
    exists r, c | 0 <= r < |f.rows| && 0 <= c < |f.columns| :: f.rows[r][c].None?
  }

  /**
   * The null check after the column check: data[names] selects columns by their
   * exact names, so a name present only in another letter case raises a KeyError
   * before nulls are looked at.
   */
  function NullCheck(f: Frame, names: seq<Name>, table: Table): (o: Outcome<LoadError>)
    requires WellShaped(f)
    ensures o.Pass? <==> (forall i | 0 <= i < |names| :: names[i] in f.columns) && !HasNullIn(f, names)
    ensures o.Fail? ==> o.error.ColumnsNotFound? || o.error == NullValues(table)
    ensures o.Fail? && o.error.ColumnsNotFound? ==>
      o.error.names != [] && forall n :: n in o.error.names <==> n in names && n !in f.columns
    ensures o.Fail? && o.error.NullValues? ==>
      (forall i | 0 <= i < |names| :: names[i] in f.columns) && HasNullIn(f, names)
  {
    var notFound := Absent(names, set c | c in f.columns);
    AbsentEmptyIff(names, set c | c in f.columns);
    if notFound != [] then Fail(ColumnsNotFound(notFound))
    else if HasNullIn(f, names) then Fail(NullValues(table))
    else Pass
  }

  // ---------------------------------------------------------------------------
  // Required columns

  /** The set of lower-cased column names. */
  function LoweredNames(columns: seq<Name>): (names: set<Name>)
    ensures forall i | 0 <= i < |columns| :: Lower(columns[i]) in names
  {
    assert forall i | 0 <= i < |columns| :: Lowered(columns)[i] == Lower(columns[i]);
    set c | c in Lowered(columns)
  }

  /**
   * The loop shared by the training and test validators: the required columns in
   * order, failing on the first one that no lower-cased column name matches.
   */
  method RequireColumns(required: seq<Name>, columns: seq<Name>) returns (o: Outcome<LoadError>)
    ensures o.Pass? <==> FirstAbsent(required, LoweredNames(columns)).None?
    ensures o.Fail? ==> o.error == MissingColumn(FirstAbsent(required, LoweredNames(columns)).value, columns)
  {
    var dataColumnsLower := Lowered(columns);
    for k := 0 to |required|
      invariant forall j | 0 <= j < k :: required[j] in LoweredNames(columns)
    {
      if required[k] !in dataColumnsLower {
        assert required[k] !in LoweredNames(columns);
        assert FirstAbsent(required, LoweredNames(columns)) == Some(required[k]) by {
          FirstAbsentAt(required, LoweredNames(columns), k);
        }
        return Fail(MissingColumn(required[k], columns));
      }
    }
    return Pass;
  }

  /** When every name before index k is present and required[k] is not, required[k] is the first absent name. */
  lemma FirstAbsentAt(required: seq<Name>, present: set<Name>, k: nat)
    requires k < |required| && required[k] !in present
    requires forall j | 0 <= j < k :: required[j] in present
    ensures FirstAbsent(required, present) == Some(required[k])
  {
  }

  /** TrainingDataLoader.validate_data. */
  function TrainingValidation(f: Frame): (o: Outcome<LoadError>)
    requires WellShaped(f)
    ensures o.Fail? ==> o.error.MissingColumn? || o.error.ColumnsNotFound? || o.error == NullValues(Training)
    ensures o.Fail? && o.error.MissingColumn? ==> o.error.column in TrainingRequired && o.error.found == f.columns
  {
    match FirstAbsent(TrainingRequired, LoweredNames(f.columns))
    case Some(c) => Fail(MissingColumn(c, f.columns))
    case None => NullCheck(f, TrainingRequired, Training)
  }

  method ValidateTraining(f: Frame) returns (o: Outcome<LoadError>)
    requires WellShaped(f)
    ensures o == TrainingValidation(f)
  {
    o := RequireColumns(TrainingRequired, f.columns);
    if o.Pass? {
      o := NullCheck(f, TrainingRequired, Training);
    }
  }

  /** TestDataLoader.validate_data. */
  function TestValidation(f: Frame): (o: Outcome<LoadError>)
    requires WellShaped(f)
    ensures o.Fail? ==> o.error.MissingColumn? || o.error.ColumnsNotFound? || o.error == NullValues(Test)
    ensures o.Fail? && o.error.MissingColumn? ==> o.error.column in TestRequired && o.error.found == f.columns
  {
    match FirstAbsent(TestRequired, LoweredNames(f.columns))
    case Some(c) => Fail(MissingColumn(c, f.columns))
    case None => NullCheck(f, TestRequired, Test)
  }

  method ValidateTest(f: Frame) returns (o: Outcome<LoadError>)
    requires WellShaped(f)
    ensures o == TestValidation(f)
  {
    o := RequireColumns(TestRequired, f.columns);
    if o.Pass? {
      o := NullCheck(f, TestRequired, Test);
    }
  }

  /**
   * The training validator accepts exactly when each of x, y1..y4 names a column
   * in some letter case and by its exact name, and those columns hold no null;
   * a column missing in every letter case is reported as the first such one in
   * the order x, y1, y2, y3, y4.
   */
  lemma TrainingAcceptsIff(f: Frame)
    requires WellShaped(f)
    ensures TrainingValidation(f).Pass? <==>
      && (forall i | 0 <= i < |TrainingRequired| :: TrainingRequired[i] in LoweredNames(f.columns))
      && (forall i | 0 <= i < |TrainingRequired| :: TrainingRequired[i] in f.columns)
      && !HasNullIn(f, TrainingRequired)
    ensures TrainingValidation(f).Fail? && TrainingValidation(f).error.MissingColumn? ==>
      exists i | 0 <= i < |TrainingRequired| ::
        && TrainingValidation(f).error.column == TrainingRequired[i]
        && TrainingRequired[i] !in LoweredNames(f.columns)
        && forall j | 0 <= j < i :: TrainingRequired[j] in LoweredNames(f.columns)
  {
  }

  /** The test validator accepts exactly when x and y name columns in some letter case and exactly, and hold no null. */
  lemma TestAcceptsIff(f: Frame)
    requires WellShaped(f)
    ensures TestValidation(f).Pass? <==>
      && "x" in LoweredNames(f.columns) && "y" in LoweredNames(f.columns)
      && "x" in f.columns && "y" in f.columns
      && !HasNullIn(f, TestRequired)
  {
  }

  /** df.columns = df.columns.str.lower(): what every load_data does before validating. */
  function LowerColumns(f: Frame): (g: Frame)
    ensures |g.columns| == |f.columns| && g.rows == f.rows
  {
    Frame(Lowered(f.columns), f.rows)
  }

  /** Lower-casing twice is lower-casing once. */
  lemma LowerIdempotent(s: Name)
    ensures Lower(Lower(s)) == Lower(s)
  {
  }

  /**
   * On the frame load_data validates (its column names already lower-cased)
   * the exact-name selection never misses: the training validator fails only on
   * a missing column or a null, and accepts exactly when x, y1..y4 occur in some
   * letter case among the original names and their columns hold no null.
   */
  lemma LoadedTrainingFrame(f: Frame)
    requires WellShaped(f)
    ensures WellShaped(LowerColumns(f))
    ensures !TrainingValidation(LowerColumns(f)).Fail? || !TrainingValidation(LowerColumns(f)).error.ColumnsNotFound?
    ensures TrainingValidation(LowerColumns(f)).Pass? <==>
      && (forall i | 0 <= i < |TrainingRequired| :: TrainingRequired[i] in LoweredNames(f.columns))
      && !HasNullIn(LowerColumns(f), TrainingRequired)
  {
    LowerColumnsNames(f);
    AbsentEmptyIff(TrainingRequired, set c | c in LowerColumns(f).columns);
  }

  /**
   * The same for the test loader, which also lower-cases before validating: the
   * exact-name selection never misses, and the validator accepts exactly when x
   * and y occur in some letter case among the original names and hold no null.
   */
  lemma LoadedTestFrame(f: Frame)
    requires WellShaped(f)
    ensures WellShaped(LowerColumns(f))
    ensures !TestValidation(LowerColumns(f)).Fail? || !TestValidation(LowerColumns(f)).error.ColumnsNotFound?
    ensures TestValidation(LowerColumns(f)).Pass? <==>
      && "x" in LoweredNames(f.columns) && "y" in LoweredNames(f.columns)
      && !HasNullIn(LowerColumns(f), TestRequired)
  {
    LowerColumnsNames(f);
    AbsentEmptyIff(TestRequired, set c | c in LowerColumns(f).columns);
    assert TestRequired[0] == "x" && TestRequired[1] == "y";
  }

  /** After lower-casing, the exact names, their lower-cased forms and the original lower-cased names coincide. */
  lemma LowerColumnsNames(f: Frame)
    ensures Lowered(LowerColumns(f).columns) == LowerColumns(f).columns
    ensures (set c | c in LowerColumns(f).columns) == LoweredNames(f.columns)
  {
    var g := LowerColumns(f);
    forall i | 0 <= i < |g.columns| ensures Lower(g.columns[i]) == g.columns[i] {
      LowerIdempotent(f.columns[i]);
    }
    assert Lowered(g.columns) == g.columns;
  }

  // ---------------------------------------------------------------------------
  // Ideal functions

  /** The ideal loader's error text for a non-empty missing list. */
  function Message(missing: seq<Name>): (m: MissingMessage)
    ensures m.Blank? <==> |missing| <= 5
    ensures m.Truncated? ==> m.shown == missing[..5] && m.more + 5 == |missing|
  {
    if |missing| > 5 then Truncated(missing[..5], |missing| - 5) else Blank
  }

  /** IdealDataLoader.validate_data. */
  function IdealValidation(f: Frame): (o: Outcome<LoadError>)
    requires WellShaped(f)
    ensures o.Fail? ==> o.error == MissingColumn("x", f.columns) || o.error.MissingColumns? || o.error == NullValues(Ideal)
    ensures o.Fail? && !o.error.MissingColumn? ==> "x" in LoweredNames(f.columns)
  {
    var lowered := LoweredNames(f.columns);
    if "x" !in lowered then Fail(MissingColumn("x", f.columns))
    else
      var missing := Absent(YNames(), lowered);
      if missing != [] then Fail(MissingColumns(Message(missing)))
      else if AnyNull(f) then Fail(NullValues(Ideal))
      else Pass
  }

  /**
   * The missing-column loop: y1..y50 in order, appending each one that no
   * lower-cased column name matches.
   */
  method MissingIdealColumns(columns: seq<Name>) returns (missingColumns: seq<Name>)
    ensures missingColumns == Absent(YNames(), LoweredNames(columns))
  {
    var dataColumnsLower := Lowered(columns);
    var requiredYColumns := YNames();
    missingColumns := [];
    for k := 0 to |requiredYColumns|
      invariant missingColumns == Absent(requiredYColumns[..k], LoweredNames(columns))
    {
      var reqCol := requiredYColumns[k];
      assert requiredYColumns[..k + 1][..k] == requiredYColumns[..k];
      if reqCol !in dataColumnsLower {
        missingColumns := missingColumns + [reqCol];
      }
    }
    assert requiredYColumns[..|requiredYColumns|] == requiredYColumns;
  }

  method ValidateIdeal(f: Frame) returns (o: Outcome<LoadError>)
    requires WellShaped(f)
    ensures o == IdealValidation(f)
  {
    var dataColumnsLower := Lowered(f.columns);
    if "x" !in dataColumnsLower {
      return Fail(MissingColumn("x", f.columns));
    }
    var missingColumns := MissingIdealColumns(f.columns);
    if missingColumns != [] {
      return Fail(MissingColumns(Message(missingColumns)));
    }
    if AnyNull(f) {
      return Fail(NullValues(Ideal));
    }
    return Pass;
  }

  /**
   * The ideal validator accepts exactly when x and every one of y1..y50 names a
   * column in some letter case and no cell of the frame is null.
   */
  lemma IdealAcceptsIff(f: Frame)
    requires WellShaped(f)
    ensures IdealValidation(f).Pass? <==>
      && "x" in LoweredNames(f.columns)
      && (forall i | 0 <= i < IdealColumns :: YNames()[i] in LoweredNames(f.columns))
      && !AnyNull(f)
  {
    AbsentEmptyIff(YNames(), LoweredNames(f.columns));
  }

  /**
   * With x present and some y-columns missing, the error carries a blank message
   * when one to five are missing, and otherwise the first five missing names and
   * the count of the rest.
   */
  lemma IdealMissingMessage(f: Frame)
    requires WellShaped(f)
    ensures var missing := Absent(YNames(), LoweredNames(f.columns));
      "x" in LoweredNames(f.columns) && 1 <= |missing| <= 5 ==>
        IdealValidation(f) == Fail(MissingColumns(Blank))
    ensures var missing := Absent(YNames(), LoweredNames(f.columns));
      "x" in LoweredNames(f.columns) && |missing| > 5 ==>
        IdealValidation(f) == Fail(MissingColumns(Truncated(missing[..5], |missing| - 5)))
  {
  }

  // ---------------------------------------------------------------------------
  // Test results

  /** An element of the results list: a dict of numbers, or anything else. */
  datatype ResultItem = NotDict | Dict(entries: map<Name, real>)

  /** The error raised for element i, if any: not a dict, a missing key (first in order), or an ideal function number outside 1..50. */
  function ItemError(item: ResultItem, i: nat): (e: Option<LoadError>)
    ensures e.None? <==>
      && item.Dict?
      && "x" in item.entries && "y" in item.entries && "delta_y" in item.entries
      && "ideal_func_number" in item.entries
      && 1.0 <= item.entries["ideal_func_number"] <= 50.0
    ensures e.Some? ==> (e.value.NotADictionary? <==> item.NotDict?)
    ensures e.Some? ==> e.value.NotADictionary? || e.value.MissingKey? || e.value.IdealFuncNumberOutOfRange?
    ensures e.Some? ==> e.value.index == i
    ensures e.Some? && e.value.MissingKey? ==> e.value.key in ResultKeys && e.value.key !in item.entries
    ensures e.Some? && e.value.MissingKey? ==>
      item.Dict? && FirstAbsent(ResultKeys, item.entries.Keys) == Some(e.value.key)
    ensures e.Some? && e.value.IdealFuncNumberOutOfRange? ==>
      item.Dict? && "ideal_func_number" in item.entries && e.value.value == item.entries["ideal_func_number"]
  {
    match item
    case NotDict => Some(NotADictionary(i))
    case Dict(entries) =>
      match FirstAbsent(ResultKeys, entries.Keys)
      case Some(k) => Some(MissingKey(k, i))
      case None =>
        var n := entries["ideal_func_number"];
        if !(1.0 <= n <= 50.0) then Some(IdealFuncNumberOutOfRange(n, i)) else None
  }

  /** ResultsDataLoader.validate_data over data[from..]: the error of the first offending element. */
  function ResultsValidationFrom(data: seq<ResultItem>, from: nat): (o: Outcome<LoadError>)
    requires from <= |data|
    ensures o.Pass? <==> forall i | from <= i < |data| :: ItemError(data[i], i).None?
    ensures o.Fail? ==> exists i | from <= i < |data| ::
      && ItemError(data[i], i) == Some(o.error)
      && forall j | from <= j < i :: ItemError(data[j], j).None?
    decreases |data| - from
  {
    if from == |data| then Pass
    else if ItemError(data[from], from).Some? then Fail(ItemError(data[from], from).value)
    else ResultsValidationFrom(data, from + 1)
  }

  /** ResultsDataLoader.validate_data: the error of the first offending element, carrying its index. */
  function ResultsValidation(data: seq<ResultItem>): (o: Outcome<LoadError>)
    ensures o.Fail? ==> o.error.NotADictionary? || o.error.MissingKey? || o.error.IdealFuncNumberOutOfRange?
    ensures o.Fail? ==> o.error.index < |data|
  {
    ResultsValidationFrom(data, 0)
  }

  method ValidateResults(data: seq<ResultItem>) returns (o: Outcome<LoadError>)
    ensures o == ResultsValidation(data)
  {
    for i := 0 to |data|
      invariant ResultsValidation(data) == ResultsValidationFrom(data, i)
    {
      var result := data[i];
      if result.NotDict? {
        return Fail(NotADictionary(i));
      }
      for k := 0 to |ResultKeys|
        invariant forall j | 0 <= j < k :: ResultKeys[j] in result.entries
      {
        var key := ResultKeys[k];
        if key !in result.entries {
          FirstAbsentAt(ResultKeys, result.entries.Keys, k);
          return Fail(MissingKey(key, i));
        }
      }
      var n := result.entries["ideal_func_number"];
      if !(1.0 <= n <= 50.0) {
        return Fail(IdealFuncNumberOutOfRange(n, i));
      }
    }
    return Pass;
  }

  /**
   * The results validator accepts exactly when every element is a dict holding
   * x, y, delta_y and ideal_func_number with 1 <= ideal_func_number <= 50.
   */
  lemma ResultsAcceptIff(data: seq<ResultItem>)
    ensures ResultsValidation(data).Pass? <==>
      forall i | 0 <= i < |data| ::
        && data[i].Dict?
        && "x" in data[i].entries && "y" in data[i].entries && "delta_y" in data[i].entries
        && "ideal_func_number" in data[i].entries
        && 1.0 <= data[i].entries["ideal_func_number"] <= 50.0
  {
  }

  /**
   * ResultsDataLoader.load_data up to the database write: an empty list is 0
   * records without validation; otherwise the list is validated and, when it
   * passes, every element is one record.
   */
  method LoadResults(results: seq<ResultItem>) returns (r: Result<nat, LoadError>)
    ensures |results| == 0 ==> r == Success(0)
    ensures |results| > 0 ==> (r.Success? <==> ResultsValidation(results).Pass?)
    ensures |results| > 0 && r.Failure? ==> Fail(r.error) == ResultsValidation(results)
    ensures r.Success? ==> r.value == |results|
  {
    if |results| == 0 {
      return Success(0);
    }
    var o := ValidateResults(results);
    if o.Fail? {
      return Failure(o.error);
    }
    return Success(|results|);
  }

  // ---------------------------------------------------------------------------
  // Function data

  /**
   * get_function_data over the ideal records in the order the query returns them:
   * a function number outside 1..50 raises; otherwise one (x, y<n>) pair per record.
   */
  function FunctionData(records: seq<Row>, functionNumber: int): (r: Result<seq<(real, real)>, LoadError>)
    requires Rectangular(records, IdealColumns)
    ensures r.Failure? <==> !(1 <= functionNumber <= IdealColumns)
    ensures r.Failure? ==> r.error == FunctionNumberOutOfRange(functionNumber)
    ensures r.Success? ==> |r.value| == |records|
    ensures r.Success? ==> forall i | 0 <= i < |records| ::
      r.value[i].0 == records[i].x && r.value[i].1 == Column(records, IdealColumns, functionNumber)[i]
  {
    if !(1 <= functionNumber <= 50) then Failure(FunctionNumberOutOfRange(functionNumber))
    else Success(seq(|records|, i requires 0 <= i < |records| => (records[i].x, records[i].ys[functionNumber - 1])))
  }
}
