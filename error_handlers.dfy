/**
 * The validators of the app: `validate_dataframe` and `safe_get`.
 */
module ErrorHandlers {
  import opened Python
  import Frames

  // ---------------------------------------------------------------------------
  // validate_dataframe
  // ---------------------------------------------------------------------------

  /** `[col for col in required if col not in columns]`. */
  function MissingColumns(required: seq<string>, columns: seq<string>): (missing: seq<string>)
    ensures forall c :: c in missing <==> c in required && c !in columns
    ensures |missing| <= |required|
  {
    if required == [] then []
    else if required[0] !in columns then [required[0]] + MissingColumns(required[1..], columns)
    else MissingColumns(required[1..], columns)
  }

  /** `validate_dataframe(df, required_columns, min_rows)`: no frame, too few rows
      or a missing required column each make it false; an absent or empty list
      of required columns is not checked. */
  function ValidateDataframe(df: Option<Frames.Frame>, requiredColumns: Option<seq<string>>, minRows: int): bool
  {
    if df.None? then false
    else if |df.value.rows| < minRows then false
    else if requiredColumns.Some? && requiredColumns.value != [] then
      MissingColumns(requiredColumns.value, df.value.columns) == []
    else true
  }

  /** The frame is valid exactly when it exists, has at least `minRows` rows and
      holds every required column. */
  lemma ValidateSpec(df: Option<Frames.Frame>, requiredColumns: Option<seq<string>>, minRows: int)
    ensures ValidateDataframe(df, requiredColumns, minRows) <==>
      df.Some? && |df.value.rows| >= minRows &&
      (requiredColumns.Some? ==> forall c :: c in requiredColumns.value ==> c in df.value.columns)
  {
    if df.Some? && |df.value.rows| >= minRows && requiredColumns.Some? {
      var missing := MissingColumns(requiredColumns.value, df.value.columns);
      if missing != [] {
        assert missing[0] in missing;
      }
    }
  }

  /** Without required columns only the frame and its row count matter. */
  lemma NoRequiredColumns(df: Option<Frames.Frame>, requiredColumns: Option<seq<string>>, minRows: int)
    requires requiredColumns.None? || requiredColumns.value == []
    ensures ValidateDataframe(df, requiredColumns, minRows) <==> df.Some? && |df.value.rows| >= minRows
  {
  }

  /** With the default `min_rows=1` a frame without rows is rejected, whatever
      its columns. */
  lemma EmptyFrameRejected(columns: seq<string>, requiredColumns: Option<seq<string>>)
    ensures !ValidateDataframe(Some(Frames.Frame(columns, [])), requiredColumns, 1)
  {
  }

  // ---------------------------------------------------------------------------
  // safe_get
  // ---------------------------------------------------------------------------

  /** The Python types `safe_get` may be asked to check against. */
  datatype PyType = BoolType | IntType | FloatType | StrType | ListType | DictType

  /** A Python value stored in a dictionary. */
  datatype Any =
    | NoneValue
    | Bool(b: bool)
    | Int(i: int)
    | Float(repr: string)
    | Str(s: string)
    | List(items: seq<Any>)
    | Dict(entries: map<string, Any>)

  /** `isinstance(v, t)`; `bool` is a subclass of `int`. */
  predicate IsInstance(v: Any, t: PyType)
  {
    match v
    case NoneValue => false
    case Bool(_) => t == BoolType || t == IntType
    case Int(_) => t == IntType
    case Float(_) => t == FloatType
    case Str(_) => t == StrType
    case List(_) => t == ListType
    case Dict(_) => t == DictType
  }

  /** `safe_get(data, key, default, expected_type)`: the value under `key` (or the
      default), replaced by the default when a type is given and a value other
      than None is not an instance of it. */
  function SafeGet(data: map<string, Any>, key: string, default: Any, expectedType: Option<PyType>): Any
  {
    var value := if key in data then data[key] else default;
    if expectedType.Some? && value != NoneValue && !IsInstance(value, expectedType.value) then default
    else value
  }

  /** An absent key gives the default, whatever the type check says. */
  lemma SafeGetAbsent(data: map<string, Any>, key: string, default: Any, expectedType: Option<PyType>)
    requires key !in data
    ensures SafeGet(data, key, default, expectedType) == default
  {
  }

  /** A present key gives its value or the default; it gives the value when no
      type is asked for, when the value is an instance of the type, or when it is
      None; and a result other than the default passes the type check. */
  lemma SafeGetPresent(data: map<string, Any>, key: string, default: Any, expectedType: Option<PyType>)
    requires key in data
    ensures var r := SafeGet(data, key, default, expectedType);
      (r == data[key] || r == default) &&
      (expectedType.None? || data[key] == NoneValue || IsInstance(data[key], expectedType.value) ==> r == data[key]) &&
      (r != default && expectedType.Some? ==> r == NoneValue || IsInstance(r, expectedType.value))
  {
  }

  /** A present None is returned as None even when a type is asked for. */
  lemma SafeGetNone(data: map<string, Any>, key: string, default: Any, t: PyType)
    requires key in data && data[key] == NoneValue
    ensures SafeGet(data, key, default, Some(t)) == NoneValue
  {
  }

  /** A boolean passes a check for `int`, but an integer does not pass one for
      `bool`. */
  lemma BoolIsInt(data: map<string, Any>, key: string, default: Any, b: bool, i: int)
    ensures SafeGet(data[key := Bool(b)], key, default, Some(IntType)) == Bool(b)
    ensures default != Int(i) ==> SafeGet(data[key := Int(i)], key, default, Some(BoolType)) != Int(i)
  {
  }
}
