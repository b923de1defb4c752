/** The cell coercions the CSV parsers share: `_to_float`,
    `_required_str`, `_empty_to_none` and `_to_int`. The ingest and label
    services each carry their own copy of these; the copies behave alike
    apart from the exception class, so they are modelled once here and
    each service wraps `FieldError` in its own error type. */
module Fields {
  import opened Common
  import Text

  datatype FieldError =
    | MissingValue(field: string)
    | EmptyValue(field: string)
    | InvalidValue(field: string, value: string)
    | InvalidRunId(value: string)

  /** `_to_float`: an absent or blank cell is `None` when `allowEmpty`,
      an error otherwise; any other cell is `float()` of its stripped
      text, or an error quoting the raw cell. */
  function ToFloat(parse: string -> Option<real>, value: Option<string>, field: string, allowEmpty: bool)
    : (r: Result<Option<real>, FieldError>)
    ensures r == Ok(None) <==> allowEmpty && (value.None? || Text.AllSpace(value.value))
    ensures r == Err(MissingValue(field)) <==> !allowEmpty && value.None?
    ensures r == Err(EmptyValue(field)) <==> !allowEmpty && value.Some? && Text.AllSpace(value.value)
    ensures (r.Ok? && r.value.Some?) <==> value.Some? && !Text.AllSpace(value.value)
                                          && parse(Text.Strip(value.value)).Some?
    ensures r.Ok? && r.value.Some? ==> parse(Text.Strip(value.value)) == r.value
    ensures r.Err? && r.error.InvalidValue? ==> value.Some? && r.error == InvalidValue(field, value.value)
  {
    match value
    case None => if allowEmpty then Ok(None) else Err(MissingValue(field))
    case Some(v) =>
      Text.StripEmptyIffBlank(v);
      var stripped := Text.Strip(v);
      if stripped == "" then
        (if allowEmpty then Ok(None) else Err(EmptyValue(field)))
      else match parse(stripped)
        case Some(x) => Ok(Some(x))
        case None => Err(InvalidValue(field, v))
  }

  /** Surrounding whitespace never changes a parsed number. */
  lemma ToFloatIgnoresMargins(parse: string -> Option<real>, v: string, field: string, allowEmpty: bool)
    requires ToFloat(parse, Some(v), field, allowEmpty).Ok?
    ensures ToFloat(parse, Some(Text.Strip(v)), field, allowEmpty) == ToFloat(parse, Some(v), field, allowEmpty)
  {
    var t := Text.Strip(v);
    Text.StripIdempotent(v);
    Text.StripEmptyIffBlank(v);
    Text.StripEmptyIffBlank(t);
    ToFloatSameStrip(parse, v, t, field, allowEmpty);
  }

  /** Two cells that strip alike and are blank alike coerce alike. */
  lemma ToFloatSameStrip(parse: string -> Option<real>, a: string, b: string, field: string, allowEmpty: bool)
    requires Text.Strip(a) == Text.Strip(b)
    requires Text.AllSpace(a) <==> Text.AllSpace(b)
    requires ToFloat(parse, Some(a), field, allowEmpty).Ok?
    ensures ToFloat(parse, Some(b), field, allowEmpty) == ToFloat(parse, Some(a), field, allowEmpty)
  {
  }

  /** `_required_str`: the stripped text, which must not be empty. */
  function RequiredStr(value: Option<string>, field: string): (r: Result<string, FieldError>)
    ensures r.Ok? <==> Text.CleanStr(value).Some?
    ensures r.Ok? ==> r.value == Text.CleanStr(value).value
    ensures r.Err? ==> r.error == (if value.None? then MissingValue(field) else EmptyValue(field))
  {
    match value
    case None => Err(MissingValue(field))
    case Some(v) =>
      var stripped := Text.Strip(v);
      if stripped == "" then Err(EmptyValue(field)) else Ok(stripped)
  }

  /** A required string has no surrounding whitespace and is not empty. */
  lemma RequiredStrIsTrimmed(value: Option<string>, field: string)
    requires RequiredStr(value, field).Ok?
    ensures |RequiredStr(value, field).value| > 0
    ensures !Text.IsSpace(RequiredStr(value, field).value[0])
    ensures Text.Strip(RequiredStr(value, field).value) == RequiredStr(value, field).value
  {
    Text.StripIdempotent(value.value);
  }

  /** `_to_int` of the label service: blank is `None`, otherwise `int()`
      of the stripped text, or an error quoting the raw cell. */
  function ToInt(value: Option<string>): (r: Result<Option<int>, FieldError>)
    ensures r == Ok(None) <==> value.None? || Text.AllSpace(value.value)
    ensures r.Ok? && r.value.Some? ==> Text.ParseInt(value.value) == r.value
    ensures r.Err? <==> value.Some? && !Text.AllSpace(value.value) && Text.ParseInt(value.value).None?
    ensures r.Err? ==> r.error == InvalidRunId(value.value)
  {
    match value
    case None => Ok(None)
    case Some(v) =>
      Text.StripEmptyIffBlank(v);
      if Text.Strip(v) == "" then Ok(None)
      else match Text.ParseInt(v)
        case Some(n) => Ok(Some(n))
        case None => Err(InvalidRunId(v))
  }

  /** A run id written out in decimal reads back as itself. */
  lemma ToIntRoundTrip(n: int)
    ensures ToInt(Some(Text.IntToString(n))) == Ok(Some(n))
  {
    Text.ParseIntOfIntToString(n);
  }
}
