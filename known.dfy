// The enumerations shared by several model classes, and the external
// services (validators, culture-dependent parsing) that the model takes as
// parameters because their code is not part of it.

module Known {
  import opened Wrappers

  /** YesNo. */
  datatype YesNo = Yes | No

  /** KnownTrimMode. */
  datatype KnownTrimMode = All | Start | End

  /** KnownFieldType: the concrete class of a table field. */
  datatype KnownFieldType = Field | Gap | Group | Fixed | Packet

  /** KnownAggregateLocation. */
  datatype KnownAggregateLocation = Top | Bottom

  /** KnownOperator. `Undefined` is a value cast from an integer outside the
      declared members, which a C# enum variable can hold. */
  datatype KnownOperator =
    | Beetween | EqualTo | GreatherThan | GreatherOrEqualsThan | In
    | LessThan | LessOrEqualThan | Like | NotEqualTo
    | Undefined(code: int)

  /** KnownCulture: the current UI culture or a named one. */
  datatype KnownCulture = Current | Named(name: string)

  /** The RegularExpressionHelper checks (and BaseCondition.IsValidCulture),
      which are not part of this model. */
  datatype Validators = Validators(
    isValidIdentifier: string -> bool,
    isValidFieldName: string -> bool,
    isValidPath: string -> bool,
    isValidCulture: KnownCulture -> bool)

  /** What decimal.Parse or DateTime.Parse makes of a text: a number, a
      text that is no number (FormatException), or a number outside the
      type's range (OverflowException, which only decimal.Parse throws). */
  datatype Parsed = Number(value: real) | Malformed | OutOfRange

  /** The exception a rejected text makes the parser throw. */
  function ParseError(p: Parsed): (e: Error)
    requires !p.Number?
    ensures e == Format || e == Overflow
    ensures e == Overflow <==> p.OutOfRange?
  {
    if p.Malformed? then Format else Overflow
  }

  /** decimal.Parse, DateTime.Parse and their ToString under one culture.
      A DateTime is represented by its position on the time line (its tick
      count); DateTime.Parse rejects a text only with a FormatException
      (`None`). */
  datatype Culture = Culture(
    parseDecimal: string -> Parsed,
    parseDate: string -> Option<real>,
    showDecimal: real -> string,
    showDate: real -> string)

  /** DateTime.Parse as a Parsed outcome. */
  function ParseDate(culture: Culture, s: string): (p: Parsed)
    ensures !p.OutOfRange?
  {
    match culture.parseDate(s)
    case None => Malformed
    case Some(x) => Number(x)
  }
}

/** An XElement data row, reduced to its attributes. */
module Rows {
  import opened Wrappers

  type Row = map<string, string>

  /** XElement.Attribute(name)?.Value */
  function Attribute(row: Row, name: string): Option<string>
  {
    if name in row then Some(row[name]) else None
  }
}
