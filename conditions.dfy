// Conditions: the rules that pick a style for a cell (Remarks, Zero,
// Maximum, Minimum, WhenChange), evaluated against the data rows of the
// model service.

module Conditions {
  import opened Wrappers
  import opened Known
  import opened Rows
  import opened Text
  import Fields
  import Service

  /** ConditionResult: whether the condition applies, and the style it gives. */
  datatype ConditionResult = ConditionResult(canApply: bool, style: Option<string>)

  /** ConditionResult.Default: does not apply, empty style. */
  const Default := ConditionResult(false, Some(""))

  /** The parts of FieldValueInformation a condition reads: the text of the
      value (its ToString) and the three kind flags, which the producer of
      the information sets independently. */
  datatype Target = Target(value: string, isText: bool, isNumeric: bool, isDateTime: bool)

  /** The cultures an evaluation runs under: `ofLocale(Current)` is the
      current UI culture, `ofLocale(Named(n))` the culture named n, and
      `current` the thread's current culture (the one ToString and the
      filter's decimal.Parse use). */
  datatype Cultures = Cultures(ofLocale: KnownCulture -> Culture, current: Culture)

  // ---------------------------------------------------------------------
  // RemarksCondition.EvaluateCriterial

  /** Whether the producer gave the value one of the kinds the criteria know. */
  predicate Typed(target: Target)
  {
    target.isText || target.isNumeric || target.isDateTime
  }

  /** The two kinds of non-text value: a decimal and a DateTime. */
  datatype ValueKind = DecimalValue | DateValue

  /** How a non-text value is read: as a decimal when it is numeric, as a
      DateTime otherwise. */
  function KindOf(target: Target): ValueKind
  {
    if target.isNumeric then DecimalValue else DateValue
  }

  /** decimal.Parse or DateTime.Parse, by the kind of value. */
  function ParseAs(kind: ValueKind, culture: Culture, s: string): (p: Parsed)
    ensures kind == DateValue ==> !p.OutOfRange?
  {
    if kind == DecimalValue then culture.parseDecimal(s) else ParseDate(culture, s)
  }

  /** Equality of two parsed values: the target's text is parsed first, then
      the test value; a null test value is an ArgumentNullException, and a
      text the parser rejects throws the parser's exception (Format, or
      Overflow for a decimal outside decimal's range). */
  function SameParsed(kind: ValueKind, culture: Culture, left: string, right: Option<string>): (r: Result<bool>)
    ensures var l := ParseAs(kind, culture, left);
            r.Ok? <==> l.Number? && right.Some? && ParseAs(kind, culture, right.value).Number?
    ensures r.Ok? ==> r.value == (ParseAs(kind, culture, left) == ParseAs(kind, culture, right.value))
    ensures var l := ParseAs(kind, culture, left);
            !l.Number? ==> r == Fail(ParseError(l))
    ensures var l := ParseAs(kind, culture, left);
            l.Number? && right.None? ==> r == Fail(ArgumentNull)
    ensures var l := ParseAs(kind, culture, left);
            l.Number? && right.Some? && !ParseAs(kind, culture, right.value).Number? ==>
              r == Fail(ParseError(ParseAs(kind, culture, right.value)))
  {
    var l := ParseAs(kind, culture, left);
    if !l.Number? then Fail(ParseError(l))
    else if right.None? then Fail(ArgumentNull)
    else
      var rp := ParseAs(kind, culture, right.value);
      if !rp.Number? then Fail(ParseError(rp))
      else Ok(l.value == rp.value)
  }

  /** The EqualTo case: text compares the strings, otherwise numbers, otherwise dates. */
  function Equality(target: Target, testValue: Option<string>, culture: Culture): Result<bool>
    requires Typed(target)
  {
    if target.isText then Ok(testValue == Some(target.value))
    else SameParsed(KindOf(target), culture, target.value, testValue)
  }

  /** EvaluateCriterial: EqualTo and NotEqualTo are the only live cases; every
      other operator, and a target of no known kind, gives false. */
  function EvaluateCriterial(op: KnownOperator, target: Target, testValue: Option<string>, culture: Culture): (r: Result<bool>)
    ensures !Typed(target) ==> r == Ok(false)
    ensures op != EqualTo && op != NotEqualTo ==> r == Ok(false)
  {
    if !Typed(target) then Ok(false)
    else match op
      case EqualTo => Equality(target, testValue, culture)
      case NotEqualTo => (match Equality(target, testValue, culture)
                          case Ok(b) => Ok(!b)
                          case Fail(e) => Fail(e))
      case _ => Ok(false)
  }

  /** Text EqualTo holds exactly when the value is the test value; text
      NotEqualTo is its negation; neither throws. */
  lemma TextCriteria(target: Target, testValue: Option<string>, culture: Culture)
    requires target.isText
    ensures EvaluateCriterial(EqualTo, target, testValue, culture) == Ok(testValue == Some(target.value))
    ensures EvaluateCriterial(NotEqualTo, target, testValue, culture) == Ok(testValue != Some(target.value))
  {
  }

  /** NotEqualTo is the complement of EqualTo: one throws exactly when the
      other does (with the same exception), and otherwise they disagree;
      for a value of no known kind both are false. */
  lemma NotEqualToComplement(target: Target, testValue: Option<string>, culture: Culture)
    ensures var e := EvaluateCriterial(EqualTo, target, testValue, culture);
            var n := EvaluateCriterial(NotEqualTo, target, testValue, culture);
            if Typed(target) then
              (e.Ok? <==> n.Ok?) && (e.Ok? ==> n.value == !e.value) && (e.Fail? ==> n == e)
            else e == Ok(false) && n == Ok(false)
  {
  }


  /** A numeric (non-text) value is equal to the test value when both parse
      to the same decimal under the culture; a date under the date parser. */
  lemma ParsedCriteria(target: Target, testValue: string, culture: Culture)
    requires !target.isText && (target.isNumeric || target.isDateTime)
    ensures var x := ParseAs(KindOf(target), culture, target.value);
            var y := ParseAs(KindOf(target), culture, testValue);
            var e := EvaluateCriterial(EqualTo, target, Some(testValue), culture);
            (e.Ok? <==> x.Number? && y.Number?) &&
            (e.Ok? ==> (e.value <==> x == y)) &&
            (!x.Number? ==> e == Fail(ParseError(x))) &&
            (x.Number? && !y.Number? ==> e == Fail(ParseError(y)))
  {
  }

  // ---------------------------------------------------------------------
  // The state of a condition

  /** What a decimal or a DateTime maximum/minimum is cached as. */
  datatype Extreme = Extreme(kind: ValueKind, value: real)

  /** The settings and private state of a condition, as its evaluation reads them. */
  datatype ConditionView = ConditionView(
    field: Option<string>, locale: KnownCulture, style: Option<string>,
    value: Option<string>, criterial: KnownOperator, extreme: Option<Extreme>,
    first: Option<string>, second: Option<string>, last: Option<string>)

  /** What an evaluation returns and the private state it leaves. */
  datatype Evaluated = Evaluated(result: Result<ConditionResult>, extreme: Option<Extreme>, last: Option<string>)

  /** The Field setter's checks. */
  function FieldNameCheck(value: Option<string>, validators: Validators): (o: Outcome)
    ensures o == Pass <==> value.Some? && validators.isValidFieldName(value.value)
    ensures value.Some? && o != Pass ==> o == Failure(InvalidFieldName)
  {
    if value.None? then Failure(ArgumentNull)
    else if !validators.isValidFieldName(value.value) then Failure(InvalidFieldName)
    else Pass
  }

  /** The checks of the Key, Style and swap-style setters. */
  function IdentifierCheck(value: Option<string>, validators: Validators): (o: Outcome)
    ensures o == Pass <==> value.Some? && validators.isValidIdentifier(value.value)
    ensures value.Some? && o != Pass ==> o == Failure(InvalidIdentifier)
  {
    if value.None? then Failure(ArgumentNull)
    else if !validators.isValidIdentifier(value.value) then Failure(InvalidIdentifier)
    else Pass
  }

  /** The Locale setter: a culture that is neither Current nor installed becomes Current. */
  function AcceptedLocale(value: KnownCulture, validators: Validators): (r: KnownCulture)
    ensures r == value || r == Current
    ensures r == value <==> value == Current || validators.isValidCulture(value)
  {
    if value == Current || validators.isValidCulture(value) then value else Current
  }

  /** Setting an accepted locale again keeps it. */
  lemma AcceptedLocaleIdempotent(value: KnownCulture, validators: Validators)
    ensures AcceptedLocale(AcceptedLocale(value, validators), validators) == AcceptedLocale(value, validators)
  {
  }

  /** Zero, Maximum and Minimum evaluate through a new RemarksCondition given
      this condition's Field, Locale and Style: its initializer runs the
      Field setter, then the Locale setter, then the Style setter. */
  function CopyAsRemarks(v: ConditionView, validators: Validators): (o: Outcome)
  {
    var f := FieldNameCheck(v.field, validators);
    if f.Failure? then f else IdentifierCheck(v.style, validators)
  }

  /** The copy is accepted exactly when the field is a valid field name and
      the style a valid identifier; otherwise the field's exception wins. */
  lemma CopyAsRemarksPasses(v: ConditionView, validators: Validators)
    ensures CopyAsRemarks(v, validators) == Pass <==>
              v.field.Some? && validators.isValidFieldName(v.field.value) &&
              v.style.Some? && validators.isValidIdentifier(v.style.value)
    ensures FieldNameCheck(v.field, validators).Failure? ==> CopyAsRemarks(v, validators) == FieldNameCheck(v.field, validators)
  {
  }

  // ---------------------------------------------------------------------
  // RemarksCondition.Evaluate and ZeroCondition.Evaluate

  /** A RemarksCondition with these settings: the criterion decides CanApply,
      the Style is passed through. */
  function RemarksResult(op: KnownOperator, target: Target, testValue: Option<string>, locale: KnownCulture,
                         style: Option<string>, cultures: Cultures): (r: Result<ConditionResult>)
    ensures var c := EvaluateCriterial(op, target, testValue, cultures.ofLocale(locale));
            (r.Ok? <==> c.Ok?) && (r.Fail? ==> r.error == c.error) &&
            (r.Ok? ==> r.value.canApply == c.value && r.value.style == style)
  {
    match EvaluateCriterial(op, target, testValue, cultures.ofLocale(locale))
    case Ok(b) => Ok(ConditionResult(b, style))
    case Fail(e) => Fail(e)
  }

  /** RemarksCondition.Evaluate: Active is never consulted. */
  function RemarksSpec(v: ConditionView, target: Target, cultures: Cultures): (r: Result<ConditionResult>)
    ensures var c := EvaluateCriterial(v.criterial, target, v.value, cultures.ofLocale(v.locale));
            (r.Ok? <==> c.Ok?) && (r.Fail? ==> r.error == c.error) &&
            (r.Ok? ==> r.value == ConditionResult(c.value, v.style))
  {
    RemarksResult(v.criterial, target, v.value, v.locale, v.style, cultures)
  }

  /** ZeroCondition.Evaluate: a RemarksCondition testing EqualTo "0". */
  function ZeroSpec(v: ConditionView, target: Target, validators: Validators, cultures: Cultures): (r: Result<ConditionResult>)
    ensures CopyAsRemarks(v, validators).Failure? ==> r == Fail(CopyAsRemarks(v, validators).error)
    ensures CopyAsRemarks(v, validators) == Pass ==>
              var c := EvaluateCriterial(EqualTo, target, Some("0"), cultures.ofLocale(AcceptedLocale(v.locale, validators)));
              (r.Ok? <==> c.Ok?) && (r.Ok? ==> r.value == ConditionResult(c.value, v.style))
  {
    match CopyAsRemarks(v, validators)
    case Failure(e) => Fail(e)
    case Pass => RemarksResult(EqualTo, target, Some("0"), AcceptedLocale(v.locale, validators), v.style, cultures)
  }

  /** Zero is Remarks with EqualTo, Value "0" and the accepted locale, once
      the copy's setters accept Field and Style; for a text value it applies
      exactly when the value is "0", and the style is always Style. */
  lemma ZeroMeaning(v: ConditionView, target: Target, validators: Validators, cultures: Cultures)
    ensures CopyAsRemarks(v, validators) == Pass ==>
              ZeroSpec(v, target, validators, cultures) ==
              RemarksSpec(v.(criterial := EqualTo, value := Some("0"), locale := AcceptedLocale(v.locale, validators)), target, cultures)
    ensures CopyAsRemarks(v, validators) == Pass && target.isText ==>
              ZeroSpec(v, target, validators, cultures) == Ok(ConditionResult(target.value == "0", v.style))
    ensures CopyAsRemarks(v, validators).Failure? ==>
              ZeroSpec(v, target, validators, cultures) == Fail(CopyAsRemarks(v, validators).error)
  {
  }

  // ---------------------------------------------------------------------
  // GetFieldAttributeEnumerable

  /** The non-empty values of attribute `field` in the rows, in row order.
      A null field names no attribute. */
  function FieldAttributes(rows: seq<Row>, field: Option<string>): seq<string>
  {
    if rows == [] then []
    else
      var prefix := FieldAttributes(rows[..|rows| - 1], field);
      var a := if field.None? then None else Attribute(rows[|rows| - 1], field.value);
      if a.Some? && a.value != "" then prefix + [a.value] else prefix
  }

  /** The values of the filtered rows, or the exception filtering threw. */
  function AttributeValues(rows: Result<seq<Row>>, field: Option<string>): Result<seq<string>>
  {
    match rows
    case Fail(e) => Fail(e)
    case Ok(rs) => Ok(FieldAttributes(rs, field))
  }

  /** No more values than rows, none empty, and a string is among them
      exactly when some row carries it (non-empty) in that attribute. */
  lemma {:induction false} FieldAttributesMeaning(rows: seq<Row>, field: Option<string>)
    ensures |FieldAttributes(rows, field)| <= |rows|
    ensures forall s | s in FieldAttributes(rows, field) :: s != ""
    ensures forall s :: s in FieldAttributes(rows, field) <==>
              s != "" && field.Some? && exists i | 0 <= i < |rows| :: Attribute(rows[i], field.value) == Some(s)
  {
    if rows != [] {
      var init := rows[..|rows| - 1];
      FieldAttributesMeaning(init, field);
      forall s
        ensures s in FieldAttributes(rows, field) <==>
                s != "" && field.Some? && exists i | 0 <= i < |rows| :: Attribute(rows[i], field.value) == Some(s)
      {
        if s != "" && field.Some? && (exists i | 0 <= i < |rows| :: Attribute(rows[i], field.value) == Some(s)) {
          var i :| 0 <= i < |rows| && Attribute(rows[i], field.value) == Some(s);
          if i < |rows| - 1 {
            assert init[i] == rows[i];
          }
        }
        if s in FieldAttributes(rows, field) && s in FieldAttributes(init, field) {
          var i :| 0 <= i < |init| && Attribute(init[i], field.value) == Some(s);
          assert rows[i] == init[i];
        }
      }
    }
  }

  // ---------------------------------------------------------------------
  // Maximum and minimum


  /** The ToString of a cached decimal or DateTime. */
  function Shown(x: Extreme, culture: Culture): string
  {
    if x.kind == DecimalValue then culture.showDecimal(x.value) else culture.showDate(x.value)
  }

  /** `Select(Parse)` enumerated in order: every value parsed, or the
      exception of the first value the parser rejects. */
  function ParseAll(kind: ValueKind, culture: Culture, vs: seq<string>): (r: Result<seq<real>>)
    ensures r.Ok? <==> forall i | 0 <= i < |vs| :: ParseAs(kind, culture, vs[i]).Number?
    ensures r.Ok? ==> |r.value| == |vs| && forall i | 0 <= i < |vs| :: ParseAs(kind, culture, vs[i]) == Number(r.value[i])
  {
    if vs == [] then Ok([])
    else
      var p := ParseAs(kind, culture, vs[0]);
      if !p.Number? then Fail(ParseError(p))
      else match ParseAll(kind, culture, vs[1..])
        case Fail(e) => Fail(e)
        case Ok(xs) => Ok([p.value] + xs)
  }

  /** The first value the parser rejects decides the exception. */
  lemma {:induction false} ParseAllStopsAtFirst(kind: ValueKind, culture: Culture, vs: seq<string>, i: nat)
    requires i < |vs| && !ParseAs(kind, culture, vs[i]).Number?
    requires forall j | 0 <= j < i :: ParseAs(kind, culture, vs[j]).Number?
    ensures ParseAll(kind, culture, vs) == Fail(ParseError(ParseAs(kind, culture, vs[i])))
  {
    if i > 0 {
      forall j | 0 <= j < i - 1
        ensures ParseAs(kind, culture, vs[1..][j]).Number?
      {
        assert vs[1..][j] == vs[j + 1];
      }
      assert ParseAs(kind, culture, vs[0]).Number?;
      ParseAllStopsAtFirst(kind, culture, vs[1..], i - 1);
    }
  }

  /** Enumerable.Max (largest) or Enumerable.Min of a non-empty sequence. */
  function Extremum(xs: seq<real>, largest: bool): (r: real)
    requires xs != []
    ensures r in xs
    ensures forall x | x in xs :: if largest then x <= r else r <= x
  {
    if |xs| == 1 then xs[0]
    else
      var rest := Extremum(xs[1..], largest);
      assert xs == [xs[0]] + xs[1..];
      if largest then (if rest <= xs[0] then xs[0] else rest)
      else (if xs[0] <= rest then xs[0] else rest)
  }

  /** CalculateNumericMaxValue and its siblings: parse every value and take
      the extreme; an empty list is an InvalidOperationException, and the
      first value the parser rejects throws the parser's exception. */
  function Computed(kind: ValueKind, largest: bool, values: Result<seq<string>>, culture: Culture): Result<Extreme>
  {
    match values
    case Fail(e) => Fail(e)
    case Ok(vs) =>
      if vs == [] then Fail(InvalidOperation)
      else match ParseAll(kind, culture, vs)
        case Fail(e) => Fail(e)
        case Ok(xs) => Ok(Extreme(kind, Extremum(xs, largest)))
  }

  /** The computed maximum (minimum) is the parse of one of the values and is
      at least (at most) the parse of every value. The failures are an empty
      list (InvalidOperation) and a value the parser rejects: the first such
      value throws Format, or Overflow for a decimal outside decimal's range. */
  lemma ComputedMeaning(kind: ValueKind, largest: bool, vs: seq<string>, culture: Culture, i: nat)
    ensures var c := Computed(kind, largest, Ok(vs), culture);
            (vs == [] ==> c == Fail(InvalidOperation)) &&
            (c.Fail? <==> vs == [] || exists k | 0 <= k < |vs| :: !ParseAs(kind, culture, vs[k]).Number?) &&
            (c.Ok? ==> c.value.kind == kind &&
                       (exists k | 0 <= k < |vs| :: ParseAs(kind, culture, vs[k]) == Number(c.value.value)) &&
                       forall k | 0 <= k < |vs| :: ParseAs(kind, culture, vs[k]).Number? &&
                         if largest then ParseAs(kind, culture, vs[k]).value <= c.value.value
                         else c.value.value <= ParseAs(kind, culture, vs[k]).value)
    ensures i < |vs| && !ParseAs(kind, culture, vs[i]).Number? &&
            (forall j | 0 <= j < i :: ParseAs(kind, culture, vs[j]).Number?) ==>
              Computed(kind, largest, Ok(vs), culture) == Fail(ParseError(ParseAs(kind, culture, vs[i])))
  {
    var c := Computed(kind, largest, Ok(vs), culture);
    if c.Ok? {
      var xs := ParseAll(kind, culture, vs).value;
      var k :| 0 <= k < |xs| && xs[k] == c.value.value;
      assert ParseAs(kind, culture, vs[k]) == Number(c.value.value);
      forall j | 0 <= j < |vs|
        ensures if largest then xs[j] <= c.value.value else c.value.value <= xs[j]
      {
        assert xs[j] in xs;
      }
    }
    if i < |vs| && !ParseAs(kind, culture, vs[i]).Number? &&
       (forall j | 0 <= j < i :: ParseAs(kind, culture, vs[j]).Number?) {
      ParseAllStopsAtFirst(kind, culture, vs, i);
    }
  }

  /** The cache after the first part of MaximumCondition.Evaluate, and the
      exception that stopped it. A numeric target computes a decimal
      extreme; a date target then computes a DateTime extreme, which
      replaces it; a set cache is kept as it is. */
  datatype Refreshed = Refreshed(cache: Option<Extreme>, error: Option<Error>)

  function Refresh(cache: Option<Extreme>, target: Target, largest: bool, values: Result<seq<string>>, culture: Culture): Refreshed
  {
    if cache.Some? then Refreshed(cache, None)
    else
      var n := Computed(DecimalValue, largest, values, culture);
      if target.isNumeric && n.Fail? then Refreshed(None, Some(n.error))
      else
        var afterNumeric := if target.isNumeric then Some(n.value) else None;
        if !target.isDateTime then Refreshed(afterNumeric, None)
        else match Computed(DateValue, largest, values, culture)
          case Fail(e) => Refreshed(afterNumeric, Some(e))
          case Ok(x) => Refreshed(Some(x), None)
  }

  /** The RemarksCondition EqualTo that compares the target with the cached
      extreme's text; with nothing cached, that ToString throws. */
  function CompareWithExtreme(v: ConditionView, cache: Option<Extreme>, target: Target, validators: Validators,
                              cultures: Cultures): Result<ConditionResult>
  {
    match CopyAsRemarks(v, validators)
    case Failure(e) => Fail(e)
    case Pass =>
      if cache.None? then Fail(NullReference)
      else RemarksResult(EqualTo, target, Some(Shown(cache.value, cultures.current)), AcceptedLocale(v.locale, validators), v.style, cultures)
  }

  /** MaximumCondition.Evaluate (largest) and MinimumCondition.Evaluate. The
      values come from filtering `rows`, read with the locale's culture. */
  function ExtremeSpec(v: ConditionView, largest: bool, target: Target, rows: Result<seq<Row>>,
                       validators: Validators, cultures: Cultures): (s: Evaluated)
    ensures s.last == v.last
    ensures target.isText ==> s == Evaluated(Ok(Default), v.extreme, v.last)
    ensures !target.isText && s.result.Ok? ==> s.extreme.Some?
  {
    if target.isText then Evaluated(Ok(Default), v.extreme, v.last)
    else
      var c := Refresh(v.extreme, target, largest, AttributeValues(rows, v.field), cultures.ofLocale(v.locale));
      if c.error.Some? then Evaluated(Fail(c.error.value), c.cache, v.last)
      else Evaluated(CompareWithExtreme(v, c.cache, target, validators, cultures), c.cache, v.last)
  }

  /** A text value gives Default and leaves the cache as it was. */
  lemma ExtremeText(v: ConditionView, largest: bool, target: Target, rows: Result<seq<Row>>, validators: Validators, cultures: Cultures)
    requires target.isText
    ensures ExtremeSpec(v, largest, target, rows, validators, cultures) == Evaluated(Ok(Default), v.extreme, v.last)
  {
  }

  /** Once cached, the extreme is kept: the state is unchanged and the result
      does not depend on the rows at all. */
  lemma ExtremeCacheReused(v: ConditionView, largest: bool, target: Target, rows: Result<seq<Row>>, rows': Result<seq<Row>>,
                           validators: Validators, cultures: Cultures)
    requires v.extreme.Some?
    ensures ExtremeSpec(v, largest, target, rows, validators, cultures).extreme == v.extreme
    ensures ExtremeSpec(v, largest, target, rows, validators, cultures) == ExtremeSpec(v, largest, target, rows', validators, cultures)
  {
  }

  /** The first evaluation of a numeric (or date) non-text value caches the
      extreme computed over the filtered values, or throws what that
      computation threw and caches nothing. */
  lemma ExtremeFirstEvaluation(v: ConditionView, largest: bool, target: Target, rows: Result<seq<Row>>,
                               validators: Validators, cultures: Cultures)
    requires v.extreme.None? && !target.isText && target.isNumeric != target.isDateTime
    ensures var kind := if target.isNumeric then DecimalValue else DateValue;
            var c := Computed(kind, largest, AttributeValues(rows, v.field), cultures.ofLocale(v.locale));
            var s := ExtremeSpec(v, largest, target, rows, validators, cultures);
            (c.Ok? ==> s.extreme == Some(c.value)) &&
            (c.Fail? ==> s.extreme.None? && s.result == Fail(c.error))
  {
  }

  /** A result of the maximum (minimum) condition for a numeric or date value
      applies exactly when the value parses, under the accepted locale, to
      what the cached extreme's text parses to; the style is always Style. */
  lemma ExtremeCanApply(v: ConditionView, largest: bool, target: Target, rows: Result<seq<Row>>,
                        validators: Validators, cultures: Cultures)
    ensures var s := ExtremeSpec(v, largest, target, rows, validators, cultures);
            var culture := cultures.ofLocale(AcceptedLocale(v.locale, validators));
            s.result.Ok? && !target.isText && (target.isNumeric || target.isDateTime) ==>
              var x := ParseAs(KindOf(target), culture, target.value);
              var y := ParseAs(KindOf(target), culture, Shown(s.extreme.value, cultures.current));
              s.extreme.Some? && s.result.value.style == v.style &&
              x.Number? && y.Number? && (s.result.value.canApply <==> x == y)
  {
    var s := ExtremeSpec(v, largest, target, rows, validators, cultures);
    if s.result.Ok? && !target.isText && (target.isNumeric || target.isDateTime) {
      var culture := cultures.ofLocale(AcceptedLocale(v.locale, validators));
      ParsedCriteria(target, Shown(s.extreme.value, cultures.current), culture);
    }
  }

  /** When the extreme's text reads back as the extreme, a numeric (date)
      value meets the maximum condition exactly when it is the maximum. */
  lemma ExtremeMatchesValue(v: ConditionView, largest: bool, target: Target, rows: Result<seq<Row>>,
                            validators: Validators, cultures: Cultures, m: Extreme)
    requires !target.isText && (target.isNumeric || target.isDateTime)
    requires m.kind == (if target.isNumeric then DecimalValue else DateValue)
    requires ParseAs(m.kind, cultures.ofLocale(AcceptedLocale(v.locale, validators)), Shown(m, cultures.current)) == Number(m.value)
    ensures var s := ExtremeSpec(v, largest, target, rows, validators, cultures);
            var culture := cultures.ofLocale(AcceptedLocale(v.locale, validators));
            s.result.Ok? && s.extreme == Some(m) ==> (s.result.value.canApply <==> ParseAs(m.kind, culture, target.value) == Number(m.value))
  {
    ExtremeCanApply(v, largest, target, rows, validators, cultures);
  }

  // ---------------------------------------------------------------------
  // WhenChangeCondition

  /** The style swap: the second style after the first, the first otherwise. */
  function Toggle(last: Option<string>, first: Option<string>, second: Option<string>): Option<string>
  {
    if last == first then second else first
  }

  /** One WhenChange decision and the last style it leaves. */
  datatype Swap = Swap(result: ConditionResult, last: Option<string>)

  /** The WhenChange decision, given the previous and current values of the
      field and whether the field is the current one. */
  function WhenChangeStep(previous: Option<string>, current: Option<string>, matches: bool,
                          first: Option<string>, second: Option<string>, last: Option<string>): (s: Swap)
    ensures !matches ==> s == Swap(Default, last)
    ensures matches ==> s.result.canApply && s.result.style == s.last
    ensures s.last == last || s.last == first || s.last == second
  {
    if previous.None? then
      if !matches then Swap(Default, last) else Swap(ConditionResult(true, first), first)
    else if !matches then Swap(Default, last)
    else if current == previous then Swap(ConditionResult(true, last), last)
    else if second.None? || second.value == "" then Swap(ConditionResult(true, last), last)
    else
      var t := Toggle(last, first, second);
      Swap(ConditionResult(true, t), t)
  }

  /** For the current field the condition always applies, with the style it
      leaves as the last one; for another field it gives Default and keeps
      the state. Without a previous value the first style starts over; an
      unchanged value or an empty second style keeps the last style; a
      change toggles it. */
  lemma WhenChangeStepMeaning(previous: Option<string>, current: Option<string>, matches: bool,
                              first: Option<string>, second: Option<string>, last: Option<string>)
    ensures var s := WhenChangeStep(previous, current, matches, first, second, last);
            (matches ==> s.result.canApply && s.result.style == s.last) &&
            (!matches ==> s == Swap(Default, last)) &&
            (matches && previous.None? ==> s.last == first) &&
            (matches && previous.Some? && (current == previous || second.None? || second == Some("")) ==> s.last == last) &&
            (matches && previous.Some? && current != previous && second.Some? && second != Some("") ==>
               s.last == Toggle(last, first, second))
  {
  }

  /** With two different styles, two changes in a row bring the last style
      back, when it was one of the two. */
  lemma ToggleTwice(p1: string, c1: Option<string>, p2: string, c2: Option<string>,
                    first: Option<string>, second: string, last: Option<string>)
    requires first != Some(second) && second != ""
    requires last == first || last == Some(second)
    requires c1 != Some(p1) && c2 != Some(p2)
    ensures var once := WhenChangeStep(Some(p1), c1, true, first, Some(second), last);
            WhenChangeStep(Some(p2), c2, true, first, Some(second), once.last).last == last
  {
  }

  /** The last style stays one of the two swap styles: the first evaluation
      sets the first style, and every later one keeps or toggles it. */
  lemma WhenChangeKeepsSwapStyles(previous: Option<string>, current: Option<string>, matches: bool,
                                  first: Option<string>, second: Option<string>, last: Option<string>)
    requires previous.None? || last == first || last == second
    requires matches
    ensures var s := WhenChangeStep(previous, current, matches, first, second, last);
            s.last == first || s.last == second
  {
  }

  /** WhenChangeCondition.Evaluate: the previous and current values of the
      upper-cased field in the filtered rows, against the current field's
      upper-cased name. Indexing outside the rows throws. */
  function WhenChangeSpec(v: ConditionView, row: int, rows: Result<seq<Row>>, currentName: Option<string>): (s: Evaluated)
    ensures s.extreme == v.extreme
    ensures rows.Fail? ==> s == Evaluated(Fail(rows.error), v.extreme, v.last)
    ensures rows.Ok? && v.field.Some? && (row < 0 || row >= |rows.value|) ==> s.result == Fail(IndexOutOfRange)
    ensures rows.Ok? && v.field.None? ==> s.result == Fail(NullReference)
    ensures rows.Ok? && v.field.Some? && 0 <= row < |rows.value| && currentName.None? ==> s.result == Fail(NullReference)
    ensures s.result.Ok? ==>
              rows.Ok? && 0 <= row < |rows.value| && v.field.Some? && currentName.Some? &&
              (s.result.value.canApply <==> Upper(v.field.value) == Upper(currentName.value))
  {
    if rows.Fail? then Evaluated(Fail(rows.error), v.extreme, v.last)
    else if v.field.None? then Evaluated(Fail(NullReference), v.extreme, v.last)
    else if row < 0 || row >= |rows.value| then Evaluated(Fail(IndexOutOfRange), v.extreme, v.last)
    else if currentName.None? then Evaluated(Fail(NullReference), v.extreme, v.last)
    else
      var normalized := Upper(v.field.value);
      var previous := if row > 0 then Attribute(rows.value[row - 1], normalized) else None;
      var current := Attribute(rows.value[row], normalized);
      var s := WhenChangeStep(previous, current, normalized == Upper(currentName.value), v.first, v.second, v.last);
      Evaluated(Ok(s.result), v.extreme, s.last)
  }

  /** At the first row there is no previous value, so evaluating the current
      field there always starts over with the first style. */
  lemma WhenChangeFirstRow(v: ConditionView, rows: seq<Row>, currentName: string)
    requires v.field.Some? && rows != [] && Upper(v.field.value) == Upper(currentName)
    ensures WhenChangeSpec(v, 0, Ok(rows), Some(currentName)) == Evaluated(Ok(ConditionResult(true, v.first)), v.extreme, v.first)
  {
  }

  // ---------------------------------------------------------------------
  // Dispatch and BaseCondition.Evaluate

  /** The kind of condition, standing for its concrete class. */
  datatype ConditionKind = Remarks | Zero | Maximum | Minimum | WhenChange

  /** The three-argument Evaluate of each kind. */
  function Step(v: ConditionView, kind: ConditionKind, row: int, target: Target, rows: Result<seq<Row>>,
                currentName: Option<string>, validators: Validators, cultures: Cultures): (s: Evaluated)
    ensures kind != Maximum && kind != Minimum ==> s.extreme == v.extreme
    ensures kind != WhenChange ==> s.last == v.last
  {
    match kind
    case Remarks => Evaluated(RemarksSpec(v, target, cultures), v.extreme, v.last)
    case Zero => Evaluated(ZeroSpec(v, target, validators, cultures), v.extreme, v.last)
    case Maximum => ExtremeSpec(v, true, target, rows, validators, cultures)
    case Minimum => ExtremeSpec(v, false, target, rows, validators, cultures)
    case WhenChange => WhenChangeSpec(v, row, rows, currentName)
  }

  /** BaseCondition.Evaluate(row, col): Default unless the condition's field
      is the current field (compared upper-cased); otherwise the kind's own
      evaluation with the current field's value. */
  function EvaluateAtSpec(v: ConditionView, kind: ConditionKind, row: int, target: Target, rows: Result<seq<Row>>,
                          currentName: Option<string>, validators: Validators, cultures: Cultures): (s: Evaluated)
    ensures v.field.None? || currentName.None? ==> s == Evaluated(Fail(NullReference), v.extreme, v.last)
    ensures v.field.Some? && currentName.Some? && Upper(v.field.value) != Upper(currentName.value) ==>
              s == Evaluated(Ok(Default), v.extreme, v.last)
    ensures v.field.Some? && currentName.Some? && Upper(v.field.value) == Upper(currentName.value) ==>
              s == Step(v, kind, row, target, rows, currentName, validators, cultures)
  {
    if v.field.None? || currentName.None? then Evaluated(Fail(NullReference), v.extreme, v.last)
    else if Upper(v.field.value) != Upper(currentName.value) then Evaluated(Ok(Default), v.extreme, v.last)
    else Step(v, kind, row, target, rows, currentName, validators, cultures)
  }

  /** The name of the service's current field. None stands for the null on
      which ToUpperInvariant throws: there is no current field, or its
      Name (its Piece, for a fixed field) was never set. */
  function CurrentFieldName(service: Service.ModelService): (r: Option<string>)
    reads service`currentField, if service.currentField == null then {} else {service.currentField}
    ensures r.None? <==> service.currentField == null || Fields.GetFieldNameFrom(service.currentField).None?
    ensures service.currentField != null && service.currentField.fieldType == Gap ==> r == Some("")
    ensures r.Some? ==> service.currentField != null && r == Fields.GetFieldNameFrom(service.currentField)
  {
    if service.currentField == null then None else Fields.GetFieldNameFrom(service.currentField)
  }

  /** A current data, group or packet field whose Name was never set makes
      Evaluate(row, col) throw NullReference, whatever the condition. */
  lemma UnnamedCurrentFieldThrows(v: ConditionView, kind: ConditionKind, row: int, target: Target, rows: Result<seq<Row>>,
                                  service: Service.ModelService, validators: Validators, cultures: Cultures)
    requires service.currentField != null && service.currentField.name.None?
    requires service.currentField.fieldType in {Field, Group, Packet}
    ensures EvaluateAtSpec(v, kind, row, target, rows, CurrentFieldName(service), validators, cultures).result == Fail(NullReference)
  {
  }

  /** A condition of any kind. */
  class Condition {
    const kind: ConditionKind
    var key: Option<string>
    var active: YesNo
    var field: Option<string>
    var entireRow: YesNo
    var locale: KnownCulture
    var style: Option<string>
    // RemarksCondition
    var value: Option<string>
    var criterial: KnownOperator
    // MaximumCondition._maxValue, MinimumCondition._minValue
    var extreme: Option<Extreme>
    // WhenChangeCondition
    var firstSwapStyle: Option<string>
    var secondSwapStyle: Option<string>
    var lastStyle: Option<string>

    /** A new condition is active, applies to its cell only, reads values with
        the current culture and has nothing cached. */
    constructor(kind: ConditionKind)
      ensures this.kind == kind && active == Yes && entireRow == No && locale == Current
      ensures extreme.None? && lastStyle.None? && field.None? && key.None? && style.None? && value.None?
      ensures firstSwapStyle.None? && secondSwapStyle.None? && criterial == EqualTo
    {
      this.kind := kind;
      key := None;
      active := Yes;
      field := None;
      entireRow := No;
      locale := Current;
      style := None;
      value := None;
      criterial := EqualTo;
      extreme := None;
      firstSwapStyle := None;
      secondSwapStyle := None;
      lastStyle := None;
    }

    function View(): ConditionView
      reads this
    {
      ConditionView(field, locale, style, value, criterial, extreme, firstSwapStyle, secondSwapStyle, lastStyle)
    }

    method SetActive(v: YesNo)
      modifies this`active
      ensures active == v
    {
      active := v;
    }

    method SetEntireRow(v: YesNo)
      modifies this`entireRow
      ensures entireRow == v
    {
      entireRow := v;
    }

    /** The Field setter: null, and names that are not valid field names, are refused. */
    method SetField(v: Option<string>, validators: Validators) returns (o: Outcome)
      modifies this`field
      ensures o == FieldNameCheck(v, validators)
      ensures field == if o == Pass then v else old(field)
    {
      o := FieldNameCheck(v, validators);
      if o == Pass {
        field := v;
      }
    }

    /** The Key setter: null, and invalid identifiers, are refused. */
    method SetKey(v: Option<string>, validators: Validators) returns (o: Outcome)
      modifies this`key
      ensures o == IdentifierCheck(v, validators)
      ensures key == if o == Pass then v else old(key)
    {
      o := IdentifierCheck(v, validators);
      if o == Pass {
        key := v;
      }
    }

    /** The Locale setter. */
    method SetLocale(v: KnownCulture, validators: Validators)
      modifies this`locale
      ensures locale == AcceptedLocale(v, validators)
    {
      locale := if v == Current || validators.isValidCulture(v) then v else Current;
    }

    /** The Style setter of the Remarks, Zero, Maximum and Minimum conditions. */
    method SetStyle(v: Option<string>, validators: Validators) returns (o: Outcome)
      modifies this`style
      ensures o == IdentifierCheck(v, validators)
      ensures style == if o == Pass then v else old(style)
    {
      o := IdentifierCheck(v, validators);
      if o == Pass {
        style := v;
      }
    }

    /** RemarksCondition's Value setter: null is refused. */
    method SetValue(v: Option<string>) returns (o: Outcome)
      modifies this`value
      ensures v.None? ==> o == Failure(ArgumentNull)
      ensures v.Some? ==> o == Pass
      ensures value == if o == Pass then v else old(value)
    {
      if v.None? {
        return Failure(ArgumentNull);
      }
      value := v;
      o := Pass;
    }

    /** RemarksCondition's Criterial setter: a value outside the enumeration is refused. */
    method SetCriterial(v: KnownOperator) returns (o: Outcome)
      modifies this`criterial
      ensures v.Undefined? ==> o == Failure(InvalidEnum)
      ensures !v.Undefined? ==> o == Pass
      ensures criterial == if o == Pass then v else old(criterial)
    {
      if v.Undefined? {
        return Failure(InvalidEnum);
      }
      criterial := v;
      o := Pass;
    }

    /** WhenChangeCondition's FirstSwapStyle setter. */
    method SetFirstSwapStyle(v: Option<string>, validators: Validators) returns (o: Outcome)
      modifies this`firstSwapStyle
      ensures o == IdentifierCheck(v, validators)
      ensures firstSwapStyle == if o == Pass then v else old(firstSwapStyle)
    {
      o := IdentifierCheck(v, validators);
      if o == Pass {
        firstSwapStyle := v;
      }
    }

    /** WhenChangeCondition's SecondSwapStyle setter. */
    method SetSecondSwapStyle(v: Option<string>, validators: Validators) returns (o: Outcome)
      modifies this`secondSwapStyle
      ensures o == IdentifierCheck(v, validators)
      ensures secondSwapStyle == if o == Pass then v else old(secondSwapStyle)
    {
      o := IdentifierCheck(v, validators);
      if o == Pass {
        secondSwapStyle := v;
      }
    }

    /** BaseCondition.GetFieldAttributeEnumerable: the non-empty values of
        attribute Field (exact name) in the service's filtered rows. */
    method GetFieldAttributeEnumerable(service: Service.ModelService, current: Culture) returns (r: Result<seq<string>>)
      ensures r == AttributeValues(service.RawDataFiltered(current), field)
    {
      var rows := service.RawDataFiltered(current);
      if rows.Fail? {
        return Fail(rows.error);
      }
      var valid: seq<string> := [];
      var i := 0;
      while i < |rows.value|
        invariant 0 <= i <= |rows.value|
        invariant valid == FieldAttributes(rows.value[..i], field)
      {
        var attr := if field.None? then None else Attribute(rows.value[i], field.value);
        assert rows.value[..i + 1][..i] == rows.value[..i];
        if attr.Some? && attr.value != "" {
          valid := valid + [attr.value];
        }
        i := i + 1;
      }
      assert rows.value[..i] == rows.value;
      r := Ok(valid);
    }

    /** CalculateNumericMaxValue, CalculateDateTimeMaxValue and the minimum
        counterparts. */
    method CalculateExtreme(kind: ValueKind, largest: bool, service: Service.ModelService, culture: Culture, current: Culture)
      returns (r: Result<Extreme>)
      ensures r == Computed(kind, largest, AttributeValues(service.RawDataFiltered(current), field), culture)
    {
      var data := GetFieldAttributeEnumerable(service, current);
      r := Computed(kind, largest, data, culture);
    }

    /** The computation of MaximumCondition.Evaluate when nothing is
        cached: a numeric value computes a decimal extreme, and a date then
        computes a DateTime extreme that replaces it. */
    method ComputeExtreme(largest: bool, target: Target, service: Service.ModelService, culture: Culture, current: Culture)
      returns (computed: Option<Extreme>, error: Option<Error>)
      ensures Refreshed(computed, error) ==
              Refresh(None, target, largest, AttributeValues(service.RawDataFiltered(current), field), culture)
    {
      computed, error := None, None;
      if target.isNumeric {
        var x := CalculateExtreme(DecimalValue, largest, service, culture, current);
        if x.Fail? {
          return None, Some(x.error);
        }
        computed := Some(x.value);
      }
      if target.isDateTime {
        var x := CalculateExtreme(DateValue, largest, service, culture, current);
        if x.Fail? {
          error := Some(x.error);
        } else {
          computed := Some(x.value);
        }
      }
    }

    /** The caching part of MaximumCondition.Evaluate: compute the extreme
        of the filtered values when nothing is cached yet. */
    method RefreshExtreme(largest: bool, target: Target, service: Service.ModelService, cultures: Cultures)
      returns (error: Option<Error>)
      modifies this`extreme
      ensures Refreshed(extreme, error) ==
              Refresh(old(extreme), target, largest, AttributeValues(old(service.RawDataFiltered(cultures.current)), old(field)),
                      cultures.ofLocale(old(locale)))
    {
      error := None;
      if extreme.None? {
        var computed;
        computed, error := ComputeExtreme(largest, target, service, cultures.ofLocale(locale), cultures.current);
        extreme := computed;
      }
    }

    /** MaximumCondition.Evaluate (largest) and MinimumCondition.Evaluate. */
    method EvaluateExtreme(largest: bool, target: Target, service: Service.ModelService, validators: Validators, cultures: Cultures)
      returns (r: Result<ConditionResult>)
      modifies this`extreme
      ensures var s := ExtremeSpec(old(View()), largest, target, old(service.RawDataFiltered(cultures.current)), validators, cultures);
              r == s.result && extreme == s.extreme
    {
      if target.isText {
        return Ok(Default);
      }
      var error := RefreshExtreme(largest, target, service, cultures);
      if error.Some? {
        return Fail(error.value);
      }
      r := CompareWithExtreme(View(), extreme, target, validators, cultures);
    }

    /** WhenChangeCondition.Evaluate. */
    method EvaluateWhenChange(row: int, service: Service.ModelService, cultures: Cultures) returns (r: Result<ConditionResult>)
      modifies this`lastStyle
      ensures Evaluated(r, extreme, lastStyle) ==
              WhenChangeSpec(old(View()), row, old(service.RawDataFiltered(cultures.current)), old(CurrentFieldName(service)))
    {
      var rows := service.RawDataFiltered(cultures.current);
      if rows.Fail? {
        return Fail(rows.error);
      }
      if field.None? {
        return Fail(NullReference);
      }
      var normalizedField := Upper(field.value);
      if row < 0 || row >= |rows.value| {
        return Fail(IndexOutOfRange);
      }
      var previousValue := if row > 0 then Attribute(rows.value[row - 1], normalizedField) else None;
      var currentValue := Attribute(rows.value[row], normalizedField);
      var name := CurrentFieldName(service);
      if name.None? {
        return Fail(NullReference);
      }
      var fieldName := Upper(name.value);
      if previousValue.None? {
        if normalizedField != fieldName {
          return Ok(Default);
        }
        lastStyle := firstSwapStyle;
        return Ok(ConditionResult(true, lastStyle));
      }
      if normalizedField != fieldName {
        return Ok(Default);
      }
      if currentValue == previousValue {
        return Ok(ConditionResult(true, lastStyle));
      }
      if secondSwapStyle.None? || secondSwapStyle.value == "" {
        return Ok(ConditionResult(true, lastStyle));
      }
      lastStyle := if lastStyle == firstSwapStyle then secondSwapStyle else firstSwapStyle;
      r := Ok(ConditionResult(true, lastStyle));
    }

    /** Evaluate(row, col, target): the kind's own evaluation. */
    method EvaluateTarget(row: int, col: int, target: Target, service: Service.ModelService, validators: Validators, cultures: Cultures)
      returns (r: Result<ConditionResult>)
      modifies this`extreme, this`lastStyle
      ensures var s := Step(old(View()), kind, row, target, old(service.RawDataFiltered(cultures.current)),
                            old(CurrentFieldName(service)), validators, cultures);
              r == s.result && extreme == s.extreme && lastStyle == s.last
    {
      match kind
      case Remarks =>
        r := RemarksSpec(View(), target, cultures);
      case Zero =>
        r := ZeroSpec(View(), target, validators, cultures);
      case Maximum =>
        r := EvaluateExtreme(true, target, service, validators, cultures);
      case Minimum =>
        r := EvaluateExtreme(false, target, service, validators, cultures);
      case WhenChange =>
        r := EvaluateWhenChange(row, service, cultures);
    }

    /** BaseCondition.Evaluate(row, col); `target` is the current field's
        value information. */
    method EvaluateAt(row: int, col: int, target: Target, service: Service.ModelService, validators: Validators, cultures: Cultures)
      returns (r: Result<ConditionResult>)
      modifies this`extreme, this`lastStyle
      ensures var s := EvaluateAtSpec(old(View()), kind, row, target, old(service.RawDataFiltered(cultures.current)),
                                      old(CurrentFieldName(service)), validators, cultures);
              r == s.result && extreme == s.extreme && lastStyle == s.last
    {
      if field.None? {
        return Fail(NullReference);
      }
      var name := CurrentFieldName(service);
      if name.None? {
        return Fail(NullReference);
      }
      if Upper(field.value) != Upper(name.value) {
        return Ok(Default);
      }
      r := EvaluateTarget(row, col, target, service, validators, cultures);
    }

    /** BaseCondition.Evaluate(): at the service's current row and column. */
    method Evaluate(target: Target, service: Service.ModelService, validators: Validators, cultures: Cultures)
      returns (r: Result<ConditionResult>)
      modifies this`extreme, this`lastStyle
      ensures var s := EvaluateAtSpec(old(View()), kind, old(service.currentRow), target, old(service.RawDataFiltered(cultures.current)),
                                      old(CurrentFieldName(service)), validators, cultures);
              r == s.result && extreme == s.extreme && lastStyle == s.last
    {
      r := EvaluateAt(service.currentRow, service.currentCol, target, service, validators, cultures);
    }
  }
}
