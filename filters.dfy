// Data filters: the predicate a Filter builds over the XElement rows of the
// data (BuildFilterExpression), the Filter itself and the collection that
// holds the filters of a table's resources.

module Filters {
  import opened Wrappers
  import opened Known
  import opened Rows
  import opened Text
  import Collections

  /** The four orderings of the comparison operators. */
  datatype Comparison = Greater | AtLeast | Less | AtMost

  predicate Holds(cmp: Comparison, x: real, bound: real)
  {
    match cmp
    case Greater => x > bound
    case AtLeast => x >= bound
    case Less => x < bound
    case AtMost => x <= bound
  }

  /** The specification BuildFilterExpression returns. Every leaf reads the
      attribute `field` of the row and upper-cases its value. `Within` is the
      substring test of Like; `Compare` parses the value as a decimal
      (`commas`: after turning '.' into ','). */
  datatype Spec =
    | Equal(field: string, value: string)
    | Within(field: string, value: string)
    | InTokens(field: string, tokens: seq<string>)
    | Compare(field: string, cmp: Comparison, bound: real, commas: bool)
    | Both(left: Spec, right: Spec)
    | Not(inner: Spec)

  /** `s.Replace(".", ",")`. */
  function Commas(s: string): (r: string)
    ensures |r| == |s| && '.' !in r
  {
    ReplaceChar(s, '.', ',')
  }

  /** IsSatisfiedBy for one row. A missing attribute throws a
      NullReferenceException and a value decimal.Parse rejects the parser's
      FormatException or OverflowException; `Both` is the And of two specifications, which
      evaluates its right side only when the left one holds. */
  function IsSatisfiedBy(s: Spec, row: Row, culture: Culture): Result<bool>
  {
    match s
    case Both(left, right) =>
      (match IsSatisfiedBy(left, row, culture)
       case Fail(e) => Fail(e)
       case Ok(b) => if b then IsSatisfiedBy(right, row, culture) else Ok(false))
    case Not(inner) =>
      (match IsSatisfiedBy(inner, row, culture)
       case Fail(e) => Fail(e)
       case Ok(b) => Ok(!b))
    case _ =>
      match Attribute(row, s.field)
      case None => Fail(NullReference)
      case Some(a) =>
        var v := Upper(a);
        match s
        case Equal(_, value) => Ok(v == value)
        case Within(_, value) => Ok(Contains(v, value))
        case InTokens(_, tokens) => Ok(v in tokens)
        case Compare(_, cmp, bound, commas) =>
          match culture.parseDecimal(if commas then Commas(v) else v)
          case Number(x) => Ok(Holds(cmp, x, bound))
          case Malformed => Fail(Format)
          case OutOfRange => Fail(Overflow)
  }

  /** decimal.Parse of a bound given in the filter's Value, after '.' -> ','.
      A text that is no number throws Format, a number outside decimal's
      range throws Overflow. */
  function ParseBound(text: string, culture: Culture): (r: Result<real>)
    ensures var p := culture.parseDecimal(Commas(text));
            (r.Ok? <==> p.Number?) && (r.Ok? ==> r.value == p.value) &&
            (p.Malformed? ==> r == Fail(Format)) && (p.OutOfRange? ==> r == Fail(Overflow))
  {
    var p := culture.parseDecimal(Commas(text));
    if p.Number? then Ok(p.value) else Fail(ParseError(p))
  }

  /** A comparison operator against the parsed Value. */
  function CompareTo(field: string, cmp: Comparison, value: string, culture: Culture): Result<Spec>
  {
    match ParseBound(value, culture)
    case Fail(e) => Fail(e)
    case Ok(b) => Ok(Compare(field, cmp, b, false))
  }

  /** Filter.BuildFilterExpression (and the identical BaseFilter one), as
      written: a null Field throws, Beetween needs exactly two space-separated
      bounds, an unknown operator throws, and NotEqualTo builds the EqualTo
      specification. */
  function BuildFilterExpression(op: KnownOperator, field: Option<string>, value: string, culture: Culture): (r: Result<Spec>)
    ensures field.None? ==> r == Fail(NullReference)
    ensures field.Some? && op.Undefined? ==> r == Fail(ArgumentOutOfRange)
    ensures field.Some? && op == Beetween && |Split(Upper(value), ' ')| != 2 ==> r == Fail(ArgumentOutOfRange)
    ensures r.Fail? && field.Some? && !op.Undefined? && op != Beetween ==>
              r.error in {Format, Overflow} && op in {GreatherThan, GreatherOrEqualsThan, LessThan, LessOrEqualThan}
  {
    if field.None? then Fail(NullReference)
    else
      var f := Upper(field.value);
      var v := Upper(value);
      match op
      case Beetween =>
        var tokens := Split(v, ' ');
        if |tokens| != 2 then Fail(ArgumentOutOfRange)
        else
          (match ParseBound(tokens[0], culture)
           case Fail(e) => Fail(e)
           case Ok(low) =>
             match ParseBound(tokens[1], culture)
             case Fail(e) => Fail(e)
             case Ok(high) => Ok(Both(Compare(f, AtLeast, low, true), Compare(f, AtMost, high, true))))
      case EqualTo => Ok(Equal(f, v))
      case GreatherThan => CompareTo(f, Greater, v, culture)
      case GreatherOrEqualsThan => CompareTo(f, AtLeast, v, culture)
      case In => Ok(InTokens(f, Split(v, ' ')))
      case LessThan => CompareTo(f, Less, v, culture)
      case LessOrEqualThan => CompareTo(f, AtMost, v, culture)
      case Like => Ok(Within(f, v))
      case NotEqualTo => Ok(Equal(f, v))
      case Undefined(_) => Fail(ArgumentOutOfRange)
  }

  /** The evidently intended builder: NotEqualTo negates EqualTo; every
      other operator is built as written. */
  function BuildFilter(op: KnownOperator, field: Option<string>, value: string, culture: Culture): (r: Result<Spec>)
    ensures op != NotEqualTo ==> r == BuildFilterExpression(op, field, value, culture)
  {
    if op == NotEqualTo then
      match BuildFilterExpression(EqualTo, field, value, culture)
      case Fail(e) => Fail(e)
      case Ok(s) => Ok(Not(s))
    else BuildFilterExpression(op, field, value, culture)
  }

  /** The attribute a filter on `field` reads, upper-cased. */
  function Target(row: Row, field: string): Option<string>
  {
    match Attribute(row, Upper(field))
    case None => None
    case Some(a) => Some(Upper(a))
  }

  /** EqualTo: the upper-cased attribute equals the upper-cased Value. */
  lemma EqualToMeaning(field: string, value: string, culture: Culture, row: Row)
    ensures BuildFilter(EqualTo, Some(field), value, culture).Ok?
    ensures IsSatisfiedBy(BuildFilter(EqualTo, Some(field), value, culture).value, row, culture) ==
              if Target(row, field).None? then Fail(NullReference)
              else Ok(Target(row, field).value == Upper(value))
  {
  }

  /** Like: the upper-cased attribute contains the upper-cased Value. */
  lemma LikeMeaning(field: string, value: string, culture: Culture, row: Row)
    ensures BuildFilter(Like, Some(field), value, culture).Ok?
    ensures IsSatisfiedBy(BuildFilter(Like, Some(field), value, culture).value, row, culture) ==
              if Target(row, field).None? then Fail(NullReference)
              else Ok(Contains(Target(row, field).value, Upper(value)))
  {
  }

  /** In: the upper-cased attribute is one of the space-separated words of the
      upper-cased Value, which join back to it. */
  lemma {:induction false} InMeaning(field: string, value: string, culture: Culture, row: Row)
    ensures BuildFilter(In, Some(field), value, culture).Ok?
    ensures var s := BuildFilter(In, Some(field), value, culture).value;
            s.InTokens? && Join(s.tokens, ' ') == Upper(value) &&
            forall k | 0 <= k < |s.tokens| :: ' ' !in s.tokens[k]
    ensures IsSatisfiedBy(BuildFilter(In, Some(field), value, culture).value, row, culture) ==
              if Target(row, field).None? then Fail(NullReference)
              else Ok(Target(row, field).value in Split(Upper(value), ' '))
  {
    JoinSplit(Upper(value), ' ');
  }

  /** Beetween is built exactly when the upper-cased Value holds exactly one
      space and both bounds parse; a row passes when its parsed value lies
      between them, both ends included, and a row value decimal.Parse
      rejects throws that parser's exception. */
  lemma {:induction false} BeetweenMeaning(field: string, value: string, culture: Culture, row: Row)
    ensures var r := BuildFilter(Beetween, Some(field), value, culture);
            r.Ok? <==> Count(Upper(value), ' ') == 1 &&
                       ParseBound(Split(Upper(value), ' ')[0], culture).Ok? &&
                       ParseBound(Split(Upper(value), ' ')[1], culture).Ok?
    ensures var r := BuildFilter(Beetween, Some(field), value, culture);
            var t := Target(row, field);
            var x := if t.Some? then culture.parseDecimal(Commas(t.value)) else Malformed;
            r.Ok? && t.Some? ==>
              var tokens := Split(Upper(value), ' ');
              IsSatisfiedBy(r.value, row, culture) ==
                if x.Number? then Ok(ParseBound(tokens[0], culture).value <= x.value <= ParseBound(tokens[1], culture).value)
                else Fail(ParseError(x))
  {
    SplitCount(Upper(value), ' ');
  }

  /** The four comparisons: a Value decimal.Parse rejects (after '.' -> ',')
      throws when the filter is built, Format for a text that is no number and
      Overflow for a number outside decimal's range; otherwise a row passes
      when its parsed value compares so with the bound, and a row whose value
      decimal.Parse rejects throws that parser's exception. */
  lemma ComparisonMeaning(op: KnownOperator, field: string, value: string, culture: Culture, row: Row)
    requires op in {GreatherThan, GreatherOrEqualsThan, LessThan, LessOrEqualThan}
    ensures var r := BuildFilter(op, Some(field), value, culture);
            var p := culture.parseDecimal(Commas(Upper(value)));
            (r.Ok? <==> p.Number?) && (p.Malformed? ==> r == Fail(Format)) && (p.OutOfRange? ==> r == Fail(Overflow))
    ensures var r := BuildFilter(op, Some(field), value, culture);
            var t := Target(row, field);
            var cmp := match op
                       case GreatherThan => Greater
                       case GreatherOrEqualsThan => AtLeast
                       case LessThan => Less
                       case _ => AtMost;
            var x := if t.Some? then culture.parseDecimal(t.value) else Malformed;
            r.Ok? && t.Some? ==>
              IsSatisfiedBy(r.value, row, culture) ==
                if x.Number? then Ok(Holds(cmp, x.value, culture.parseDecimal(Commas(Upper(value))).value))
                else Fail(ParseError(x))
  {
  }

  /** As written, NotEqualTo keeps the rows whose attribute equals the Value,
      exactly like EqualTo: a row with A = "x" passes `A NotEqualTo x`. */
  lemma NotEqualToAsWritten(culture: Culture)
    ensures forall field, value :: BuildFilterExpression(NotEqualTo, field, value, culture) ==
                                   BuildFilterExpression(EqualTo, field, value, culture)
    ensures var s := BuildFilterExpression(NotEqualTo, Some("A"), "x", culture);
            s.Ok? && IsSatisfiedBy(s.value, map["A" := "X"], culture) == Ok(true)
  {
    assert Upper("A") == "A";
    assert Upper("x") == "X";
    assert Upper("X") == "X";
  }

  /** With the intended builder, NotEqualTo passes a row exactly when EqualTo
      rejects it, and both throw on the same rows. */
  lemma NotEqualToNegates(field: Option<string>, value: string, culture: Culture, row: Row)
    ensures BuildFilter(NotEqualTo, field, value, culture).Ok? <==> BuildFilter(EqualTo, field, value, culture).Ok?
    ensures var eq := BuildFilter(EqualTo, field, value, culture);
            var ne := BuildFilter(NotEqualTo, field, value, culture);
            eq.Ok? ==>
              (IsSatisfiedBy(ne.value, row, culture).Ok? <==> IsSatisfiedBy(eq.value, row, culture).Ok?) &&
              (IsSatisfiedBy(eq.value, row, culture).Ok? ==>
                 IsSatisfiedBy(ne.value, row, culture).value == !IsSatisfiedBy(eq.value, row, culture).value)
  {
  }

  /** List.FindAll with the specification: the rows that satisfy it, in
      order; the first row whose test throws makes the whole call throw. */
  function FindAll(s: Spec, rows: seq<Row>, culture: Culture): Result<seq<Row>>
  {
    if rows == [] then Ok([])
    else
      match IsSatisfiedBy(s, rows[0], culture)
      case Fail(e) => Fail(e)
      case Ok(b) =>
        match FindAll(s, rows[1..], culture)
        case Fail(e) => Fail(e)
        case Ok(rest) => Ok(if b then [rows[0]] + rest else rest)
  }

  /** How many of the rows satisfy the specification. */
  function Passing(s: Spec, rows: seq<Row>, culture: Culture): nat
  {
    if rows == [] then 0
    else (if IsSatisfiedBy(s, rows[0], culture) == Ok(true) then 1 else 0) + Passing(s, rows[1..], culture)
  }

  /** FindAll succeeds exactly when every row can be tested; it then returns
      a subsequence of the rows, all of which pass, as many as pass: the
      passing rows in their original order. */
  lemma {:induction false} FindAllMeaning(s: Spec, rows: seq<Row>, culture: Culture)
    ensures FindAll(s, rows, culture).Ok? <==>
              forall i | 0 <= i < |rows| :: IsSatisfiedBy(s, rows[i], culture).Ok?
    ensures var r := FindAll(s, rows, culture);
            r.Ok? ==> Collections.IsSubsequence(r.value, rows) &&
                      (forall x | x in r.value :: IsSatisfiedBy(s, x, culture) == Ok(true)) &&
                      |r.value| == Passing(s, rows, culture)
    decreases |rows|
  {
    if rows != [] {
      FindAllMeaning(s, rows[1..], culture);
      var r := FindAll(s, rows, culture);
      var t := FindAll(s, rows[1..], culture);
      if r.Ok? {
        assert t.Ok?;
        if IsSatisfiedBy(s, rows[0], culture) == Ok(true) {
          assert r.value == [rows[0]] + t.value;
          assert r.value[1..] == t.value;
        } else {
          assert r.value == t.value;
          if t.value != [] {
            assert Collections.IsSubsequence(t.value, rows[1..]);
          }
        }
      }
      forall i | 0 <= i < |rows[1..]| ensures rows[1..][i] == rows[i + 1] {
      }
    }
  }

  /** When every row can be tested, each row passes exactly one of a
      specification and its negation. */
  lemma {:induction false} PassingComplement(s: Spec, rows: seq<Row>, culture: Culture)
    requires forall i | 0 <= i < |rows| :: IsSatisfiedBy(s, rows[i], culture).Ok?
    ensures Passing(Not(s), rows, culture) + Passing(s, rows, culture) == |rows|
    decreases |rows|
  {
    if rows != [] {
      forall i | 0 <= i < |rows[1..]| ensures rows[1..][i] == rows[i + 1] {
      }
      PassingComplement(s, rows[1..], culture);
    }
  }

  /** Filter: a data filter of a table's resources (BaseFilter is the same
      class in the other model tree). A new filter is active with an empty
      Value; Field and Key are null until set. */
  class Filter {
    var owner: FiltersCollection?
    var active: YesNo
    var criterial: KnownOperator
    var field: Option<string>
    var key: Option<string>
    var value: string

    constructor()
      ensures owner == null && active == Yes && value == "" && field.None? && key.None?
      ensures criterial == EqualTo
    {
      owner := null;
      active := Yes;
      criterial := EqualTo;
      field := None;
      key := None;
      value := "";
    }

    /** The Criterial setter: a value outside the enumeration is rejected. */
    method SetCriterial(v: KnownOperator) returns (o: Outcome)
      modifies this`criterial
      ensures v.Undefined? <==> o == Failure(InvalidEnum)
      ensures o.Failure? ==> o == Failure(InvalidEnum)
      ensures criterial == if o == Pass then v else old(criterial)
    {
      if v.Undefined? {
        return Failure(InvalidEnum);
      }
      criterial := v;
      o := Pass;
    }

    /** The Active setter. */
    method SetActive(v: YesNo)
      modifies this`active
      ensures active == v
    {
      active := v;
    }

    /** The Field setter: null and invalid field names are rejected. */
    method SetField(v: Option<string>, validators: Validators) returns (o: Outcome)
      modifies this`field
      ensures v.None? ==> o == Failure(ArgumentNull)
      ensures v.Some? ==> (o == Pass <==> validators.isValidFieldName(v.value))
      ensures v.Some? && o != Pass ==> o == Failure(InvalidFieldName)
      ensures field == if o == Pass then v else old(field)
    {
      if v.None? {
        return Failure(ArgumentNull);
      }
      if !validators.isValidFieldName(v.value) {
        return Failure(InvalidFieldName);
      }
      field := v;
      o := Pass;
    }

    /** The Key setter: null is rejected. */
    method SetKey(v: Option<string>) returns (o: Outcome)
      modifies this`key
      ensures v.None? <==> o == Failure(ArgumentNull)
      ensures o.Failure? ==> o == Failure(ArgumentNull)
      ensures key == if o == Pass then v else old(key)
    {
      if v.None? {
        return Failure(ArgumentNull);
      }
      key := v;
      o := Pass;
    }

    /** The Value setter: null is rejected. */
    method SetValue(v: Option<string>) returns (o: Outcome)
      modifies this`value
      ensures v.None? <==> o == Failure(ArgumentNull)
      ensures o.Failure? ==> o == Failure(ArgumentNull)
      ensures value == if o == Pass then v.value else old(value)
    {
      if v.None? {
        return Failure(ArgumentNull);
      }
      value := v.value;
      o := Pass;
    }

    method SetOwner(reference: FiltersCollection?)
      modifies this`owner
      ensures owner == reference
    {
      owner := reference;
    }

    /** Filter.BuildFilterExpression on this filter's Criterial, Field and
        Value, as the service calls it: a filter without a Field throws, and
        NotEqualTo selects the rows EqualTo selects. */
    function Expression(culture: Culture): (r: Result<Spec>)
      reads this`criterial, this`field, this`value
      ensures field.None? ==> r == Fail(NullReference)
      ensures criterial == NotEqualTo ==> r == BuildFilterExpression(EqualTo, field, value, culture)
    {
      BuildFilterExpression(criterial, field, value, culture)
    }

    /** The expression the evidently intended builder makes: the same as
        Expression, except that NotEqualTo negates it. */
    function IntendedExpression(culture: Culture): (r: Result<Spec>)
      reads this`criterial, this`field, this`value
      ensures criterial != NotEqualTo ==> r == Expression(culture)
      ensures criterial == NotEqualTo ==>
                (r.Ok? <==> Expression(culture).Ok?) &&
                (r.Ok? ==> r.value == Not(Expression(culture).value))
    {
      BuildFilter(criterial, field, value, culture)
    }
  }

  function FilterKeys(fs: seq<Filter>): (r: seq<Option<string>>)
    reads set f | f in fs
    ensures |r| == |fs| && forall i | 0 <= i < |fs| :: r[i] == fs[i].key
  {
    if fs == [] then [] else [fs[0].key] + FilterKeys(fs[1..])
  }

  /** FiltersCollection: the filters of a table's resources (the same in
      both model trees). */
  class FiltersCollection {
    var items: seq<Filter>

    constructor()
      ensures items == []
    {
      items := [];
    }

    /** GetBy, the indexer: the first filter whose Key is `value`, or null. */
    function GetBy(value: string): (r: Filter?)
      reads this, set f | f in items
      ensures r != null ==> exists i | 0 <= i < |items| :: items[i] == r && r.key == Some(value) &&
                                                         forall j | 0 <= j < i :: items[j].key != Some(value)
      ensures r == null <==> forall i | 0 <= i < |items| :: items[i].key != Some(value)
    {
      match Collections.FirstIndex(FilterKeys(items), Some(value))
      case None => null
      case Some(i) => items[i]
    }

    /** BaseComplexModelCollection.Contains. */
    predicate Contains(value: string)
      reads this, set f | f in items
      ensures Contains(value) <==> Some(value) in FilterKeys(items)
    {
      GetBy(value) != null
    }

    /** SetOwner: null is rejected, otherwise the item's owner becomes this collection. */
    method SetOwner(item: Filter?) returns (o: Outcome)
      modifies if item != null then {item} else {}
      ensures item == null ==> o == Failure(ArgumentNull)
      ensures item != null ==>
                o == Pass && item.owner == this &&
                unchanged(item`active, item`criterial, item`field, item`key, item`value)
    {
      if item == null {
        return Failure(ArgumentNull);
      }
      item.SetOwner(this);
      o := Pass;
    }
  }
}
