// What FieldValue.GetValue and FieldValue.GetRawValue compute, stated on
// values: a field's settings, its data row, the special characters of the
// provider and the table resources. The methods of Fields.FieldValue are
// proved against these functions.

module FieldValues {
  import opened Wrappers
  import opened Known
  import opened Rows
  import opened Text
  import opened FieldNames
  import PacketFormats
  import Separators
  import Collections
  import TrimModes
  import opened FixedResources
  import opened GroupResources
  import opened TableResources

  /** The settings of a field that its value depends on: `name` is the Name
      of a data, group or packet field, `piece` and `pieces` the Piece and
      Pieces of a fixed field. */
  datatype FieldView = FieldView(fieldType: KnownFieldType, name: Option<string>, piece: Option<string>,
                                 pieces: Option<string>, inputFormat: string)

  /** The Field branch: the attribute named as parsed, else upper-cased,
      else lower-cased, else "". */
  function FieldAttribute(row: Row, parsed: string): (r: string)
    ensures parsed in row ==> r == row[parsed]
    ensures parsed !in row && Upper(parsed) in row ==> r == row[Upper(parsed)]
    ensures parsed !in row && Upper(parsed) !in row && Lower(parsed) in row ==> r == row[Lower(parsed)]
    ensures r == "" || (exists n | n in row :: r == row[n])
    ensures parsed !in row && Upper(parsed) !in row && Lower(parsed) !in row ==> r == ""
  {
    if parsed in row then row[parsed]
    else if Upper(parsed) in row then row[Upper(parsed)]
    else if Lower(parsed) in row then row[Lower(parsed)]
    else ""
  }

  /** FixedCollection's indexer on values: nothing for "", else the search
      for the first Fixed of that name, which throws at an unnamed one. */
  function FindFixed(fs: seq<FixedView>, value: string): (r: Result<Option<nat>>)
    ensures value == "" ==> r == Ok(None)
    ensures r.Ok? && r.value.Some? ==> r.value.value < |fs| && fs[r.value.value].name == Some(value)
    ensures r == Ok(None) && value != "" ==> forall i | 0 <= i < |fs| :: fs[i].name.Some? && fs[i].name != Some(value)
    ensures r.Fail? ==> r == Fail(NullReference) && exists i | 0 <= i < |fs| :: fs[i].name.None?
  {
    if value == "" then Ok(None)
    else
      var names := seq(|fs|, i requires 0 <= i < |fs| => fs[i].name);
      assert forall i | 0 <= i < |fs| :: names[i] == fs[i].name;
      Collections.FindKey(names, value)
  }

  /** GroupsCollection's indexer on values: the search for the first group
      of that name, which throws at an unnamed one. */
  function FindGroup(gs: seq<GroupView>, value: string): (r: Result<Option<nat>>)
    ensures r.Ok? && r.value.Some? ==> r.value.value < |gs| && gs[r.value.value].name == Some(value)
    ensures r == Ok(None) <==> forall i | 0 <= i < |gs| :: gs[i].name.Some? && gs[i].name != Some(value)
    ensures r.Fail? ==> r == Fail(NullReference) && exists i | 0 <= i < |gs| :: gs[i].name.None?
  {
    var names := seq(|gs|, i requires 0 <= i < |gs| => gs[i].name);
    assert forall i | 0 <= i < |gs| :: names[i] == gs[i].name;
    Collections.FindKey(names, value)
  }

  /** `Pieces.FirstOrDefault(piece => piece.Name == value)` on values. */
  function FindPiece(ps: seq<PieceView>, value: string): (r: Option<nat>)
    ensures r.Some? ==> r.value < |ps| && ps[r.value].name == value
    ensures r.None? <==> forall i | 0 <= i < |ps| :: ps[i].name != value
  {
    Collections.FirstIndex(PieceNames(ps), value)
  }

  /** FixedCollection's indexer finds the Fixed FindFixed finds on its
      views, and throws when FindFixed does. */
  lemma FindFixedAgrees(c: FixedCollection, value: string)
    ensures var k := FindFixed(FixedViews(c.items), value);
            c.GetBy(value) == match k
                              case Fail(e) => Fail(e)
                              case Ok(None) => Ok(null)
                              case Ok(Some(i)) => Ok(c.items[i] as Fixed?)
  {
    var fs := FixedViews(c.items);
    forall i | 0 <= i < |c.items|
      ensures fs[i] == c.items[i].View()
    {
      FixedViewsAt(c.items, i);
    }
    assert seq(|fs|, i requires 0 <= i < |fs| => fs[i].name) == c.Names();
  }

  /** GroupsCollection's indexer finds the group FindGroup finds on its
      views, and throws when FindGroup does. */
  lemma FindGroupAgrees(c: GroupsCollection, value: string)
    ensures var k := FindGroup(GroupViews(c.items), value);
            c.GetBy(value) == match k
                              case Fail(e) => Fail(e)
                              case Ok(None) => Ok(null)
                              case Ok(Some(i)) => Ok(c.items[i] as Group?)
  {
    var gs := GroupViews(c.items);
    forall i | 0 <= i < |c.items|
      ensures gs[i] == c.items[i].View()
    {
      GroupViewsAt(c.items, i);
    }
    assert seq(|gs|, i requires 0 <= i < |gs| => gs[i].name) == GroupNames(c.items);
  }

  /** Reading one Fixed: the first piece of that name supplies its value
      (or the error reading it); None is the null of a missing piece. */
  function ReadPieceValue(row: Row, reference: Option<string>, ps: seq<PieceView>, name: string): (r: Option<Result<string>>)
    ensures r.None? <==> FindPiece(ps, name).None?
    ensures r.Some? ==> r.value == PieceValue(row, reference, ps[FindPiece(ps, name).value])
  {
    match FindPiece(ps, name)
    case None => None
    case Some(j) => Some(PieceValue(row, reference, ps[j]))
  }

  /** The Fixed branch: the Fixed named by Pieces must exist (its data source
      is assigned; a null Pieces finds none), Piece must not be null when it
      is parsed, and the piece named by the parsed Piece may be missing, and
      then the value is null. */
  function FixedFieldValue(row: Row, chars: seq<char>, f: FieldView, fs: seq<FixedView>): (r: Result<Option<string>>)
    ensures f.pieces.None? ==> r == Fail(NullReference)
    ensures f.pieces.Some? && (FindFixed(fs, f.pieces.value).Fail? || FindFixed(fs, f.pieces.value) == Ok(None)) ==>
              r == Fail(NullReference)
    ensures f.pieces.Some? && FindFixed(fs, f.pieces.value).Ok? && FindFixed(fs, f.pieces.value).value.Some? && f.piece.None? ==>
              r == Fail(ArgumentNull)
    ensures r.Fail? ==> r.error in {NullReference, ArgumentNull, ArgumentOutOfRange}
  {
    if f.pieces.None? then Fail(NullReference)
    else
      match FindFixed(fs, f.pieces.value)
      case Fail(e) => Fail(e)
      case Ok(None) => Fail(NullReference)
      case Ok(Some(k)) => FixedPieceValue(row, chars, f.piece, fs[k].reference, fs[k].pieces)
  }

  /** The Fixed branch once the Fixed is found: a null Piece throws when it
      is parsed; otherwise the value of the piece of the parsed name, or
      null when there is none. */
  function FixedPieceValue(row: Row, chars: seq<char>, piece: Option<string>, reference: Option<string>, ps: seq<PieceView>): (r: Result<Option<string>>)
    ensures piece.None? ==> r == Fail(ArgumentNull)
    ensures r.Fail? ==> r.error in {ArgumentNull, ArgumentOutOfRange}
  {
    if piece.None? then Fail(ArgumentNull)
    else
      match ReadPieceValue(row, reference, ps, ParsedName(piece.value, chars))
      case None => Ok(None)
      case Some(v) => if v.Fail? then Fail(v.error) else Ok(Some(v.value))
  }

  /** A value comes from a piece of the parsed Piece name in a Fixed named by
      Pieces; a null value means that Fixed holds no such piece. */
  lemma FixedFieldValueMeaning(row: Row, chars: seq<char>, f: FieldView, fs: seq<FixedView>)
    ensures var r := FixedFieldValue(row, chars, f, fs);
            r.Ok? ==> f.pieces.Some? && f.piece.Some?
    ensures var r := FixedFieldValue(row, chars, f, fs);
            (r.Ok? && r.value.Some? ==>
               exists k, j | 0 <= k < |fs| && 0 <= j < |fs[k].pieces| ::
                 fs[k].name == f.pieces && fs[k].pieces[j].name == ParsedName(f.piece.value, chars) &&
                 PieceValue(row, fs[k].reference, fs[k].pieces[j]) == Ok(r.value.value)) &&
            (r.Ok? && r.value.None? ==>
               exists k | 0 <= k < |fs| :: fs[k].name == f.pieces &&
                 forall j | 0 <= j < |fs[k].pieces| :: fs[k].pieces[j].name != ParsedName(f.piece.value, chars))
  {
    var r := FixedFieldValue(row, chars, f, fs);
    if r.Ok? {
      var k := FindFixed(fs, f.pieces.value).value.value;
      var name := ParsedName(f.piece.value, chars);
      if r.value.Some? {
        var j := FindPiece(fs[k].pieces, name).value;
        assert fs[k].pieces[j].name == name;
      }
    }
  }

  /** One Fixed of that search: a piece of the item's name supplies the
      value (or the error reading it), otherwise the carried value stays. */
  function PieceLookup(row: Row, f: FixedView, name: string, carried: string): (r: Result<string>)
    ensures FindPiece(f.pieces, name).None? ==> r == Ok(carried)
    ensures FindPiece(f.pieces, name).Some? ==>
              r == PieceValue(row, f.reference, f.pieces[FindPiece(f.pieces, name).value])
  {
    match ReadPieceValue(row, f.reference, f.pieces, name)
    case None => Ok(carried)
    case Some(v) => v
  }

  /** A group item that is not an attribute of the row: every Fixed is
      searched in order, and each one holding a piece of the item's name
      replaces the value carried so far; with none, the carried value stays. */
  function FixedLookup(row: Row, fs: seq<FixedView>, name: string, carried: string): (r: Result<string>)
    ensures r.Fail? ==> r == Fail(ArgumentNull) || r == Fail(ArgumentOutOfRange)
    decreases |fs|
  {
    if fs == [] then Ok(carried)
    else
      match PieceLookup(row, fs[0], name, carried)
      case Fail(e) => Fail(e)
      case Ok(v) => FixedLookup(row, fs[1..], name, v)
  }

  /** No Fixed holds a piece of that name. */
  predicate NoPieceNamed(fs: seq<FixedView>, name: string)
  {
    forall k | 0 <= k < |fs| :: FindPiece(fs[k].pieces, name).None?
  }

  /** Without a piece of that name anywhere, the carried value is kept. */
  lemma {:induction false} FixedLookupCarries(row: Row, fs: seq<FixedView>, name: string, carried: string)
    requires NoPieceNamed(fs, name)
    ensures FixedLookup(row, fs, name, carried) == Ok(carried)
    decreases |fs|
  {
    if fs != [] {
      assert FindPiece(fs[0].pieces, name).None?;
      FixedLookupCarries(row, fs[1..], name, carried);
    }
  }

  /** The last Fixed holding a piece of that name decides the value. */
  lemma {:induction false} FixedLookupLastWins(row: Row, fs: seq<FixedView>, name: string, carried: string, k: nat)
    requires k < |fs| && FindPiece(fs[k].pieces, name).Some?
    requires NoPieceNamed(fs[k + 1..], name)
    requires FixedLookup(row, fs, name, carried).Ok?
    ensures PieceValue(row, fs[k].reference, fs[k].pieces[FindPiece(fs[k].pieces, name).value]) ==
            FixedLookup(row, fs, name, carried)
    decreases k
  {
    if k == 0 {
      var v := PieceValue(row, fs[0].reference, fs[0].pieces[FindPiece(fs[0].pieces, name).value]);
      assert fs[1..] == fs[k + 1..];
      if v.Ok? {
        FixedLookupCarries(row, fs[1..], name, v.value);
      }
    } else {
      assert fs[1..][k - 1] == fs[k] && fs[1..][k..] == fs[k + 1..];
      match FindPiece(fs[0].pieces, name)
      case None =>
        FixedLookupLastWins(row, fs[1..], name, carried, k - 1);
      case Some(j) =>
        var v := PieceValue(row, fs[0].reference, fs[0].pieces[j]);
        FixedLookupLastWins(row, fs[1..], name, v.value, k - 1);
    }
  }

  /** One group item's value: from the row when its parsed name is an
      attribute (read back through GroupItem.GetValue with the unparsed
      name), otherwise from the Fixed resources. */
  function MemberValue(row: Row, chars: seq<char>, fs: seq<FixedView>, it: ItemView, carried: string): (r: Result<string>)
    ensures ParsedName(it.name, chars) in row ==> (r.Ok? <==> it.name in row)
    ensures r.Fail? ==> r == Fail(ArgumentNull) || r == Fail(ArgumentOutOfRange)
  {
    if ParsedName(it.name, chars) in row then ItemValue(row, it)
    else FixedLookup(row, fs, it.name, carried)
  }

  /** The Group loop: each item's value followed by its separator is
      appended to `builder`, in order; the value of one item is carried into
      the next, and an error ends the loop. */
  function GroupValues(row: Row, chars: seq<char>, fs: seq<FixedView>, items: seq<ItemView>, builder: string, carried: string): (r: Result<string>)
    ensures r.Fail? ==> r == Fail(ArgumentNull) || r == Fail(ArgumentOutOfRange)
    decreases |items|
  {
    if items == [] then Ok(builder)
    else
      match MemberValue(row, chars, fs, items[0], carried)
      case Fail(e) => Fail(e)
      case Ok(v) => GroupValues(row, chars, fs, items[1..], builder + v + Separators.GetSeparatorChar(items[0].separator), v)
  }

  lemma Regroup(b: string, v: string, sep: string, rest: string)
    ensures b + v + sep + rest == b + ("" + v + sep + rest)
  {
    assert "" + v == v;
  }

  /** What the loop appends does not depend on the text before it. */
  lemma {:induction false} GroupValuesExtends(row: Row, chars: seq<char>, fs: seq<FixedView>, items: seq<ItemView>, builder: string, carried: string)
    ensures var r := GroupValues(row, chars, fs, items, builder, carried);
            var e := GroupValues(row, chars, fs, items, "", carried);
            r.Ok? <==> e.Ok?
    ensures var r := GroupValues(row, chars, fs, items, builder, carried);
            var e := GroupValues(row, chars, fs, items, "", carried);
            r.Ok? ==> r.value == builder + e.value
    decreases |items|
  {
    if items != [] {
      var m := MemberValue(row, chars, fs, items[0], carried);
      if m.Ok? {
        var sep := Separators.GetSeparatorChar(items[0].separator);
        GroupValuesExtends(row, chars, fs, items[1..], builder + m.value + sep, m.value);
        GroupValuesExtends(row, chars, fs, items[1..], "" + m.value + sep, m.value);
        var rest := GroupValues(row, chars, fs, items[1..], "", m.value);
        if rest.Ok? {
          Regroup(builder, m.value, sep, rest.value);
        }
      }
    } else {
      assert builder + "" == builder;
    }
  }

  /** A reference definition: the items' trimmed attribute values, each
      followed by its separator. */
  function Joined(row: Row, items: seq<ItemView>): string
    requires forall i | 0 <= i < |items| :: items[i].name in row
  {
    if items == [] then ""
    else
      TrimModes.ParseValue(items[0].trim, items[0].trimMode, row[items[0].name]) +
      Separators.GetSeparatorChar(items[0].separator) + Joined(row, items[1..])
  }

  /** Every item is an attribute of the row under its name and its parsed name. */
  predicate AllInRow(row: Row, chars: seq<char>, items: seq<ItemView>)
  {
    forall i | 0 <= i < |items| :: items[i].name in row && ParsedName(items[i].name, chars) in row
  }

  lemma AllInRowTail(row: Row, chars: seq<char>, items: seq<ItemView>)
    requires items != [] && AllInRow(row, chars, items)
    ensures items[0].name in row && ParsedName(items[0].name, chars) in row
    ensures AllInRow(row, chars, items[1..])
  {
    assert forall i | 0 <= i < |items[1..]| :: items[1..][i] == items[i + 1];
  }

  /** One turn of the loop over an item read from the row. */
  lemma GroupValuesStep(row: Row, chars: seq<char>, fs: seq<FixedView>, items: seq<ItemView>, builder: string, carried: string)
    requires items != [] && items[0].name in row && ParsedName(items[0].name, chars) in row
    ensures var t := TrimModes.ParseValue(items[0].trim, items[0].trimMode, row[items[0].name]);
            GroupValues(row, chars, fs, items, builder, carried) ==
            GroupValues(row, chars, fs, items[1..], builder + t + Separators.GetSeparatorChar(items[0].separator), t)
  {
    var t := TrimModes.ParseValue(items[0].trim, items[0].trimMode, row[items[0].name]);
    assert MemberValue(row, chars, fs, items[0], carried) == Ok(t);
  }

  lemma AllInRowNames(row: Row, chars: seq<char>, items: seq<ItemView>)
    requires AllInRow(row, chars, items)
    ensures forall i | 0 <= i < |items| :: items[i].name in row
  {
  }

  /** When every item is an attribute of the row under its name and its
      parsed name, the group value is the reference concatenation. */
  lemma {:induction false} GroupValuesJoined(row: Row, chars: seq<char>, fs: seq<FixedView>, items: seq<ItemView>, builder: string, carried: string)
    requires AllInRow(row, chars, items)
    ensures AllInRow(row, chars, items) && forall i | 0 <= i < |items| :: items[i].name in row
    ensures GroupValues(row, chars, fs, items, builder, carried) == Ok(builder + Joined(row, items))
    decreases |items|
  {
    AllInRowNames(row, chars, items);
    if items == [] {
      assert builder + "" == builder;
    } else {
      AllInRowTail(row, chars, items);
      var it := items[0];
      var t := TrimModes.ParseValue(it.trim, it.trimMode, row[it.name]);
      var sep := Separators.GetSeparatorChar(it.separator);
      GroupValuesStep(row, chars, fs, items, builder, carried);
      GroupValuesJoined(row, chars, fs, items[1..], builder + t + sep, t);
      var j := Joined(row, items[1..]);
      assert Joined(row, items) == t + sep + j;
      assert builder + t + sep + j == builder + (t + sep + j);
    }
  }

  /** A successful group value ends with the last item's separator. */
  lemma {:induction false} GroupValuesEndsWithSeparator(row: Row, chars: seq<char>, fs: seq<FixedView>, items: seq<ItemView>, builder: string, carried: string)
    requires items != [] && GroupValues(row, chars, fs, items, builder, carried).Ok?
    ensures var r := GroupValues(row, chars, fs, items, builder, carried).value;
            var sep := Separators.GetSeparatorChar(items[|items| - 1].separator);
            |sep| <= |r| && r[|r| - |sep|..] == sep
    decreases |items|
  {
    var v := MemberValue(row, chars, fs, items[0], carried).value;
    var sep := Separators.GetSeparatorChar(items[0].separator);
    if |items| > 1 {
      assert items[1..][|items[1..]| - 1] == items[|items| - 1];
      GroupValuesEndsWithSeparator(row, chars, fs, items[1..], builder + v + sep, v);
    } else {
      var r := builder + v + sep;
      assert r[|r| - |sep|..] == sep;
    }
  }

  /** An item found neither in the row nor among the pieces repeats the value
      of the item before it. */
  lemma ItemWithoutSourceRepeats(row: Row, chars: seq<char>, fs: seq<FixedView>, it: ItemView, carried: string)
    requires ParsedName(it.name, chars) !in row && NoPieceNamed(fs, it.name)
    ensures GroupValues(row, chars, fs, [it], "", carried) == Ok(carried + Separators.GetSeparatorChar(it.separator))
  {
    FixedLookupCarries(row, fs, it.name, carried);
    assert MemberValue(row, chars, fs, it, carried) == Ok(carried);
    assert [it][1..] == [];
    assert "" + carried == carried;
  }

  /** The Group branch: the group named by Name must exist. A null Name
      finds no group (or meets a group without a name first), and either way
      the branch throws NullReference. */
  function GroupFieldValue(row: Row, chars: seq<char>, f: FieldView, res: ResourcesView): (r: Result<Option<string>>)
    ensures f.name.None? ==> r == Fail(NullReference)
    ensures f.name.Some? && (FindGroup(res.groups, f.name.value).Fail? || FindGroup(res.groups, f.name.value) == Ok(None)) ==>
              r == Fail(NullReference)
    ensures f.name.Some? && FindGroup(res.groups, f.name.value).Ok? && FindGroup(res.groups, f.name.value).value.Some? ==>
              var g := FindGroup(res.groups, f.name.value).value.value;
              (r.Ok? <==> GroupValues(row, chars, res.fixed, res.groups[g].items, "", "").Ok?) &&
              (r.Ok? ==> r.value == Some(GroupValues(row, chars, res.fixed, res.groups[g].items, "", "").value))
    ensures r.Fail? ==> r.error in {NullReference, ArgumentNull, ArgumentOutOfRange}
  {
    if f.name.None? then Fail(NullReference)
    else
      match FindGroup(res.groups, f.name.value)
      case Fail(e) => Fail(e)
      case Ok(None) => Fail(NullReference)
      case Ok(Some(g)) =>
        match GroupValues(row, chars, res.fixed, res.groups[g].items, "", "")
        case Fail(e) => Fail(e)
        case Ok(v) => Ok(Some(v))
  }

  /** FieldValue.GetValue on values. A value of None is the null the Fixed
      branch returns when the piece does not exist. Parsing a null name
      throws ArgumentNull. */
  function GetValueSpec(show: YesNo, dataSource: Option<Row>, f: FieldView, chars: seq<char>, res: Option<ResourcesView>): (r: Result<Option<string>>)
    ensures show == No ==> r == Ok(Some(""))
    ensures dataSource.None? ==> r == Ok(Some(""))
    ensures f.fieldType == Gap ==> r == Ok(Some(""))
    ensures f.fieldType in {Field, Packet} && f.name.Some? ==> r.Ok? && r.value.Some?
    ensures f.fieldType in {Field, Packet} && show == Yes && dataSource.Some? && f.name.None? ==> r == Fail(ArgumentNull)
    ensures (f.fieldType == Fixed || f.fieldType == Group) && show == Yes && dataSource.Some? && res.None? ==>
              r == Fail(NullReference)
    ensures f.fieldType == Fixed && show == Yes && dataSource.Some? && res.Some? && f.pieces.None? ==> r == Fail(NullReference)
    ensures f.fieldType == Group && show == Yes && dataSource.Some? && res.Some? && f.name.None? ==> r == Fail(NullReference)
    ensures r.Fail? ==> r.error in {NullReference, ArgumentNull, ArgumentOutOfRange}
  {
    if show == No || dataSource.None? then Ok(Some(""))
    else
      var row := dataSource.value;
      match f.fieldType
      case Field =>
        if f.name.None? then Fail(ArgumentNull) else Ok(Some(FieldAttribute(row, ParsedName(f.name.value, chars))))
      case Gap => Ok(Some(""))
      case Fixed =>
        if res.None? then Fail(NullReference) else FixedFieldValue(row, chars, f, res.value.fixed)
      case Group =>
        if res.None? then Fail(NullReference)
        else
          GroupFieldValue(row, chars, f, res.value)
      case Packet =>
        if f.name.None? then Fail(ArgumentNull)
        else
          var parsed := ParsedName(f.name.value, chars);
          Ok(Some(if parsed in row then PacketFormats.FormatPacket(f.inputFormat, row[parsed]) else ""))
  }

  /** FieldValue.GetRawValue on values: only the Field and Packet branches
      exist, and parsing a null name throws ArgumentNull. */
  function GetRawValueSpec(show: YesNo, dataSource: Option<Row>, f: FieldView, chars: seq<char>): (r: Result<string>)
    ensures f.fieldType in {Fixed, Group, Gap} ==> r == Ok("")
    ensures show == Yes && dataSource.Some? && (f.fieldType == Field || f.fieldType == Packet) && f.name.None? ==>
              r == Fail(ArgumentNull)
    ensures r.Fail? ==> r == Fail(ArgumentNull) && show != No && dataSource.Some? && f.name.None?
  {
    if show == No || dataSource.None? then Ok("")
    else
      var row := dataSource.value;
      match f.fieldType
      case Field =>
        if f.name.None? then Fail(ArgumentNull) else Ok(FieldAttribute(row, ParsedName(f.name.value, chars)))
      case Packet =>
        if f.name.None? then Fail(ArgumentNull)
        else
          var parsed := ParsedName(f.name.value, chars);
          Ok(if parsed in row then PacketFormats.FormatPacket(f.inputFormat, row[parsed]) else "")
      case _ => Ok("")
  }

  /** The raw value agrees with the value on data and packet fields, whatever
      the resources: the same text, or the same exception. */
  lemma RawValueAgrees(show: YesNo, dataSource: Option<Row>, f: FieldView, chars: seq<char>, res: Option<ResourcesView>)
    requires f.fieldType == Field || f.fieldType == Packet
    ensures GetValueSpec(show, dataSource, f, chars, res) ==
            match GetRawValueSpec(show, dataSource, f, chars)
            case Ok(v) => Ok(Some(v))
            case Fail(e) => Fail(e)
  {
  }

  /** A packet field reformats the attribute its parsed name finds; a blank
      attribute and an unknown input format give "". */
  lemma PacketValue(row: Row, f: FieldView, chars: seq<char>, res: Option<ResourcesView>)
    requires f.fieldType == Packet
    ensures f.name.None? ==> GetValueSpec(Yes, Some(row), f, chars, res) == Fail(ArgumentNull)
    ensures f.name.Some? ==>
            var parsed := ParsedName(f.name.value, chars);
            var r := GetValueSpec(Yes, Some(row), f, chars, res);
            (parsed !in row ==> r == Ok(Some(""))) &&
            (parsed in row && f.inputFormat == PacketFormats.FullDateFormat ==>
               r == Ok(Some(PacketFormats.FormatFull(row[parsed])))) &&
            (parsed in row && PacketFormats.IsBlank(row[parsed]) ==> r == Ok(Some("")))
  {
  }
}
