// The fields of a table: data, gap, group, fixed and packet fields, their
// header, value and aggregate parts, and the collection that holds them.

module Fields {
  import opened Wrappers
  import opened Known
  import opened Rows
  import opened FieldNames
  import PacketFormats
  import Separators
  import Collections
  import opened FixedResources
  import opened GroupResources
  import opened TableResources
  import opened FieldValues

  /** FieldHeader: a new header is shown. */
  class FieldHeader {
    var show: YesNo
    var parent: BaseDataField?

    constructor()
      ensures show == Yes && parent == null
    {
      show := Yes;
      parent := null;
    }

    method SetParent(reference: BaseDataField?)
      modifies this`parent
      ensures parent == reference
    {
      parent := reference;
    }
  }

  /** FieldAggregate: a new aggregate is hidden and placed at the top. */
  class FieldAggregate {
    var show: YesNo
    var location: KnownAggregateLocation
    var parent: BaseDataField?

    constructor()
      ensures show == No && location == Top && parent == null
    {
      show := No;
      location := Top;
      parent := null;
    }

    method SetParent(reference: BaseDataField?)
      modifies this`parent
      ensures parent == reference
    {
      parent := reference;
    }
  }

  /** The special characters GetValue works with: none when null. */
  function CharsOf(specialChars: Option<seq<char>>): seq<char>
  {
    if specialChars.None? then [] else specialChars.value
  }

  /** FieldValue: how the value of a field is shown. */
  class FieldValue {
    var show: YesNo
    var style: string
    var parent: BaseDataField?

    /** A new value is shown with the "Default" style. */
    constructor()
      ensures show == Yes && style == "Default" && parent == null
    {
      show := Yes;
      style := "Default";
      parent := null;
    }

    method SetParent(reference: BaseDataField?)
      modifies this`parent
      ensures parent == reference
    {
      parent := reference;
    }

    /** FieldValue.GetValue. `resources` stands for the resources of the table
        that owns the field (null when that chain is broken). The value is the
        one GetValueSpec describes for the resources as they were; only data
        sources, owners and the lazily created lists of the resources are
        assigned. */
    method GetValue(specialChars: Option<seq<char>>, resources: Resources?) returns (r: Result<Option<string>>)
      modifies FixedOf(resources)`dataSource, FixedOf(resources)`hasPieces, PiecesIn(resources)`owner,
               GroupsOf(resources)`hasItems, ItemsIn(resources)`owner, ItemsIn(resources)`dataSource
      ensures show == No ==> r == Ok(Some(""))
      ensures show == Yes && parent == null ==> r == Fail(NullReference)
      ensures parent != null ==>
                r == GetValueSpec(show, parent.dataSource, parent.View(), CharsOf(specialChars),
                                  if resources == null then None else Some(old(resources.View())))
    {
      if show == No {
        return Ok(Some(""));
      }
      if parent == null {
        return Fail(NullReference);
      }
      r := FieldValueOf(parent, CharsOf(specialChars), resources);
    }

    /** TryGetStyle, through TryGetResourceInformation: the style resource
        named by Style. There is none when Style is empty, when the chain
        from this value up to the table's resources breaks (no parent, or
        `resources` null; the exception is caught) or when no style has that
        name. `styleByName` stands for GetStyleResourceByName, whose code is
        not part of this model. */
    function TryGetStyle<S>(resources: Resources?, styleByName: string -> Option<S>): (r: Option<S>)
      reads this`style, this`parent
      ensures r.Some? <==> style != "" && parent != null && resources != null && styleByName(style).Some?
      ensures r.Some? ==> r == styleByName(style)
    {
      if style == "" || parent == null || resources == null then None else styleByName(style)
    }

    /** FieldValue.GetRawValue: the Field and Packet branches of GetValue;
        every other field type gives "". */
    method GetRawValue(specialChars: Option<seq<char>>) returns (r: Result<string>)
      ensures show == No ==> r == Ok("")
      ensures show == Yes && parent == null ==> r == Fail(NullReference)
      ensures parent != null ==> r == GetRawValueSpec(show, parent.dataSource, parent.View(), CharsOf(specialChars))
    {
      var chars := CharsOf(specialChars);
      if show == No {
        return Ok("");
      }
      if parent == null {
        return Fail(NullReference);
      }
      if parent.dataSource.None? {
        return Ok("");
      }
      var row := parent.dataSource.value;
      r := Ok("");
      if parent.fieldType == Field || parent.fieldType == Packet {
        if parent.name.None? {
          return Fail(ArgumentNull);
        }
        if parent.fieldType == Field {
          var v := DataValue(row, chars, parent.name.value);
          r := Ok(v);
        } else {
          var v := PacketValueOf(row, chars, parent.name.value, parent.inputFormat);
          r := Ok(v);
        }
      }
    }
  }

  /** GetValue for a shown value: the branch on the type of its field. */
  method FieldValueOf(field: BaseDataField, chars: seq<char>, resources: Resources?) returns (r: Result<Option<string>>)
    modifies FixedOf(resources)`dataSource, FixedOf(resources)`hasPieces, PiecesIn(resources)`owner,
             GroupsOf(resources)`hasItems, ItemsIn(resources)`owner, ItemsIn(resources)`dataSource
    ensures r == GetValueSpec(Yes, field.dataSource, field.View(), chars,
                              if resources == null then None else Some(old(resources.View())))
  {
    if field.dataSource.None? {
      return Ok(Some(""));
    }
    var row := field.dataSource.value;
    var f := field.View();
    match field.fieldType {
      case Field =>
        if field.name.None? {
          return Fail(ArgumentNull);
        }
        var v := DataValue(row, chars, field.name.value);
        r := Ok(Some(v));
      case Gap =>
        r := Ok(Some(""));
      case Fixed =>
        r := FixedValueOf(row, chars, f, resources);
      case Group =>
        r := GroupValueOf(row, chars, f, resources);
      case Packet =>
        if field.name.None? {
          return Fail(ArgumentNull);
        }
        var v := PacketValueOf(row, chars, field.name.value, field.inputFormat);
        r := Ok(Some(v));
    }
  }

  /** The Fixed branch, for resources that may be missing. */
  method FixedValueOf(row: Row, chars: seq<char>, f: FieldView, resources: Resources?) returns (r: Result<Option<string>>)
    requires f.fieldType == Fixed
    modifies FixedOf(resources)`dataSource, FixedOf(resources)`hasPieces, PiecesIn(resources)`owner
    ensures r == GetValueSpec(Yes, Some(row), f, chars, if resources == null then None else Some(old(resources.View())))
  {
    if resources == null {
      return Fail(NullReference);
    }
    r := FixedBranch(row, chars, f, resources.fixed);
  }

  /** The Group branch, for resources that may be missing. */
  method GroupValueOf(row: Row, chars: seq<char>, f: FieldView, resources: Resources?) returns (r: Result<Option<string>>)
    requires f.fieldType == Group
    modifies FixedOf(resources)`dataSource, FixedOf(resources)`hasPieces, PiecesIn(resources)`owner,
             GroupsOf(resources)`hasItems, ItemsIn(resources)`owner, ItemsIn(resources)`dataSource
    ensures r == GetValueSpec(Yes, Some(row), f, chars, if resources == null then None else Some(old(resources.View())))
  {
    if resources == null {
      return Fail(NullReference);
    }
    r := GroupBranch(row, chars, f, resources);
  }

  /** The Field branch of GetValue: the attribute of the parsed name, then of
      its upper-case and its lower-case form, else "". */
  method DataValue(row: Row, chars: seq<char>, name: string) returns (r: string)
    ensures r == FieldAttribute(row, ParsedName(name, chars))
  {
    var parsed := Parse(name, chars);
    var a := Attribute(row, parsed);
    if a.None? {
      a := Attribute(row, Text.Upper(parsed));
      if a.None? {
        a := Attribute(row, Text.Lower(parsed));
      }
    }
    r := if a.Some? then a.value else "";
  }

  /** The Packet branch of GetValue: the attribute of the parsed name,
      reformatted by the input format, else "". */
  method PacketValueOf(row: Row, chars: seq<char>, name: string, inputFormat: string) returns (r: string)
    ensures var parsed := ParsedName(name, chars);
            r == if parsed in row then PacketFormats.FormatPacket(inputFormat, row[parsed]) else ""
  {
    var parsed := Parse(name, chars);
    var a := Attribute(row, parsed);
    r := if a.Some? then PacketFormats.FormatPacket(inputFormat, a.value) else "";
  }

  /** One Fixed of the resources is read: it gets the row as data source,
      and the first piece of that name, if any, supplies its value (None is
      the null of a missing piece). */
  method ReadPiece(fx: Fixed, row: Row, name: string, ghost fxs: seq<Fixed>) returns (r: Option<Result<string>>)
    requires fx in fxs
    modifies fx`dataSource, fx`hasPieces, (set p | p in fx.pieces)`owner
    ensures r == ReadPieceValue(row, fx.reference, old(PieceViews(fx.pieces)), name)
    ensures fx.dataSource == Some(row)
    ensures FixedViews(fxs) == old(FixedViews(fxs))
  {
    label start:
    ghost var views := PieceViews(fx.pieces);
    fx.dataSource := Some(row);
    var ps := fx.GetPieces();
    assert PieceViews(ps) == views;
    var j := Collections.FirstIndex(PieceNames(PieceViews(ps)), name);
    if j.None? {
      FixedViewsFramed@start(fxs);
      return None;
    }
    assert ps[j.value].View() == views[j.value];
    var v := ps[j.value].GetValue();
    r := Some(v);
    FixedViewsFramed@start(fxs);
  }

  /** The Fixed branch of GetValue: the Fixed named by the field's Pieces gets
      the row as data source, and the piece named by the parsed Piece is
      read. */
  method FixedBranch(row: Row, chars: seq<char>, f: FieldView, fc: FixedCollection) returns (r: Result<Option<string>>)
    modifies (set f | f in fc.items)`dataSource, (set f | f in fc.items)`hasPieces, PiecesOf(fc.items)`owner
    ensures r == FixedFieldValue(row, chars, f, old(FixedViews(fc.items)))
    ensures FixedViews(fc.items) == old(FixedViews(fc.items))
  {
    if f.pieces.None? {
      return Fail(NullReference);
    }
    var fxs := fc.items;
    ghost var fviews := FixedViews(fxs);
    FindFixedAgrees(fc, f.pieces.value);
    var found := fc.GetBy(f.pieces.value);
    if found.Fail? {
      return Fail(found.error);
    }
    var fx := found.value;
    if fx == null {
      return Fail(NullReference);
    }
    ghost var k := FindFixed(fviews, f.pieces.value).value.value;
    FixedViewsAt(fxs, k);
    assert fviews[k].reference == fx.reference && fviews[k].pieces == PieceViews(fx.pieces);
    r := ReadFixedPiece(fx, row, chars, f.piece, fxs);
  }

  /** The end of the Fixed branch: the Fixed gets the row as data source,
      then Piece is parsed and the piece of that name is read. */
  method ReadFixedPiece(fx: Fixed, row: Row, chars: seq<char>, piece: Option<string>, ghost fxs: seq<Fixed>)
    returns (r: Result<Option<string>>)
    requires fx in fxs
    modifies fx`dataSource, fx`hasPieces, (set p | p in fx.pieces)`owner
    ensures r == FixedPieceValue(row, chars, piece, old(fx.reference), old(PieceViews(fx.pieces)))
    ensures FixedViews(fxs) == old(FixedViews(fxs))
  {
    if piece.None? {
      label start:
      fx.dataSource := Some(row);
      FixedViewsFramed@start(fxs);
      return Fail(ArgumentNull);
    }
    var parsed := ParsedName(piece.value, chars);
    var p := ReadPiece(fx, row, parsed, fxs);
    r := match p
         case None => Ok(None)
         case Some(v) => if v.Fail? then Fail(v.error) else Ok(Some(v.value));
  }

  /** One turn of that loop: the Fixed reads the piece of that name, whose
      value (or error) replaces the carried value. */
  method LookupOne(fx: Fixed, row: Row, name: string, carried: string, ghost fxs: seq<Fixed>) returns (r: Result<string>)
    requires fx in fxs
    modifies fx`dataSource, fx`hasPieces, (set p | p in fx.pieces)`owner
    ensures r == PieceLookup(row, old(fx.View()), name, carried)
    ensures FixedViews(fxs) == old(FixedViews(fxs))
  {
    var p := ReadPiece(fx, row, name, fxs);
    r := match p
         case None => Ok(carried)
         case Some(v) => v;
  }

  /** The loop over the Fixed resources for a group item missing from the
      row: each Fixed gets the row as data source, and each one holding a
      piece of that name supplies the value. */
  method LookupPieces(fxs: seq<Fixed>, row: Row, name: string, carried: string) returns (r: Result<string>)
    modifies (set f | f in fxs)`dataSource, (set f | f in fxs)`hasPieces, PiecesOf(fxs)`owner
    ensures r == FixedLookup(row, old(FixedViews(fxs)), name, carried)
    ensures FixedViews(fxs) == old(FixedViews(fxs))
  {
    ghost var fviews := FixedViews(fxs);
    ghost var total := FixedLookup(row, fviews, name, carried);
    var value := carried;
    var k := 0;
    while k < |fxs|
      invariant 0 <= k <= |fxs|
      invariant FixedViews(fxs) == fviews
      invariant total == FixedLookup(row, fviews[k..], name, value)
    {
      assert fviews[k..][1..] == fviews[k + 1..];
      FixedViewsAt(fxs, k);
      var fx := fxs[k];
      assert forall p | p in fx.pieces :: p in PiecesOf(fxs);
      var step := LookupOne(fx, row, name, value, fxs);
      if step.Fail? {
        return Fail(step.error);
      }
      value := step.value;
      k := k + 1;
    }
    r := Ok(value);
  }

  /** One item of the Group branch: an item whose parsed name is an attribute
      of the row reads it through its own GetValue (with the row as its data
      source); any other is looked up among the Fixed resources. */
  method ItemValueOf(row: Row, chars: seq<char>, fxs: seq<Fixed>, it: GroupItem, carried: string, ghost items: seq<GroupItem>)
    returns (r: Result<string>)
    requires it in items
    modifies (set f | f in fxs)`dataSource, (set f | f in fxs)`hasPieces, PiecesOf(fxs)`owner, it`dataSource
    ensures r == MemberValue(row, chars, old(FixedViews(fxs)), old(it.View()), carried)
    ensures FixedViews(fxs) == old(FixedViews(fxs))
    ensures ItemViews(items) == old(ItemViews(items))
  {
    var parsed := ParsedName(it.name, chars);
    if Attribute(row, parsed).None? {
      r := LookupPieces(fxs, row, it.name, carried);
    } else {
      label before:
      it.dataSource := Some(row);
      r := it.GetValue();
      FixedViewsFramed@before(fxs);
    }
  }

  /** One turn of the Group loop: item `i` supplies its value, which is
      appended to the text with the item's separator. */
  method AppendItem(row: Row, chars: seq<char>, fxs: seq<Fixed>, items: seq<GroupItem>, i: nat, builder: string, carried: string,
                    ghost fviews: seq<FixedView>, ghost iviews: seq<ItemView>)
    returns (r: Result<string>, extended: string)
    requires i < |items|
    requires FixedViews(fxs) == fviews && ItemViews(items) == iviews
    modifies (set f | f in fxs)`dataSource, (set f | f in fxs)`hasPieces, PiecesOf(fxs)`owner, {items[i]}`dataSource
    ensures FixedViews(fxs) == fviews && ItemViews(items) == iviews
    ensures r.Fail? ==> GroupValues(row, chars, fviews, iviews[i..], builder, carried) == Fail(r.error)
    ensures r.Ok? ==> GroupValues(row, chars, fviews, iviews[i..], builder, carried) ==
                      GroupValues(row, chars, fviews, iviews[i + 1..], extended, r.value)
  {
    assert iviews[i..][1..] == iviews[i + 1..];
    var it := items[i];
    var sep := Separators.GetSeparatorChar(it.separator);
    assert it.View() == iviews[i];
    r := ItemValueOf(row, chars, fxs, it, carried, items);
    extended := if r.Ok? then builder + r.value + sep else builder;
  }

  /** The loop of the Group branch: every item contributes its value and
      then its separator, in order; an error ends the loop. */
  method GroupItemsValue(row: Row, chars: seq<char>, fxs: seq<Fixed>, items: seq<GroupItem>) returns (r: Result<string>)
    modifies (set f | f in fxs)`dataSource, (set f | f in fxs)`hasPieces, PiecesOf(fxs)`owner,
             (set it | it in items)`dataSource
    ensures r == GroupValues(row, chars, old(FixedViews(fxs)), old(ItemViews(items)), "", "")
    ensures FixedViews(fxs) == old(FixedViews(fxs))
  {
    ghost var fviews := FixedViews(fxs);
    ghost var iviews := ItemViews(items);
    ghost var total := GroupValues(row, chars, fviews, iviews, "", "");
    assert iviews[0..] == iviews;
    var builder := "";
    var value := "";
    var i := 0;
    while i < |items|
      invariant 0 <= i <= |items|
      invariant FixedViews(fxs) == fviews && ItemViews(items) == iviews
      invariant total == GroupValues(row, chars, fviews, iviews[i..], builder, value)
    {
      var v;
      v, builder := AppendItem(row, chars, fxs, items, i, builder, value, fviews, iviews);
      if v.Fail? {
        return Fail(v.error);
      }
      value := v.value;
      i := i + 1;
    }
    assert iviews[i..] == [];
    r := Ok(builder);
  }

  /** The Group branch of GetValue: the group named by the field's Name must
      exist, and its items (read through the Fields getter) give the value. */
  method GroupBranch(row: Row, chars: seq<char>, f: FieldView, resources: Resources) returns (r: Result<Option<string>>)
    modifies FixedOf(resources)`dataSource, FixedOf(resources)`hasPieces, PiecesIn(resources)`owner,
             GroupsOf(resources)`hasItems, ItemsIn(resources)`owner, ItemsIn(resources)`dataSource
    ensures r == GroupFieldValue(row, chars, f, ResourcesView(old(FixedViews(resources.fixed.items)),
                                                              old(GroupViews(resources.groups.items))))
  {
    var fxs := resources.fixed.items;
    var gs := resources.groups.items;
    ghost var gviews := GroupViews(gs);
    if f.name.None? {
      return Fail(NullReference);
    }
    FindGroupAgrees(resources.groups, f.name.value);
    var found := resources.groups.GetBy(f.name.value);
    if found.Fail? {
      return Fail(found.error);
    }
    var g := found.value;
    if g == null {
      return Fail(NullReference);
    }
    ghost var gk := FindGroup(gviews, f.name.value).value.value;
    GroupViewsAt(gs, gk);
    assert forall it | it in g.items :: it in ItemsOf(gs);
    label before:
    var items := g.GetFields();
    FixedViewsFramed@before(fxs);
    assert ItemViews(items) == gviews[gk].items;
    var v := GroupItemsValue(row, chars, fxs, items);
    r := if v.Fail? then Fail(v.error) else Ok(Some(v.value));
  }

  /** The settings of a field and where its value is read. */
  class BaseDataField {
    const fieldType: KnownFieldType
    var owner: FieldsCollection?
    var alias: Option<string>
    var dataSource: Option<Row>
    var width: string
    /** Name of a data, group or packet field; null until it is set. */
    var name: Option<string>
    /** Piece and Pieces of a fixed field; null until they are set. */
    var piece: Option<string>
    var pieces: Option<string>
    /** InputFormat of a packet field, an unchecked property. */
    var inputFormat: string
    var header: FieldHeader?
    var value: FieldValue?
    var aggregate: FieldAggregate?

    /** A new field has width "Default" and no parts yet; its Name, Piece and
        Pieces are null, as fields without an initialiser are. */
    constructor(fieldType: KnownFieldType)
      ensures this.fieldType == fieldType && width == "Default"
      ensures owner == null && alias.None? && dataSource.None?
      ensures name.None? && piece.None? && pieces.None? && inputFormat == ""
      ensures header == null && value == null && aggregate == null
    {
      this.fieldType := fieldType;
      owner := null;
      alias := None;
      dataSource := None;
      width := "Default";
      name := None;
      piece := None;
      pieces := None;
      inputFormat := "";
      header := null;
      value := null;
      aggregate := null;
    }

    function View(): FieldView
      reads this`name, this`piece, this`pieces, this`inputFormat
    {
      FieldView(fieldType, name, piece, pieces, inputFormat)
    }

    /** CanSetData: true except for gap fields, which override it. */
    predicate CanSetData()
      ensures CanSetData() <==> fieldType != Gap
    {
      fieldType != Gap
    }

    /** The DataSource setter stores the value only when CanSetData holds. */
    method SetDataSource(source: Option<Row>)
      modifies this`dataSource
      ensures dataSource == if CanSetData() then source else old(dataSource)
    {
      if CanSetData() {
        dataSource := source;
      }
    }

    /** The Width setter: null is rejected. */
    method SetWidth(v: Option<string>) returns (o: Outcome)
      modifies this`width
      ensures v.None? <==> o == Failure(ArgumentNull)
      ensures o.Pass? || o == Failure(ArgumentNull)
      ensures width == if v.Some? then v.value else old(width)
    {
      if v.None? {
        return Failure(ArgumentNull);
      }
      width := v.value;
      o := Pass;
    }

    /** The Name setter of a packet field: null and invalid field names are rejected. */
    method SetPacketName(v: Option<string>, validators: Validators) returns (o: Outcome)
      modifies this`name
      ensures v.None? ==> o == Failure(ArgumentNull)
      ensures v.Some? ==> (o == Pass <==> validators.isValidFieldName(v.value))
      ensures v.Some? && o != Pass ==> o == Failure(InvalidFieldName)
      ensures name == if o == Pass then v else old(name)
    {
      if v.None? {
        return Failure(ArgumentNull);
      }
      if !validators.isValidFieldName(v.value) {
        return Failure(InvalidFieldName);
      }
      name := v;
      o := Pass;
    }

    /** The Piece setter of a fixed field: null and invalid identifiers are rejected. */
    method SetPiece(v: Option<string>, validators: Validators) returns (o: Outcome)
      modifies this`piece
      ensures v.None? ==> o == Failure(ArgumentNull)
      ensures v.Some? ==> (o == Pass <==> validators.isValidIdentifier(v.value))
      ensures v.Some? && o != Pass ==> o == Failure(InvalidIdentifier)
      ensures piece == if o == Pass then v else old(piece)
    {
      if v.None? {
        return Failure(ArgumentNull);
      }
      if !validators.isValidIdentifier(v.value) {
        return Failure(InvalidIdentifier);
      }
      piece := v;
      o := Pass;
    }

    /** The Pieces setter of a fixed field: null and invalid identifiers are rejected. */
    method SetPieces(v: Option<string>, validators: Validators) returns (o: Outcome)
      modifies this`pieces
      ensures v.None? ==> o == Failure(ArgumentNull)
      ensures v.Some? ==> (o == Pass <==> validators.isValidIdentifier(v.value))
      ensures v.Some? && o != Pass ==> o == Failure(InvalidIdentifier)
      ensures pieces == if o == Pass then v else old(pieces)
    {
      if v.None? {
        return Failure(ArgumentNull);
      }
      if !validators.isValidIdentifier(v.value) {
        return Failure(InvalidIdentifier);
      }
      pieces := v;
      o := Pass;
    }

    /** SetOwner changes the owner and nothing else. */
    method SetOwner(reference: FieldsCollection?)
      modifies this`owner
      ensures owner == reference
    {
      owner := reference;
    }

    /** The Header getter: creates a header when there is none and makes this
        field its parent. */
    method GetHeader() returns (h: FieldHeader)
      modifies this`header, (if header == null then {} else {header})`parent
      ensures old(header) != null ==> h == old(header) && h.show == old(header.show)
      ensures old(header) == null ==> fresh(h) && h.show == Yes
      ensures header == h && h.parent == this
    {
      if header == null {
        header := new FieldHeader();
      }
      header.SetParent(this);
      h := header;
    }

    /** The Value getter: creates a value part when there is none and makes
        this field its parent. */
    method GetValuePart() returns (v: FieldValue)
      modifies this`value, (if value == null then {} else {value})`parent
      ensures old(value) != null ==> v == old(value) && v.show == old(value.show) && v.style == old(value.style)
      ensures old(value) == null ==> fresh(v) && v.show == Yes && v.style == "Default"
      ensures value == v && v.parent == this
    {
      if value == null {
        value := new FieldValue();
      }
      value.SetParent(this);
      v := value;
    }

    /** The Aggregate getter: creates an aggregate when there is none and
        makes this field its parent. */
    method GetAggregate() returns (a: FieldAggregate)
      modifies this`aggregate, (if aggregate == null then {} else {aggregate})`parent
      ensures old(aggregate) != null ==>
                a == old(aggregate) && a.show == old(aggregate.show) && a.location == old(aggregate.location)
      ensures old(aggregate) == null ==> fresh(a) && a.show == No && a.location == Top
      ensures aggregate == a && a.parent == this
    {
      if aggregate == null {
        aggregate := new FieldAggregate();
      }
      aggregate.SetParent(this);
      a := aggregate;
    }
  }

  /** BaseDataField.GetFieldNameFrom: the name a field's data is read under,
      None while that name is null. */
  function GetFieldNameFrom(field: BaseDataField): (r: Option<string>)
    reads field`name, field`piece
    ensures field.fieldType == Fixed ==> r == field.piece
    ensures field.fieldType in {Field, Group, Packet} ==> r == field.name
    ensures field.fieldType == Gap ==> r == Some("")
  {
    match field.fieldType
    case Field => field.name
    case Group => field.name
    case Fixed => field.piece
    case Packet => field.name
    case Gap => Some("")
  }

  /** The key FieldsCollection.GetBy compares: the alias for a gap field
      (None when it is null), otherwise the name GetFieldNameFrom gives. */
  function FieldKey(field: BaseDataField): (r: Option<string>)
    reads field`name, field`piece, field`alias
    ensures field.fieldType != Gap ==> r == GetFieldNameFrom(field)
    ensures field.fieldType == Gap ==> r == field.alias && GetFieldNameFrom(field) == Some("")
    ensures r.None? <==> (field.fieldType == Gap && field.alias.None?) || (field.fieldType != Gap && GetFieldNameFrom(field).None?)
  {
    match field.fieldType
    case Field => field.name
    case Fixed => field.piece
    case Gap => field.alias
    case Group => field.name
    case Packet => field.name
  }

  function FieldKeys(fs: seq<BaseDataField>): (r: seq<Option<string>>)
    reads (set f | f in fs)`name, (set f | f in fs)`piece, (set f | f in fs)`alias
    ensures |r| == |fs| && forall i | 0 <= i < |fs| :: r[i] == FieldKey(fs[i])
  {
    if fs == [] then [] else [FieldKey(fs[0])] + FieldKeys(fs[1..])
  }

  /** What GetBy returns: the field at the position Collections.FindKey
      gives, null when there is none, or FindKey's error. */
  function FieldByKey(items: seq<BaseDataField>, value: string): (r: Result<BaseDataField?>)
    reads (set f | f in items)`name, (set f | f in items)`piece, (set f | f in items)`alias
    ensures r.Fail? ==> r == Fail(NullReference)
  {
    match Collections.FindKey(FieldKeys(items), value)
    case Fail(e) => Fail(e)
    case Ok(None) => Ok(null)
    case Ok(Some(k)) => Ok(items[k] as BaseDataField?)
  }

  /** GetBy throws exactly when a null key comes first, and otherwise finds
      the first field whose key is the value. */
  lemma FieldByKeyMeaning(items: seq<BaseDataField>, value: string)
    ensures Collections.FindKey(FieldKeys(items), value).Fail? <==> FieldByKey(items, value).Fail?
    ensures FieldByKey(items, value) == Ok(null) <==> forall j | 0 <= j < |items| :: FieldKey(items[j]).Some? && FieldKey(items[j]).value != value
    ensures var r := FieldByKey(items, value);
            r.Ok? && r.value != null ==>
              exists k | 0 <= k < |items| :: r.value == items[k] && FieldKey(items[k]) == Some(value) &&
                                             forall j | 0 <= j < k :: FieldKey(items[j]).Some? && FieldKey(items[j]).value != value
  {
    var keys := FieldKeys(items);
    match Collections.FindKey(keys, value)
    case Fail(_) =>
    case Ok(None) =>
    case Ok(Some(k)) =>
      assert FieldByKey(items, value) == Ok(items[k] as BaseDataField?);
      assert keys[k] == FieldKey(items[k]);
  }

  /** IndexOf finds a field no sooner than its first position with that key. */
  lemma SameFieldSameKey(items: seq<BaseDataField>, keys: seq<Option<string>>, i: nat, k: nat)
    requires keys == FieldKeys(items) && i < |items| && k < |items|
    requires items[k] == items[i] && forall j | 0 <= j < k :: items[j] != items[i]
    requires forall j | 0 <= j < i :: keys[j] != keys[i]
    ensures k == i
  {
  }

  /** What the three GetRange overloads select. */
  datatype Selector = VisibleHeaders | VisibleAggregatesAt(location: KnownAggregateLocation) | OfType(fieldType: KnownFieldType)

  /** A field's header is shown; a field without one reads the new header's Show. */
  predicate HeaderShown(f: BaseDataField)
    reads f`header, (if f.header == null then {} else {f.header})`show
  {
    f.header == null || f.header.show == Yes
  }

  /** A field's aggregate is shown at that location; a new aggregate is hidden. */
  predicate AggregateShownAt(f: BaseDataField, location: KnownAggregateLocation)
    reads f`aggregate, (if f.aggregate == null then {} else {f.aggregate})`show,
          (if f.aggregate == null then {} else {f.aggregate})`location
  {
    f.aggregate != null && f.aggregate.show == Yes && f.aggregate.location == location
  }

  predicate Selected(f: BaseDataField, s: Selector)
    reads f`header, (if f.header == null then {} else {f.header})`show,
          f`aggregate, (if f.aggregate == null then {} else {f.aggregate})`show,
          (if f.aggregate == null then {} else {f.aggregate})`location
  {
    match s
    case VisibleHeaders => HeaderShown(f)
    case VisibleAggregatesAt(l) => AggregateShownAt(f, l)
    case OfType(t) => f.fieldType == t
  }

  function HeadersOf(fs: seq<BaseDataField>): set<FieldHeader>
    reads (set f | f in fs)`header
  {
    set f | f in fs && f.header != null :: f.header
  }

  function AggregatesOf(fs: seq<BaseDataField>): set<FieldAggregate>
    reads (set f | f in fs)`aggregate
  {
    set f | f in fs && f.aggregate != null :: f.aggregate
  }

  /** `Where` over the fields, keeping the selected ones in order. */
  function Select(fs: seq<BaseDataField>, s: Selector): seq<BaseDataField>
    reads (set f | f in fs)`header, HeadersOf(fs)`show,
          (set f | f in fs)`aggregate, AggregatesOf(fs)`show, AggregatesOf(fs)`location
  {
    if fs == [] then []
    else
      assert HeadersOf(fs[1..]) <= HeadersOf(fs) && AggregatesOf(fs[1..]) <= AggregatesOf(fs);
      (if Selected(fs[0], s) then [fs[0]] else []) + Select(fs[1..], s)
  }

  /** Select keeps exactly the selected fields, in their order. */
  lemma {:induction false} SelectMeaning(fs: seq<BaseDataField>, s: Selector)
    ensures Collections.IsSubsequence(Select(fs, s), fs)
    ensures forall i | 0 <= i < |Select(fs, s)| :: Selected(Select(fs, s)[i], s)
    ensures forall i | 0 <= i < |fs| :: Selected(fs[i], s) ==> fs[i] in Select(fs, s)
    decreases |fs|
  {
    if fs != [] {
      SelectMeaning(fs[1..], s);
      var rest := Select(fs[1..], s);
      assert fs == [fs[0]] + fs[1..];
      if Selected(fs[0], s) {
        assert Select(fs, s) == [fs[0]] + rest;
        assert Select(fs, s)[1..] == rest;
      } else {
        assert Select(fs, s) == rest;
      }
      forall i | 0 <= i < |fs| && Selected(fs[i], s)
        ensures fs[i] in Select(fs, s)
      {
        if i > 0 {
          assert fs[i] == fs[1..][i - 1];
        }
      }
    }
  }

  /** Nothing is selected exactly when no field is. */
  lemma {:induction false} SelectEmpty(fs: seq<BaseDataField>, s: Selector)
    ensures Select(fs, s) == [] <==> forall i | 0 <= i < |fs| :: !Selected(fs[i], s)
    decreases |fs|
  {
    if fs != [] {
      SelectEmpty(fs[1..], s);
      assert forall i | 1 <= i < |fs| :: fs[i] == fs[1..][i - 1];
    }
  }

  /** FieldsCollection: the fields of a table, in their order. */
  class FieldsCollection {
    var items: seq<BaseDataField>

    constructor()
      ensures items == []
    {
      items := [];
    }

    /** FieldsCollection.GetBy: the first field whose key is the value (with
        its position found again by IndexOf), null when none is; a field whose
        Name, Piece or (for a gap) Alias is null, met before that, throws. */
    method GetBy(value: string) returns (r: Result<BaseDataField?>)
      ensures r == FieldByKey(items, value)
    {
      ghost var keys := FieldKeys(items);
      var fieldIndex := -1;
      var i := 0;
      while i < |items|
        invariant 0 <= i <= |items| && fieldIndex == -1
        invariant forall j | 0 <= j < i :: keys[j].Some? && keys[j].value != value
      {
        var field := items[i];
        var key := FieldKey(field);
        assert key == keys[i];
        if key.None? {
          Collections.FindKeyStops(keys, value, i);
          return Fail(NullReference);
        }
        if key.value == value {
          var index := Collections.FirstIndex(items, field);
          SameFieldSameKey(items, keys, i, index.value);
          Collections.FindKeyStops(keys, value, i);
          fieldIndex := index.value;
          break;
        }
        i := i + 1;
      }
      if fieldIndex != -1 {
        return Ok(items[fieldIndex]);
      }
      return Ok(null);
    }

    /** BaseComplexModelCollection.Contains: GetBy finds a field. */
    method Contains(value: string) returns (r: Result<bool>)
      ensures Collections.FindKey(FieldKeys(items), value).Fail? <==> r.Fail?
      ensures r.Ok? ==> (r.value <==> Collections.FindKey(FieldKeys(items), value).value.Some?)
    {
      var found := GetBy(value);
      if found.Fail? {
        return Fail(found.error);
      }
      r := Ok(found.value != null);
    }

    function Selection(s: Selector): seq<BaseDataField>
      reads this, (set f | f in items)`header, HeadersOf(items)`show,
            (set f | f in items)`aggregate, AggregatesOf(items)`show, AggregatesOf(items)`location
    {
      Select(items, s)
    }

    /** GetRange(YesNo): the fields with a visible header, whatever the argument. */
    function GetRangeByHeaders(visibleHeaders: YesNo): (r: seq<BaseDataField>)
      reads this, (set f | f in items)`header, HeadersOf(items)`show,
            (set f | f in items)`aggregate, AggregatesOf(items)`show, AggregatesOf(items)`location
      ensures r == Selection(VisibleHeaders)
    {
      Select(items, VisibleHeaders)
    }

    /** GetRange(KnownAggregateLocation): the fields with a visible aggregate there. */
    function GetRangeByLocation(location: KnownAggregateLocation): (r: seq<BaseDataField>)
      reads this, (set f | f in items)`header, HeadersOf(items)`show,
            (set f | f in items)`aggregate, AggregatesOf(items)`show, AggregatesOf(items)`location
      ensures r == Selection(VisibleAggregatesAt(location))
    {
      Select(items, VisibleAggregatesAt(location))
    }

    /** GetRange(KnownFieldType): the fields of that type. */
    function GetRangeByType(fieldType: KnownFieldType): (r: seq<BaseDataField>)
      reads this, (set f | f in items)`header, HeadersOf(items)`show,
            (set f | f in items)`aggregate, AggregatesOf(items)`show, AggregatesOf(items)`location
      ensures r == Selection(OfType(fieldType))
    {
      Select(items, OfType(fieldType))
    }

    /** HasVisibleAggregatesByLocation: GetRange(location) is not empty. */
    predicate HasVisibleAggregatesByLocation(location: KnownAggregateLocation)
      reads this, (set f | f in items)`header, HeadersOf(items)`show,
            (set f | f in items)`aggregate, AggregatesOf(items)`show, AggregatesOf(items)`location
    {
      GetRangeByLocation(location) != []
    }

    /** HasVisibleHeaders: GetRange(Yes) is not empty. */
    predicate HasVisibleHeaders()
      reads this, (set f | f in items)`header, HeadersOf(items)`show,
            (set f | f in items)`aggregate, AggregatesOf(items)`show, AggregatesOf(items)`location
    {
      GetRangeByHeaders(Yes) != []
    }

    /** SetOwner: null is rejected, otherwise the field's owner becomes this collection. */
    method SetOwner(item: BaseDataField?) returns (o: Outcome)
      modifies if item != null then {item} else {}
      ensures item == null ==> o == Failure(ArgumentNull)
      ensures item != null ==>
                (o == Pass && item.owner == this &&
                 unchanged(item`alias, item`dataSource, item`width, item`name, item`piece, item`pieces,
                           item`inputFormat, item`header, item`value, item`aggregate))
    {
      if item == null {
        return Failure(ArgumentNull);
      }
      item.SetOwner(this);
      o := Pass;
    }
  }

  /** HasVisibleHeaders holds exactly when some field shows its header. */
  lemma HasVisibleHeadersMeaning(c: FieldsCollection)
    ensures c.HasVisibleHeaders() <==> exists i | 0 <= i < |c.items| :: HeaderShown(c.items[i])
  {
    SelectEmpty(c.items, VisibleHeaders);
  }

  /** HasVisibleAggregatesByLocation holds exactly when some field shows its
      aggregate at that location. */
  lemma HasVisibleAggregatesMeaning(c: FieldsCollection, location: KnownAggregateLocation)
    ensures c.HasVisibleAggregatesByLocation(location) <==>
            exists i | 0 <= i < |c.items| :: AggregateShownAt(c.items[i], location)
  {
    SelectEmpty(c.items, VisibleAggregatesAt(location));
  }
}
