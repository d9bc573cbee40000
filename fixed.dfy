// Fixed-width resources: a Fixed names a reference attribute of the data
// row and splits its value into Pieces; a FixedCollection holds the Fixed
// definitions of a table's resources.

module FixedResources {
  import opened Wrappers
  import opened Known
  import opened Rows
  import opened Text
  import TrimModes
  import Collections

  /** The settings of a Piece that its value depends on. */
  datatype PieceView = PieceView(name: string, from: int, lenght: int, trim: YesNo, trimMode: KnownTrimMode)

  /** Piece.GetValue once its owner's data source is `row` and its owner's
      reference is `reference`: the substring [from, from + lenght) of the
      reference attribute, after the piece's trim setting. A null reference
      and a missing attribute both throw ArgumentNull. */
  function PieceValue(row: Row, reference: Option<string>, p: PieceView): (r: Result<string>)
    ensures reference.None? || reference.value !in row ==> r == Fail(ArgumentNull)
    ensures r.Ok? <==> reference.Some? && reference.value in row &&
                       0 <= p.from && 0 <= p.lenght && p.from + p.lenght <= |row[reference.value]|
    ensures reference.Some? && reference.value in row && r.Fail? ==> r == Fail(ArgumentOutOfRange)
    ensures r.Ok? ==>
              var raw := row[reference.value][p.from..p.from + p.lenght];
              |r.value| <= p.lenght && Contains(raw, r.value) && (p.trim == No ==> r.value == raw) &&
              r.value == TrimModes.ParseValue(p.trim, p.trimMode, raw)
  {
    if reference.None? then Fail(ArgumentNull)
    else
      match Attribute(row, reference.value)
      case None => Fail(ArgumentNull)
      case Some(v) =>
        if 0 <= p.from && 0 <= p.lenght && p.from + p.lenght <= |v| then
          TrimModes.ParseValueMeaning(p.trim, p.trimMode, v[p.from..p.from + p.lenght]);
          Ok(TrimModes.ParseValue(p.trim, p.trimMode, v[p.from..p.from + p.lenght]))
        else
          Fail(ArgumentOutOfRange)
  }

  function PieceNames(ps: seq<PieceView>): (r: seq<string>)
    ensures |r| == |ps| && forall i | 0 <= i < |ps| :: r[i] == ps[i].name
  {
    seq(|ps|, i requires 0 <= i < |ps| => ps[i].name)
  }

  /** The names of `ps` are pairwise different. */
  predicate DistinctNames(ps: seq<PieceView>)
  {
    forall i, j | 0 <= i < j < |ps| :: ps[i].name != ps[j].name
  }

  /** Every piece of `ps` can be read from `row`. */
  predicate AllReadable(row: Row, reference: Option<string>, ps: seq<PieceView>)
  {
    forall i | 0 <= i < |ps| :: PieceValue(row, reference, ps[i]).Ok?
  }

  /** Enumerable.ToDictionary(Name, GetValue) over the pieces, continuing from
      the entries already in `acc`: the first piece whose value cannot be read,
      or whose name is already a key, stops it with that exception. */
  function DictionaryFrom(row: Row, reference: Option<string>, ps: seq<PieceView>, acc: map<string, string>): (r: Result<map<string, string>>)
    ensures r.Fail? ==> r.error in {ArgumentNull, ArgumentOutOfRange, DuplicateKey}
  {
    if ps == [] then Ok(acc)
    else
      match PieceValue(row, reference, ps[0])
      case Fail(e) => Fail(e)
      case Ok(v) =>
        if ps[0].name in acc then Fail(DuplicateKey)
        else DictionaryFrom(row, reference, ps[1..], acc[ps[0].name := v])
  }

  /** ToDictionary succeeds exactly when every piece is readable and no name
      repeats (counting the keys already present). */
  lemma {:induction false} DictionaryFromOk(row: Row, reference: Option<string>, ps: seq<PieceView>, acc: map<string, string>)
    ensures DictionaryFrom(row, reference, ps, acc).Ok? <==>
              AllReadable(row, reference, ps) && DistinctNames(ps) &&
              forall i | 0 <= i < |ps| :: ps[i].name !in acc
  {
    if ps != [] {
      var r := PieceValue(row, reference, ps[0]);
      if r.Ok? && ps[0].name !in acc {
        var acc' := acc[ps[0].name := r.value];
        DictionaryFromOk(row, reference, ps[1..], acc');
        assert AllReadable(row, reference, ps) <==> AllReadable(row, reference, ps[1..]) by {
          assert forall i | 1 <= i < |ps| :: ps[i] == ps[1..][i - 1];
        }
        assert DistinctNames(ps) && (forall i | 0 <= i < |ps| :: ps[i].name !in acc) <==>
               DistinctNames(ps[1..]) && (forall i | 0 <= i < |ps[1..]| :: ps[1..][i].name !in acc') by {
          assert forall i | 1 <= i < |ps| :: ps[i] == ps[1..][i - 1];
        }
      } else if r.Fail? {
        assert !AllReadable(row, reference, ps);
      } else {
        assert ps[0].name in acc;
      }
    }
  }

  /** On success the map has one entry per piece, holding that piece's value,
      besides the entries already present. */
  lemma {:induction false} DictionaryFromContents(row: Row, reference: Option<string>, ps: seq<PieceView>, acc: map<string, string>)
    requires DictionaryFrom(row, reference, ps, acc).Ok?
    ensures var d := DictionaryFrom(row, reference, ps, acc).value;
            d.Keys == acc.Keys + (set n | n in PieceNames(ps)) &&
            (forall k | k in acc :: d[k] == acc[k]) &&
            (forall i | 0 <= i < |ps| :: PieceValue(row, reference, ps[i]).Ok? &&
                                         d[ps[i].name] == PieceValue(row, reference, ps[i]).value)
  {
    if ps != [] {
      var v := PieceValue(row, reference, ps[0]).value;
      var acc' := acc[ps[0].name := v];
      DictionaryFromContents(row, reference, ps[1..], acc');
      DictionaryFromOk(row, reference, ps, acc);
      assert PieceNames(ps) == [ps[0].name] + PieceNames(ps[1..]);
      forall i | 1 <= i < |ps| ensures ps[i] == ps[1..][i - 1] {
      }
    }
  }

  /** Fixed.ToDictionary once its data source is `row`. */
  function PiecesDictionary(row: Row, reference: Option<string>, ps: seq<PieceView>): Result<map<string, string>>
  {
    DictionaryFrom(row, reference, ps, map[])
  }

  /** Read together, the two lemmas above state ToDictionary's promise. */
  lemma PiecesDictionaryMeaning(row: Row, reference: Option<string>, ps: seq<PieceView>)
    ensures PiecesDictionary(row, reference, ps).Ok? <==> AllReadable(row, reference, ps) && DistinctNames(ps)
    ensures PiecesDictionary(row, reference, ps).Ok? ==>
              var d := PiecesDictionary(row, reference, ps).value;
              d.Keys == (set n | n in PieceNames(ps)) &&
              forall i | 0 <= i < |ps| :: d[ps[i].name] == PieceValue(row, reference, ps[i]).value
  {
    DictionaryFromOk(row, reference, ps, map[]);
    if PiecesDictionary(row, reference, ps).Ok? {
      DictionaryFromContents(row, reference, ps, map[]);
    }
  }

  /** A fixed-width slice of the owner's reference attribute. */
  class Piece {
    var owner: Fixed?
    var from: int
    var lenght: int
    var name: string
    var trim: YesNo
    var trimMode: KnownTrimMode

    /** A new piece does not trim, and would trim both ends when asked to. */
    constructor()
      ensures owner == null && trim == No && trimMode == All
      ensures from == 0 && lenght == 0 && name == ""
    {
      owner := null;
      from := 0;
      lenght := 0;
      name := "";
      trim := No;
      trimMode := All;
    }

    function View(): PieceView
      reads this`name, this`from, this`lenght, this`trim, this`trimMode
    {
      PieceView(name, from, lenght, trim, trimMode)
    }

    /** The From setter: with an owner the start must lie in [0, |owner's
        reference name|] (a null reference throws), without one it must not
        be negative. */
    method SetFrom(value: int) returns (o: Outcome)
      modifies this`from
      ensures owner != null && owner.reference.None? ==> o == Failure(NullReference)
      ensures o == Pass <==>
                if owner != null then owner.reference.Some? && 0 <= value <= |owner.reference.value| else 0 <= value
      ensures o != Pass && (owner == null || owner.reference.Some?) ==> o == Failure(ArgumentOutOfRange)
      ensures from == if o == Pass then value else old(from)
    {
      if owner != null && owner.reference.None? {
        return Failure(NullReference);
      }
      var ok := if owner != null then 0 <= value <= |owner.reference.value| else 0 <= value;
      if !ok {
        return Failure(ArgumentOutOfRange);
      }
      from := value;
      o := Pass;
    }

    /** The Lenght setter: with an owner the length must lie in
        [0, |owner's reference name| - From] (a null reference throws),
        without one it must be at least 1. */
    method SetLenght(value: int) returns (o: Outcome)
      modifies this`lenght
      ensures owner != null && owner.reference.None? ==> o == Failure(NullReference)
      ensures o == Pass <==>
                if owner != null then owner.reference.Some? && 0 <= value <= |owner.reference.value| - from else 1 <= value
      ensures o != Pass && (owner == null || owner.reference.Some?) ==> o == Failure(ArgumentOutOfRange)
      ensures lenght == if o == Pass then value else old(lenght)
    {
      if owner != null && owner.reference.None? {
        return Failure(NullReference);
      }
      var ok := if owner != null then 0 <= value <= |owner.reference.value| - from else 1 <= value;
      if !ok {
        return Failure(ArgumentOutOfRange);
      }
      lenght := value;
      o := Pass;
    }

    /** The Name setter: null and invalid identifiers are rejected. */
    method SetName(value: Option<string>, validators: Validators) returns (o: Outcome)
      modifies this`name
      ensures value.None? ==> o == Failure(ArgumentNull)
      ensures value.Some? ==> (o == Pass <==> validators.isValidIdentifier(value.value))
      ensures value.Some? && o != Pass ==> o == Failure(InvalidIdentifier)
      ensures name == if o == Pass then value.value else old(name)
    {
      if value.None? {
        return Failure(ArgumentNull);
      }
      if !validators.isValidIdentifier(value.value) {
        return Failure(InvalidIdentifier);
      }
      name := value.value;
      o := Pass;
    }

    method SetOwner(reference: Fixed?)
      modifies this`owner
      ensures owner == reference
    {
      owner := reference;
    }

    /** Piece.GetValue: fails without an owner (null dereference) or without
        the owner's data source, and otherwise reads the slice from the
        owner's reference attribute. */
    function GetValue(): (r: Result<string>)
      reads this, owner
      ensures owner == null ==> r == Fail(NullReference)
      ensures owner != null && owner.dataSource.None? ==> r == Fail(ArgumentNull)
      ensures owner != null && owner.dataSource.Some? ==>
                r == PieceValue(owner.dataSource.value, owner.reference, View())
    {
      if owner == null then Fail(NullReference)
      else if owner.dataSource.None? then Fail(ArgumentNull)
      else PieceValue(owner.dataSource.value, owner.reference, View())
    }
  }

  function PieceViews(ps: seq<Piece>): (r: seq<PieceView>)
    reads (set p | p in ps)`name, (set p | p in ps)`from, (set p | p in ps)`lenght,
          (set p | p in ps)`trim, (set p | p in ps)`trimMode
    ensures |r| == |ps| && forall i | 0 <= i < |ps| :: r[i] == ps[i].View()
  {
    if ps == [] then [] else [ps[0].View()] + PieceViews(ps[1..])
  }

  /** The settings of a Fixed that values depend on. */
  datatype FixedView = FixedView(name: Option<string>, reference: Option<string>, pieces: seq<PieceView>)

  /** Fixed: the pieces a reference attribute is split into. */
  class Fixed {
    var owner: FixedCollection?
    var dataSource: Option<Row>
    var name: Option<string>
    /** The elements of the Pieces list; `hasPieces` says whether the list
        exists yet (a missing list reads as empty). */
    var pieces: seq<Piece>
    var hasPieces: bool
    var reference: Option<string>

    constructor()
      ensures owner == null && dataSource.None? && pieces == [] && !hasPieces
      ensures name.None? && reference.None?
    {
      owner := null;
      dataSource := None;
      name := None;
      pieces := [];
      hasPieces := false;
      reference := None;
    }

    function View(): FixedView
      reads this`name, this`reference, this`pieces,
            (set p | p in pieces)`name, (set p | p in pieces)`from,
            (set p | p in pieces)`lenght, (set p | p in pieces)`trim,
            (set p | p in pieces)`trimMode
    {
      FixedView(name, reference, PieceViews(pieces))
    }

    /** The Pieces getter: creates the list when there is none, makes this
        Fixed the owner of every piece, and returns the list unchanged. */
    method GetPieces() returns (ps: seq<Piece>)
      modifies this`hasPieces, (set p | p in pieces)`owner
      ensures hasPieces
      ensures ps == pieces
      ensures forall p | p in ps :: p.owner == this
    {
      if !hasPieces {
        hasPieces := true;
      }
      ps := pieces;
      var i := 0;
      while i < |ps|
        invariant 0 <= i <= |ps|
        invariant hasPieces
        invariant forall j | 0 <= j < i :: ps[j].owner == this
      {
        ps[i].SetOwner(this);
        i := i + 1;
      }
    }

    /** The Name setter: null and invalid identifiers are rejected. */
    method SetName(value: Option<string>, validators: Validators) returns (o: Outcome)
      modifies this`name
      ensures value.None? ==> o == Failure(ArgumentNull)
      ensures value.Some? ==> (o == Pass <==> validators.isValidIdentifier(value.value))
      ensures value.Some? && o != Pass ==> o == Failure(InvalidIdentifier)
      ensures name == if o == Pass then value else old(name)
    {
      if value.None? {
        return Failure(ArgumentNull);
      }
      if !validators.isValidIdentifier(value.value) {
        return Failure(InvalidIdentifier);
      }
      name := value;
      o := Pass;
    }

    /** The Reference setter: null and invalid field names are rejected. */
    method SetReference(value: Option<string>, validators: Validators) returns (o: Outcome)
      modifies this`reference
      ensures value.None? ==> o == Failure(ArgumentNull)
      ensures value.Some? ==> (o == Pass <==> validators.isValidFieldName(value.value))
      ensures value.Some? && o != Pass ==> o == Failure(InvalidFieldName)
      ensures reference == if o == Pass then value else old(reference)
    {
      if value.None? {
        return Failure(ArgumentNull);
      }
      if !validators.isValidFieldName(value.value) {
        return Failure(InvalidFieldName);
      }
      reference := value;
      o := Pass;
    }

    method SetOwner(reference: FixedCollection?)
      modifies this`owner
      ensures owner == reference
    {
      owner := reference;
    }

    /** Fixed.ToDictionary: null data source throws; otherwise every piece's
        name is mapped to its value, in list order. */
    method ToDictionary() returns (r: Result<map<string, string>>)
      modifies this`hasPieces, (set p | p in pieces)`owner
      ensures dataSource.None? ==> r == Fail(ArgumentNull)
      ensures dataSource.Some? ==> r == PiecesDictionary(dataSource.value, reference, View().pieces)
    {
      if dataSource.None? {
        return Fail(ArgumentNull);
      }
      var ps := GetPieces();
      ghost var views := PieceViews(ps);
      var acc: map<string, string> := map[];
      var i := 0;
      while i < |ps|
        invariant 0 <= i <= |ps|
        invariant forall p | p in ps :: p.owner == this
        invariant PiecesDictionary(dataSource.value, reference, views) ==
                  DictionaryFrom(dataSource.value, reference, views[i..], acc)
      {
        assert views[i..][1..] == views[i + 1..];
        var v := ps[i].GetValue();
        if v.Fail? {
          return Fail(v.error);
        }
        if ps[i].name in acc {
          return Fail(DuplicateKey);
        }
        acc := acc[ps[i].name := v.value];
        i := i + 1;
      }
      return Ok(acc);
    }
  }

  /** Every piece of the listed Fixed resources. */
  function PiecesOf(fs: seq<Fixed>): set<Piece>
    reads (set f | f in fs)`pieces
  {
    set f, p | f in fs && p in f.pieces :: p
  }

  function FixedViews(fs: seq<Fixed>): (r: seq<FixedView>)
    reads (set f | f in fs)`name, (set f | f in fs)`reference, (set f | f in fs)`pieces,
          PiecesOf(fs)`name, PiecesOf(fs)`from, PiecesOf(fs)`lenght, PiecesOf(fs)`trim, PiecesOf(fs)`trimMode
    ensures |r| == |fs|
  {
    if fs == [] then []
    else
      assert forall p | p in fs[0].pieces :: p in PiecesOf(fs);
      assert PiecesOf(fs[1..]) <= PiecesOf(fs);
      [fs[0].View()] + FixedViews(fs[1..])
  }

  lemma {:induction false} FixedViewsAt(fs: seq<Fixed>, i: nat)
    requires i < |fs|
    ensures FixedViews(fs)[i] == fs[i].View()
    decreases i
  {
    if i > 0 {
      FixedViewsAt(fs[1..], i - 1);
    }
  }

  /** The list of views depends only on the settings of the Fixed resources
      and of their pieces. */
  twostate lemma {:induction false} FixedViewsFramed(fs: seq<Fixed>)
    requires forall f | f in fs :: unchanged(f`name, f`reference, f`pieces)
    requires forall f, p | f in fs && p in f.pieces :: unchanged(p`name, p`from, p`lenght, p`trim, p`trimMode)
    ensures FixedViews(fs) == old(FixedViews(fs))
    decreases |fs|
  {
    if fs != [] {
      assert fs[0] in fs;
      assert forall f | f in fs[1..] :: f in fs;
      FixedViewsFramed(fs[1..]);
    }
  }

  function FixedNames(fs: seq<Fixed>): (r: seq<Option<string>>)
    reads (set f | f in fs)`name
    ensures |r| == |fs| && forall i | 0 <= i < |fs| :: r[i] == fs[i].name
  {
    if fs == [] then [] else [fs[0].name] + FixedNames(fs[1..])
  }

  /** FixedCollection: the Fixed resources of a table. */
  class FixedCollection {
    var items: seq<Fixed>

    constructor()
      ensures items == []
    {
      items := [];
    }

    function Names(): (r: seq<Option<string>>)
      reads this, (set f | f in items)`name
      ensures |r| == |items| && forall i | 0 <= i < |items| :: r[i] == items[i].name
    {
      FixedNames(items)
    }

    /** FixedCollection.GetBy, the indexer: an empty name finds nothing,
        otherwise the first Fixed with that name, or null; a Fixed without a
        name met before it throws NullReference. */
    function GetBy(value: string): (r: Result<Fixed?>)
      reads this, (set f | f in items)`name
      ensures value == "" ==> r == Ok(null)
      ensures r.Ok? && r.value != null ==>
                exists i | 0 <= i < |items| :: items[i] == r.value && items[i].name == Some(value) &&
                                               forall j | 0 <= j < i :: items[j].name.Some? && items[j].name != Some(value)
      ensures r == Ok(null) && value != "" ==>
                forall i | 0 <= i < |items| :: items[i].name.Some? && items[i].name != Some(value)
      ensures r.Fail? ==>
                r == Fail(NullReference) && value != "" &&
                exists i | 0 <= i < |items| :: items[i].name.None? &&
                                               forall j | 0 <= j < i :: items[j].name.Some? && items[j].name != Some(value)
    {
      if value == "" then Ok(null)
      else
        match Collections.FindKey(Names(), value)
        case Fail(e) => Fail(e)
        case Ok(None) => Ok(null)
        case Ok(Some(i)) => Ok(items[i] as Fixed?)
    }

    /** BaseComplexModelCollection.Contains: GetBy finds a Fixed, and throws
        when GetBy does. */
    function Contains(value: string): (r: Result<bool>)
      reads this, (set f | f in items)`name
      ensures r.Fail? <==> GetBy(value).Fail?
      ensures r == Ok(true) <==> value != "" && Collections.FindKey(Names(), value).Ok? && Some(value) in Names()
    {
      match GetBy(value)
      case Fail(e) => Fail(e)
      case Ok(f) => Ok(f != null)
    }

    /** SetOwner: null is rejected, otherwise the item's owner becomes this collection. */
    method SetOwner(item: Fixed?) returns (o: Outcome)
      modifies if item != null then {item} else {}
      ensures item == null ==> o == Failure(ArgumentNull)
      ensures item != null ==>
                (o == Pass && item.owner == this &&
                 unchanged(item`dataSource, item`name, item`pieces, item`hasPieces, item`reference))
    {
      if item == null {
        return Failure(ArgumentNull);
      }
      item.SetOwner(this);
      o := Pass;
    }
  }
}
