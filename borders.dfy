// Borders: the four borders of a style, searched by position.

module Borders {
  import opened Wrappers
  import Known
  import Collections

  /** KnownBorderPosition. */
  datatype KnownBorderPosition = Left | Top | Right | Bottom

  /** The settings of a border. */
  datatype BorderView = BorderView(color: string, position: KnownBorderPosition, show: Known.YesNo)

  /** A border: its colour, its side and whether it is drawn. */
  class Border {
    var owner: BordersCollection?
    var color: string
    var position: KnownBorderPosition
    var show: Known.YesNo

    constructor(color: string, position: KnownBorderPosition, show: Known.YesNo)
      ensures owner == null && this.color == color && this.position == position && this.show == show
    {
      owner := null;
      this.color := color;
      this.position := position;
      this.show := show;
    }

    function View(): BorderView
      reads this`color, this`position, this`show
    {
      BorderView(color, position, show)
    }

    method SetOwner(reference: BordersCollection?)
      modifies this`owner
      ensures owner == reference
    {
      owner := reference;
    }
  }

  function BorderViews(bs: seq<Border>): (r: seq<BorderView>)
    reads set b | b in bs
    ensures |r| == |bs| && forall i | 0 <= i < |bs| :: r[i] == bs[i].View()
  {
    if bs == [] then [] else [bs[0].View()] + BorderViews(bs[1..])
  }

  function Positions(vs: seq<BorderView>): (r: seq<KnownBorderPosition>)
    ensures |r| == |vs| && forall i | 0 <= i < |vs| :: r[i] == vs[i].position
  {
    if vs == [] then [] else [vs[0].position] + Positions(vs[1..])
  }

  /** The borders FromCustomColor creates: every side, in the order Left,
      Top, Right, Bottom, drawn in the given colour. */
  function AllSides(color: string): seq<BorderView>
  {
    [BorderView(color, Left, Known.Yes), BorderView(color, Top, Known.Yes),
     BorderView(color, Right, Known.Yes), BorderView(color, Bottom, Known.Yes)]
  }

  /** The sides come in the order Left, Top, Right, Bottom, each side
      exactly once, every border shown in the colour. */
  lemma AllSidesOnce(color: string)
    ensures Positions(AllSides(color)) == [Left, Top, Right, Bottom]
    ensures forall p: KnownBorderPosition :: p in Positions(AllSides(color))
    ensures forall i, j | 0 <= i < j < |AllSides(color)| :: AllSides(color)[i].position != AllSides(color)[j].position
    ensures forall i | 0 <= i < |AllSides(color)| :: AllSides(color)[i].color == color && AllSides(color)[i].show == Known.Yes
  {
    var ps := Positions(AllSides(color));
    assert ps == [Left, Top, Right, Bottom];
    forall p: KnownBorderPosition ensures p in ps {
      match p
      case Left => assert ps[0] == p;
      case Top => assert ps[1] == p;
      case Right => assert ps[2] == p;
      case Bottom => assert ps[3] == p;
    }
  }

  /** BordersCollection: the borders of a style. */
  class BordersCollection {
    var items: seq<Border>

    constructor()
      ensures items == []
    {
      items := [];
    }

    function Views(): seq<BorderView>
      reads this, set b | b in items
    {
      BorderViews(items)
    }

    /** GetBy, the indexer: the first border on that side, or null. */
    function GetBy(value: KnownBorderPosition): (r: Border?)
      reads this, set b | b in items
      ensures r != null ==> exists i | 0 <= i < |items| :: items[i] == r && r.position == value &&
                                                         forall j | 0 <= j < i :: items[j].position != value
      ensures r == null <==> forall i | 0 <= i < |items| :: items[i].position != value
    {
      match Collections.FirstIndex(Positions(BorderViews(items)), value)
      case None => null
      case Some(i) => items[i]
    }

    /** BaseComplexModelCollection.Contains. */
    predicate Contains(value: KnownBorderPosition)
      reads this, set b | b in items
      ensures Contains(value) <==> value in Positions(Views())
    {
      GetBy(value) != null
    }

    /** SetOwner: null is rejected, otherwise the item's owner becomes this collection. */
    method SetOwner(item: Border?) returns (o: Outcome)
      modifies if item != null then {item} else {}
      ensures item == null ==> o == Failure(ArgumentNull)
      ensures item != null ==> o == Pass && item.owner == this && item.View() == old(item.View())
    {
      if item == null {
        return Failure(ArgumentNull);
      }
      item.SetOwner(this);
      o := Pass;
    }
  }

  /** BordersCollection.FromCustomColor: a new collection with a shown
      border of that colour on each side. */
  method FromCustomColor(borderColor: string) returns (c: BordersCollection)
    ensures fresh(c) && c.Views() == AllSides(borderColor)
  {
    c := new BordersCollection();
    var left := new Border(borderColor, Left, Known.Yes);
    var top := new Border(borderColor, Top, Known.Yes);
    var right := new Border(borderColor, Right, Known.Yes);
    var bottom := new Border(borderColor, Bottom, Known.Yes);
    c.items := [left, top, right, bottom];
    ghost var vs := [left.View(), top.View(), right.View(), bottom.View()];
    assert vs == AllSides(borderColor);
    assert BorderViews(c.items) == vs;
  }

  /** KnownBorderColor, by the name its ToString gives. */
  datatype KnownBorderColor = KnownBorderColor(name: string)

  /** BordersCollection.FromKnownColor: as FromCustomColor, with the colour's name. */
  method FromKnownColor(borderColor: KnownBorderColor) returns (c: BordersCollection)
    ensures fresh(c) && c.Views() == AllSides(borderColor.name)
  {
    c := FromCustomColor(borderColor.name);
  }
}
