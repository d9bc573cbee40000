// Group resources: a Group concatenates the values of its items, each
// followed by its separator; a GroupsCollection holds the groups of a
// table's resources.

module GroupResources {
  import opened Wrappers
  import opened Known
  import opened Rows
  import opened Text
  import TrimModes
  import Collections

  /** The settings of a GroupItem that its value depends on. */
  datatype ItemView = ItemView(name: string, separator: string, trim: YesNo, trimMode: KnownTrimMode)

  /** GroupItem.GetValue once its data source is `row`: the attribute named
      like the item, after the item's trim setting. */
  function ItemValue(row: Row, it: ItemView): (r: Result<string>)
    ensures r.Ok? <==> it.name in row
    ensures r.Fail? ==> r == Fail(ArgumentNull)
    ensures r.Ok? ==> |r.value| <= |row[it.name]| && Contains(row[it.name], r.value)
    ensures r.Ok? && it.trim == No ==> r.value == row[it.name]
    ensures r.Ok? ==> r.value == TrimModes.ParseValue(it.trim, it.trimMode, row[it.name])
  {
    match Attribute(row, it.name)
    case None => Fail(ArgumentNull)
    case Some(v) =>
      TrimModes.ParseValueMeaning(it.trim, it.trimMode, v);
      Ok(TrimModes.ParseValue(it.trim, it.trimMode, v))
  }

  /** Some item's separator is "New Line", ignoring case. */
  predicate IsMultiline(items: seq<ItemView>)
  {
    exists i | 0 <= i < |items| :: EqualsIgnoreCase(items[i].separator, "New Line")
  }

  /** GroupItem: one attribute of a group, with its separator and trim setting. */
  class GroupItem {
    var owner: Group?
    var dataSource: Option<Row>
    var name: string
    var separator: string
    var trim: YesNo
    var trimMode: KnownTrimMode

    /** A new item does not trim (both ends when asked) and has separator "None". */
    constructor()
      ensures owner == null && dataSource.None? && name == ""
      ensures trim == No && trimMode == All && separator == "None"
    {
      owner := null;
      dataSource := None;
      name := "";
      separator := "None";
      trim := No;
      trimMode := All;
    }

    function View(): ItemView
      reads this`name, this`separator, this`trim, this`trimMode
    {
      ItemView(name, separator, trim, trimMode)
    }

    /** The Name setter: null and invalid field names are rejected. */
    method SetName(value: Option<string>, validators: Validators) returns (o: Outcome)
      modifies this`name
      ensures value.None? ==> o == Failure(ArgumentNull)
      ensures value.Some? ==> (o == Pass <==> validators.isValidFieldName(value.value))
      ensures value.Some? && o != Pass ==> o == Failure(InvalidFieldName)
      ensures name == if o == Pass then value.value else old(name)
    {
      if value.None? {
        return Failure(ArgumentNull);
      }
      if !validators.isValidFieldName(value.value) {
        return Failure(InvalidFieldName);
      }
      name := value.value;
      o := Pass;
    }

    method SetOwner(reference: Group?)
      modifies this`owner
      ensures owner == reference
    {
      owner := reference;
    }

    /** GroupItem.GetValue: a null data source or a missing attribute throws. */
    function GetValue(): (r: Result<string>)
      reads this
      ensures dataSource.None? ==> r == Fail(ArgumentNull)
      ensures dataSource.Some? ==> r == ItemValue(dataSource.value, View())
    {
      if dataSource.None? then Fail(ArgumentNull) else ItemValue(dataSource.value, View())
    }
  }

  function ItemViews(items: seq<GroupItem>): (r: seq<ItemView>)
    reads (set it | it in items)`name, (set it | it in items)`separator,
          (set it | it in items)`trim, (set it | it in items)`trimMode
    ensures |r| == |items| && forall i | 0 <= i < |items| :: r[i] == items[i].View()
  {
    if items == [] then [] else [items[0].View()] + ItemViews(items[1..])
  }

  /** The settings of a Group that values depend on. */
  datatype GroupView = GroupView(name: Option<string>, items: seq<ItemView>)

  class Group {
    var owner: GroupsCollection?
    var name: Option<string>
    /** The elements of the Fields list; `hasItems` says whether the list
        exists yet (a missing list reads as empty). */
    var items: seq<GroupItem>
    var hasItems: bool

    constructor()
      ensures owner == null && name.None? && items == [] && !hasItems
    {
      owner := null;
      name := None;
      items := [];
      hasItems := false;
    }

    function View(): GroupView
      reads this`name, this`items,
            (set it | it in items)`name, (set it | it in items)`separator,
            (set it | it in items)`trim, (set it | it in items)`trimMode
    {
      GroupView(name, ItemViews(items))
    }

    /** The Fields getter: creates the list when there is none, makes this
        group the owner of every item, and returns the list unchanged. */
    method GetFields() returns (fs: seq<GroupItem>)
      modifies this`hasItems, (set it | it in items)`owner
      ensures hasItems
      ensures fs == items
      ensures forall it | it in fs :: it.owner == this
      ensures ItemViews(fs) == old(ItemViews(items))
    {
      if !hasItems {
        hasItems := true;
      }
      fs := items;
      var i := 0;
      while i < |fs|
        invariant 0 <= i <= |fs|
        invariant hasItems
        invariant forall j | 0 <= j < i :: fs[j].owner == this
      {
        fs[i].SetOwner(this);
        i := i + 1;
      }
    }

    /** Multiline: some item's separator is "New Line" in any letter case
        (read through the Fields getter). */
    method Multiline() returns (m: bool)
      modifies this`hasItems, (set it | it in items)`owner
      ensures m == IsMultiline(View().items)
    {
      var fs := GetFields();
      m := AnyNewLine(fs);
    }

    /** The Name setter: null and invalid field names are rejected. */
    method SetName(value: Option<string>, validators: Validators) returns (o: Outcome)
      modifies this`name
      ensures value.None? ==> o == Failure(ArgumentNull)
      ensures value.Some? ==> (o == Pass <==> validators.isValidFieldName(value.value))
      ensures value.Some? && o != Pass ==> o == Failure(InvalidFieldName)
      ensures name == if o == Pass then value else old(name)
    {
      if value.None? {
        return Failure(ArgumentNull);
      }
      if !validators.isValidFieldName(value.value) {
        return Failure(InvalidFieldName);
      }
      name := value;
      o := Pass;
    }

    method SetOwner(reference: GroupsCollection?)
      modifies this`owner
      ensures owner == reference
    {
      owner := reference;
    }
  }

  /** The loop of Group.Multiline over the items, stopping at the first
      "New Line" separator. */
  method AnyNewLine(fs: seq<GroupItem>) returns (m: bool)
    ensures m == IsMultiline(ItemViews(fs))
  {
    ghost var vs := ItemViews(fs);
    m := false;
    var i := 0;
    while i < |fs| && !m
      invariant 0 <= i <= |fs|
      invariant !m ==> forall j | 0 <= j < i :: !EqualsIgnoreCase(vs[j].separator, "New Line")
      invariant m ==> 0 < i && EqualsIgnoreCase(vs[i - 1].separator, "New Line")
    {
      assert fs[i].separator == vs[i].separator;
      m := EqualsIgnoreCase(fs[i].separator, "New Line");
      i := i + 1;
    }
  }

  /** Every item of the listed groups. */
  function ItemsOf(gs: seq<Group>): set<GroupItem>
    reads (set g | g in gs)`items
  {
    set g, it | g in gs && it in g.items :: it
  }

  function GroupViews(gs: seq<Group>): (r: seq<GroupView>)
    reads (set g | g in gs)`name, (set g | g in gs)`items,
          ItemsOf(gs)`name, ItemsOf(gs)`separator, ItemsOf(gs)`trim, ItemsOf(gs)`trimMode
    ensures |r| == |gs|
  {
    if gs == [] then []
    else
      assert forall it | it in gs[0].items :: it in ItemsOf(gs);
      assert ItemsOf(gs[1..]) <= ItemsOf(gs);
      [gs[0].View()] + GroupViews(gs[1..])
  }

  lemma {:induction false} GroupViewsAt(gs: seq<Group>, i: nat)
    requires i < |gs|
    ensures GroupViews(gs)[i] == gs[i].View()
    decreases i
  {
    if i > 0 {
      GroupViewsAt(gs[1..], i - 1);
    }
  }

  /** The list of views depends only on the settings of the groups and of
      their items. */
  twostate lemma {:induction false} GroupViewsFramed(gs: seq<Group>)
    requires forall g | g in gs :: unchanged(g`name, g`items)
    requires forall g, it | g in gs && it in g.items :: unchanged(it`name, it`separator, it`trim, it`trimMode)
    ensures GroupViews(gs) == old(GroupViews(gs))
    decreases |gs|
  {
    if gs != [] {
      assert gs[0] in gs;
      assert forall g | g in gs[1..] :: g in gs;
      GroupViewsFramed(gs[1..]);
    }
  }

  function GroupNames(gs: seq<Group>): (r: seq<Option<string>>)
    reads (set g | g in gs)`name
    ensures |r| == |gs| && forall i | 0 <= i < |gs| :: r[i] == gs[i].name
  {
    if gs == [] then [] else [gs[0].name] + GroupNames(gs[1..])
  }

  /** GroupsCollection: the groups of a table's resources. */
  class GroupsCollection {
    var items: seq<Group>

    constructor()
      ensures items == []
    {
      items := [];
    }

    /** GroupsCollection.GetBy, the indexer: the first group with that name,
        or null; a group without a name met before it throws NullReference.
        Unlike FixedCollection, the empty name is searched too. */
    function GetBy(value: string): (r: Result<Group?>)
      reads this, (set g | g in items)`name
      ensures r.Ok? && r.value != null ==>
                exists i | 0 <= i < |items| :: items[i] == r.value && items[i].name == Some(value) &&
                                               forall j | 0 <= j < i :: items[j].name.Some? && items[j].name != Some(value)
      ensures r == Ok(null) <==> forall i | 0 <= i < |items| :: items[i].name.Some? && items[i].name != Some(value)
      ensures r.Fail? ==>
                r == Fail(NullReference) &&
                exists i | 0 <= i < |items| :: items[i].name.None? &&
                                               forall j | 0 <= j < i :: items[j].name.Some? && items[j].name != Some(value)
    {
      match Collections.FindKey(GroupNames(items), value)
      case Fail(e) => Fail(e)
      case Ok(None) => Ok(null)
      case Ok(Some(i)) => Ok(items[i] as Group?)
    }

    /** BaseComplexModelCollection.Contains: GetBy finds a group, and throws
        when GetBy does. */
    function Contains(value: string): (r: Result<bool>)
      reads this, (set g | g in items)`name
      ensures r.Fail? <==> GetBy(value).Fail?
      ensures r == Ok(true) <==> Collections.FindKey(GroupNames(items), value).Ok? && Some(value) in GroupNames(items)
    {
      match GetBy(value)
      case Fail(e) => Fail(e)
      case Ok(g) => Ok(g != null)
    }

    /** SetOwner: null is rejected, otherwise the item's owner becomes this collection. */
    method SetOwner(item: Group?) returns (o: Outcome)
      modifies if item != null then {item} else {}
      ensures item == null ==> o == Failure(ArgumentNull)
      ensures item != null ==>
                (o == Pass && item.owner == this && unchanged(item`name, item`items, item`hasItems))
    {
      if item == null {
        return Failure(ArgumentNull);
      }
      item.SetOwner(this);
      o := Pass;
    }
  }
}
