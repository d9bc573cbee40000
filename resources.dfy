// The table resources a field value can draw on: the Fixed and Group
// collections.

module TableResources {
  import FixedResources
  import GroupResources

  /** What the resources hold, as values. */
  datatype ResourcesView = ResourcesView(fixed: seq<FixedResources.FixedView>, groups: seq<GroupResources.GroupView>)

  class Resources {
    const fixed: FixedResources.FixedCollection
    const groups: GroupResources.GroupsCollection

    /** Both collections exist from the start (their getters create them on
        first use). */
    constructor()
      ensures fresh(fixed) && fresh(groups)
      ensures fixed.items == [] && groups.items == []
    {
      fixed := new FixedResources.FixedCollection();
      groups := new GroupResources.GroupsCollection();
    }

    function View(): ResourcesView
      reads fixed, groups,
            (set f | f in fixed.items)`name, (set f | f in fixed.items)`reference,
            (set f | f in fixed.items)`pieces,
            FixedResources.PiecesOf(fixed.items)`name, FixedResources.PiecesOf(fixed.items)`from,
            FixedResources.PiecesOf(fixed.items)`lenght, FixedResources.PiecesOf(fixed.items)`trim,
            FixedResources.PiecesOf(fixed.items)`trimMode,
            (set g | g in groups.items)`name, (set g | g in groups.items)`items,
            GroupResources.ItemsOf(groups.items)`name, GroupResources.ItemsOf(groups.items)`separator,
            GroupResources.ItemsOf(groups.items)`trim, GroupResources.ItemsOf(groups.items)`trimMode
    {
      ResourcesView(FixedResources.FixedViews(fixed.items), GroupResources.GroupViews(groups.items))
    }
  }

  /** The objects FieldValue.GetValue may update, for resources that may be
      missing (null). */
  function FixedOf(res: Resources?): set<FixedResources.Fixed>
    reads if res == null then {} else {res.fixed}
  {
    if res == null then {} else set f | f in res.fixed.items
  }

  function PiecesIn(res: Resources?): set<FixedResources.Piece>
    reads (if res == null then {} else {res.fixed}), FixedOf(res)`pieces
  {
    if res == null then {} else FixedResources.PiecesOf(res.fixed.items)
  }

  function GroupsOf(res: Resources?): set<GroupResources.Group>
    reads if res == null then {} else {res.groups}
  {
    if res == null then {} else set g | g in res.groups.items
  }

  function ItemsIn(res: Resources?): set<GroupResources.GroupItem>
    reads (if res == null then {} else {res.groups}), GroupsOf(res)`items
  {
    if res == null then {} else GroupResources.ItemsOf(res.groups.items)
  }
}
