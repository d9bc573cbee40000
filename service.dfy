// ModelService: the context conditions are evaluated in (the data rows, the
// active filter, the current row, column and field).

module Service {
  import opened Wrappers
  import opened Known
  import opened Rows
  import opened Filters
  import Collections
  import Fields

  /** What the data provider answers (its code is not part of this model):
      whether it can give a DataTable, and the rows of that table. */
  datatype Provider = Provider(canGetDataTable: bool, dataTable: seq<Row>)

  /** The service once SetInputDataModel has given it its data: the rows
      the provider produced, the resources' filters, the name of the
      filter to apply and the provider. */
  class ModelService {
    var currentCol: int
    var currentRow: int
    var currentField: Fields.BaseDataField?
    const currentFilter: Option<string>
    const filters: FiltersCollection
    const rawData: seq<Row>
    const currentProvider: Provider

    constructor(rawData: seq<Row>, filters: FiltersCollection, currentFilter: Option<string>, provider: Provider)
      ensures this.rawData == rawData && this.filters == filters && this.currentFilter == currentFilter
      ensures currentProvider == provider
      ensures currentCol == 0 && currentRow == 0 && currentField == null
    {
      this.rawData := rawData;
      this.filters := filters;
      this.currentFilter := currentFilter;
      currentProvider := provider;
      currentCol := 0;
      currentRow := 0;
      currentField := null;
    }

    /** The filter RawDataFiltered applies: the one named by CurrentFilter,
        when there is such a name and such a filter and it is active. */
    function AppliedFilter(): (f: Filter?)
      reads filters, set f | f in filters.items
      ensures f == null <==>
                currentFilter.None? || currentFilter.value == "" ||
                filters.GetBy(currentFilter.value) == null ||
                filters.GetBy(currentFilter.value).active != Yes
      ensures f != null ==> f in filters.items && f.key == currentFilter && f.active == Yes
    {
      if currentFilter.None? || currentFilter.value == "" then null
      else
        var found := filters.GetBy(currentFilter.value);
        if found == null || found.active != Yes then null else found
    }

    /** RawDataFiltered: all the rows when no filter applies, otherwise the
        rows the filter's expression keeps. `culture` is the current culture
        decimal.Parse reads numbers with. */
    function RawDataFiltered(culture: Culture): (r: Result<seq<Row>>)
      reads filters, set f | f in filters.items
      ensures AppliedFilter() == null ==> r == Ok(rawData)
      ensures AppliedFilter() != null && AppliedFilter().Expression(culture).Fail? ==>
                r == Fail(AppliedFilter().Expression(culture).error)
    {
      var f := AppliedFilter();
      if f == null then Ok(rawData)
      else
        match f.Expression(culture)
        case Fail(e) => Fail(e)
        case Ok(s) => FindAll(s, rawData, culture)
    }

    /** RawDataFiltered with the evidently intended builder
        (Filters.BuildFilter): it differs from RawDataFiltered only when the
        applied filter's operator is NotEqualTo. */
    function RawDataFilteredIntended(culture: Culture): (r: Result<seq<Row>>)
      reads filters, set f | f in filters.items
      ensures AppliedFilter() == null ==> r == Ok(rawData)
      ensures AppliedFilter() != null && AppliedFilter().criterial != NotEqualTo ==> r == RawDataFiltered(culture)
    {
      var f := AppliedFilter();
      if f == null then Ok(rawData)
      else
        match f.IntendedExpression(culture)
        case Fail(e) => Fail(e)
        case Ok(s) => FindAll(s, rawData, culture)
    }

    /** SetCurrentCol. */
    method SetCurrentCol(col: int)
      modifies this`currentCol
      ensures currentCol == col
    {
      currentCol := col;
    }

    /** SetCurrentRow. */
    method SetCurrentRow(row: int)
      modifies this`currentRow
      ensures currentRow == row
    {
      currentRow := row;
    }

    /** SetCurrentField. */
    method SetCurrentField(field: Fields.BaseDataField?)
      modifies this`currentField
      ensures currentField == field
    {
      currentField := field;
    }

    /** TryGetUnderlyingDataAsDataTable: false and no data when the provider
        cannot give a DataTable, otherwise true and the provider's table. */
    method TryGetUnderlyingDataAsDataTable() returns (found: bool, data: Option<seq<Row>>)
      ensures found == currentProvider.canGetDataTable
      ensures !found ==> data.None?
      ensures found ==> data == Some(currentProvider.dataTable)
    {
      data := None;
      if !currentProvider.canGetDataTable {
        return false, data;
      }
      data := Some(currentProvider.dataTable);
      found := true;
    }
  }

  /** When a filter applies, RawDataFiltered keeps the rows its expression
      accepts, in their order: a subsequence of RawData, no longer than it;
      it throws when one of the rows cannot be tested. */
  lemma RawDataFilteredMeaning(s: ModelService, culture: Culture)
    ensures var f := s.AppliedFilter();
            var r := s.RawDataFiltered(culture);
            f != null && f.Expression(culture).Ok? ==>
              var e := f.Expression(culture).value;
              (r.Ok? <==> forall i | 0 <= i < |s.rawData| :: IsSatisfiedBy(e, s.rawData[i], culture).Ok?) &&
              (r.Ok? ==> Collections.IsSubsequence(r.value, s.rawData) &&
                         |r.value| <= |s.rawData| &&
                         (forall x | x in r.value :: IsSatisfiedBy(e, x, culture) == Ok(true)) &&
                         |r.value| == Passing(e, s.rawData, culture))
  {
    var f := s.AppliedFilter();
    if f != null && f.Expression(culture).Ok? {
      var e := f.Expression(culture).value;
      FindAllMeaning(e, s.rawData, culture);
      var r := s.RawDataFiltered(culture);
      if r.Ok? {
        Collections.SubsequenceBounds(r.value, s.rawData);
      }
    }
  }

  /** With a NotEqualTo filter applied, the intended RawDataFiltered throws
      exactly when the as-written one does; otherwise the two split RawData
      between them: no row is kept by both, and together they keep as many
      rows as RawData holds. */
  lemma RawDataFilteredIntendedMeaning(s: ModelService, culture: Culture)
    ensures var f := s.AppliedFilter();
            var r := s.RawDataFiltered(culture);
            var q := s.RawDataFilteredIntended(culture);
            f != null && f.criterial == NotEqualTo ==>
              (r.Ok? <==> q.Ok?) &&
              (r.Ok? ==> |r.value| + |q.value| == |s.rawData| &&
                         forall x | x in r.value :: x !in q.value)
  {
    var f := s.AppliedFilter();
    if f != null && f.criterial == NotEqualTo && f.Expression(culture).Ok? {
      var e := f.Expression(culture).value;
      assert f.IntendedExpression(culture) == Ok(Not(e));
      FindAllMeaning(e, s.rawData, culture);
      FindAllMeaning(Not(e), s.rawData, culture);
      var r := s.RawDataFiltered(culture);
      var q := s.RawDataFilteredIntended(culture);
      assert r == FindAll(e, s.rawData, culture);
      assert q == FindAll(Not(e), s.rawData, culture);
      if r.Ok? {
        PassingComplement(e, s.rawData, culture);
        forall x | x in r.value ensures x !in q.value {
          assert IsSatisfiedBy(e, x, culture) == Ok(true);
        }
      }
    }
  }
}
