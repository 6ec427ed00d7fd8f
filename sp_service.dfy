/** The list service's `getItems`: build the `$select` list, fetch the items
    ordered by `orderBy`, group them and put the groups in the order of their
    first members. The REST request itself is not modelled: the items it
    returns, already ordered by the server, are an input. */
module SpService {
  import opened Records
  import opened Sorting
  import opened Grouping

  /** The item key of each configured column, in configuration order. */
  function FieldKeys(fields: seq<SelectedField>): seq<string>
  {
    seq(|fields|, i requires 0 <= i < |fields| => fields[i].field)
  }

  /** An optional key: present only when non-empty (JavaScript truthiness). */
  function IfSet(key: string): seq<string>
  {
    if key != "" then [key] else []
  }

  /** The keys the service asks the list for. */
  function SelectList(fields: seq<SelectedField>, groupByField: string, orderBy: string, fullWidth: string): (select: seq<string>)
  {
    FieldKeys(fields) + IfSet(groupByField) + IfSet(orderBy) + IfSet(fullWidth)
  }

  /** Every configured column key comes first, in order and with repeats; then
      the group-by, order-by and full-width keys, in that order, each only
      when non-empty. */
  lemma SelectListLayout(fields: seq<SelectedField>, groupByField: string, orderBy: string, fullWidth: string)
    ensures var select := SelectList(fields, groupByField, orderBy, fullWidth);
      |select| == |fields| + (if groupByField != "" then 1 else 0)
                           + (if orderBy != "" then 1 else 0)
                           + (if fullWidth != "" then 1 else 0)
      && (forall i :: 0 <= i < |fields| ==> select[i] == fields[i].field)
      && (groupByField != "" ==> select[|fields|] == groupByField)
      && (orderBy != "" ==> select[|fields| + (if groupByField != "" then 1 else 0)] == orderBy)
      && (fullWidth != "" ==> select[|select| - 1] == fullWidth)
      && (forall k :: k in select[|fields|..] ==> k != "" && (k == groupByField || k == orderBy || k == fullWidth))
  {
  }

  /** The group-by, order-by and full-width keys are always fetched when set. */
  lemma SelectListCoversOptionalKeys(fields: seq<SelectedField>, groupByField: string, orderBy: string, fullWidth: string)
    ensures var select := SelectList(fields, groupByField, orderBy, fullWidth);
      (groupByField != "" ==> groupByField in select)
      && (orderBy != "" ==> orderBy in select)
      && (fullWidth != "" ==> fullWidth in select)
      && (forall f :: f in fields ==> f.field in select)
  {
    var select := SelectList(fields, groupByField, orderBy, fullWidth);
    forall f | f in fields ensures f.field in select {
      var i :| 0 <= i < |fields| && fields[i] == f;
      assert select[i] == f.field;
    }
  }

  /** `getItems`. `items` is what the list returns for the select list,
      ordered by `orderBy`; `groupKey` is the key `groupBy` files an item
      under; `keyOrder` is the order in which the engine enumerates the object
      `groupBy` builds. */
  method GetItems<K(==,!new)>(fields: seq<SelectedField>, groupByField: string, orderBy: string, fullWidth: string,
                              items: seq<Record>, groupKey: Record -> K, keyOrder: seq<K>)
    returns (select: seq<string>, groups: seq<seq<Record>>)
    requires IsEnumerationOrder(items, groupKey, keyOrder)
    ensures select == SelectList(fields, groupByField, orderBy, fullWidth)
    ensures groups == Groups(items, groupKey)
  {
    select := FieldKeys(fields);
    if groupByField != "" {
      select := select + [groupByField];
    }
    if orderBy != "" {
      select := select + [orderBy];
    }
    assert select == FieldKeys(fields) + IfSet(groupByField) + IfSet(orderBy);
    if fullWidth != "" {
      select := select + [fullWidth];
    }
    var grouped := GroupsFor(items, groupKey, keyOrder);
    groups := SortBy(grouped, ByFirstMember(items));
    assert groups == GroupAndOrder(items, groupKey, keyOrder);
    GroupByThenSortByRestoresOrder(items, groupKey, keyOrder);
  }
}
