/** The grid component: its state (`data`, `collapsed`, `loading`), the
    transitions that change it, and a render that walks the groups with a
    mutable row counter the way the component's JSX does. */
module GridApp {
  import opened Records
  import opened Grouping
  import opened SpService
  import opened Layout

  /** The component's properties that the render and the fetch read. */
  datatype Props = Props(
    title: string,
    list: string,
    fields: seq<SelectedField>,
    fullWidth: string,
    orderBy: string,
    footer: string,
    collapsed: bool)

  /** The last row: the footer markup across the full width. */
  function FooterRow(footer: string, counter: nat): Row
  {
    Flat(Tone(counter), [Cell(100.0, Markup(footer))])
  }

  /** The rows between the header and the footer, with the counter after
      them: the loading row while loading (the counter stays at 1),
      otherwise the data rows counted from 1. */
  function Body(fields: seq<SelectedField>, fullWidth: string, loading: bool, data: seq<seq<Record>>): Plan
    requires Renderable(fields, fullWidth, data)
  {
    if loading then Plan([LoadingRow], 1) else DataPlan(fields, fullWidth, data, 1)
  }

  /** The footer row, when a footer is configured. */
  function Footer(footer: string, counter: nat): seq<Row>
  {
    if footer != "" then [FooterRow(footer, counter)] else []
  }

  /** Everything the component renders for a given state. */
  function View(props: Props, collapsed: bool, loading: bool, data: seq<seq<Record>>): seq<Row>
    requires Renderable(DisplayOrder(props.fields), props.fullWidth, data)
  {
    var fields := DisplayOrder(props.fields);
    if collapsed then [TitleBar(props.title, true)]
    else
      var body := Body(fields, props.fullWidth, loading, data);
      [TitleBar(props.title, false), HeaderRow(HeaderCells(fields))] + body.rows + Footer(props.footer, body.next)
  }

  /** The rows of one group, computed with the component's row counter:
      read and incremented for every coloured row, and decremented once
      before the first inner row of a group. */
  method PlanGroup(fields: seq<SelectedField>, fullWidth: string, group: seq<Record>, counter: nat)
    returns (rows: seq<Row>, currentRow: nat)
    requires Renderable(fields, fullWidth, [group])
    ensures GroupPlan(fields, fullWidth, group, counter) == Plan(rows, currentRow)
  {
    assert group in [group];
    currentRow := counter;
    var column := GroupByColumn(fields);
    if column.None? {
      rows := [];
      var j := 0;
      while j < |group|
        invariant 0 <= j <= |group|
        invariant currentRow == counter + j
        invariant rows == seq(j, k requires 0 <= k < j => ItemRow(fields, fullWidth, group[k], counter + k))
      {
        var item := group[j];
        assert item in group;
        var cells := if IsFullWidth(item, fullWidth) then [SpanningCell(fields[0], item)] else FieldCells(fields, item);
        rows := rows + [Flat(Tone(currentRow), cells)];
        currentRow := currentRow + 1;
        j := j + 1;
      }
    } else {
      var col := column.value;
      var outer := Tone(currentRow);
      currentRow := currentRow + 1;
      if IsFullWidth(group[0], fullWidth) {
        rows := [Flat(outer, [SpanningCell(col, group[0])])];
      } else {
        var inner: seq<Line> := [];
        var j := 0;
        while j < |group|
          invariant 0 <= j <= |group|
          invariant currentRow == if j == 0 then counter + 1 else counter + j
          invariant inner == seq(j, k requires 0 <= k < j => Line(Tone(counter + k), InnerCells(fields, col, group[k])))
        {
          if j == 0 {
            currentRow := currentRow - 1;
          }
          inner := inner + [Line(Tone(currentRow), InnerCells(fields, col, group[j]))];
          currentRow := currentRow + 1;
          j := j + 1;
        }
        rows := [Grouped(outer, FieldCell(col, group[0]), 100.0 - col.width, inner)];
      }
    }
  }

  /** The data rows of all groups, the counter carried from group to group. */
  method PlanRows(fields: seq<SelectedField>, fullWidth: string, data: seq<seq<Record>>, start: nat)
    returns (rows: seq<Row>, currentRow: nat)
    requires Renderable(fields, fullWidth, data)
    ensures DataPlan(fields, fullWidth, data, start) == Plan(rows, currentRow)
  {
    rows, currentRow := [], start;
    var i := 0;
    while i < |data|
      invariant 0 <= i <= |data|
      invariant Renderable(fields, fullWidth, data[..i])
      invariant DataPlan(fields, fullWidth, data[..i], start) == Plan(rows, currentRow)
    {
      RenderablePrefix(fields, fullWidth, data, i + 1);
      RenderablePrefix(fields, fullWidth, data, i);
      assert data[..i + 1][..i] == data[..i];
      assert data[..i + 1][i] == data[i];
      var groupRows;
      groupRows, currentRow := PlanGroup(fields, fullWidth, data[i], currentRow);
      rows := rows + groupRows;
      i := i + 1;
    }
    assert data[..|data|] == data;
  }

  class App {
    const props: Props
    var data: seq<seq<Record>>
    var collapsed: bool
    var loading: bool

    /** The groups held are those the service returns, so none is empty. */
    ghost predicate Valid()
      reads this
    {
      forall g :: g in data ==> g != []
    }

    /** Mount: no data yet, loading, collapsed as configured. */
    constructor (props: Props)
      ensures Valid()
      ensures this.props == props && data == [] && collapsed == props.collapsed && loading
    {
      this.props := props;
      data := [];
      collapsed := props.collapsed;
      loading := true;
    }

    /** The collapse button flips `collapsed` and nothing else. */
    method ToggleCollapsed()
      requires Valid()
      modifies this`collapsed
      ensures Valid()
      ensures collapsed == !old(collapsed) && data == old(data) && loading == old(loading)
    {
      collapsed := !collapsed;
    }

    /** The one fetch after mount settles. `select` is the key list the
        request asks for: the columns in configuration order, then the group-by
        key of the last grouping column of the unsorted configuration. `response`
        is what the list returned (`None` when the request threw); on success
        the grouped items replace `data`, on failure `data` keeps its value;
        either way loading ends. */
    method FetchSettled<K(==,!new)>(response: Option<seq<Record>>, groupKey: Record -> K, keyOrder: seq<K>)
      returns (select: seq<string>)
      requires Valid() && loading
      requires response.Some? ==> IsEnumerationOrder(response.value, groupKey, keyOrder)
      modifies this`data, this`loading
      ensures select == SelectList(props.fields, FetchGroupKey(props.fields), props.orderBy, props.fullWidth)
      ensures Valid() && !loading && collapsed == old(collapsed)
      ensures data == if response.Some? then Groups(response.value, groupKey) else old(data)
    {
      var items := if response.Some? then response.value else [];
      var groups;
      select, groups := GetItems(props.fields, FetchGroupKey(props.fields), props.orderBy, props.fullWidth,
                                 items, groupKey, if response.Some? then keyOrder else []);
      if response.Some? {
        GroupsNonEmpty(response.value, groupKey);
        data := groups;
      }
      loading := false;
    }

    /** The two cases in which a render would throw or divide by zero are
        absent: the grouping column is narrower than 100%, and no item is
        flagged full-width while no column is configured. */
    ghost predicate RenderDefined()
      reads this
    {
      (GroupByColumn(DisplayOrder(props.fields)).Some? ==> GroupByColumn(DisplayOrder(props.fields)).value.width != 100.0)
      && (props.fields == [] ==> forall g, item :: g in data && item in g ==> !IsFullWidth(item, props.fullWidth))
    }

    /** One render of the current state. */
    method Render() returns (view: seq<Row>)
      requires Valid() && RenderDefined()
      ensures Renderable(DisplayOrder(props.fields), props.fullWidth, data)
      ensures view == View(props, collapsed, loading, data)
    {
      var fields := DisplayOrder(props.fields);
      StateRenderable(props.fields, props.fullWidth, data);
      if collapsed {
        view := [TitleBar(props.title, true)];
      } else {
        view := [TitleBar(props.title, false), HeaderRow(HeaderCells(fields))];
        var rows, currentRow;
        if loading {
          rows, currentRow := [LoadingRow], 1;
        } else {
          rows, currentRow := PlanRows(fields, props.fullWidth, data, 1);
        }
        view := view + rows;
        if props.footer != "" {
          view := view + [FooterRow(props.footer, currentRow)];
          currentRow := currentRow + 1;
        }
      }
    }
  }

  /** The groups the component holds are non-empty, so a render is defined
      whenever the configuration avoids the two failing cases. */
  lemma StateRenderable(configured: seq<SelectedField>, fullWidth: string, data: seq<seq<Record>>)
    requires forall g :: g in data ==> g != []
    requires GroupByColumn(DisplayOrder(configured)).Some? ==> GroupByColumn(DisplayOrder(configured)).value.width != 100.0
    requires configured == [] ==> forall g, item :: g in data && item in g ==> !IsFullWidth(item, fullWidth)
    ensures Renderable(DisplayOrder(configured), fullWidth, data)
  {
    DisplayOrderLaws(configured);
    if DisplayOrder(configured) == [] {
      assert |multiset(configured)| == 0;
    }
  }

  // ---------------------------------------------------------------------
  // Properties of a render

  /** Collapsed, the component shows the title bar and nothing else;
      expanded, it shows the column headers under the title bar. */
  lemma CollapsedShowsOnlyTitle(props: Props, collapsed: bool, loading: bool, data: seq<seq<Record>>)
    requires Renderable(DisplayOrder(props.fields), props.fullWidth, data)
    ensures var view := View(props, collapsed, loading, data);
      |view| >= 1 && view[0] == TitleBar(props.title, collapsed)
      && (collapsed <==> |view| == 1)
      && (!collapsed ==> view[1] == HeaderRow(HeaderCells(DisplayOrder(props.fields))))
  {
  }

  /** The loading row shows exactly while the fetch is pending and the grid
      is expanded, and then the only other rows are the title bar, the headers
      and the footer. */
  lemma LoadingRowWhileLoading(props: Props, collapsed: bool, loading: bool, data: seq<seq<Record>>)
    requires Renderable(DisplayOrder(props.fields), props.fullWidth, data)
    ensures var view := View(props, collapsed, loading, data);
      (LoadingRow in view <==> !collapsed && loading)
      && (!collapsed && loading ==> view[2] == LoadingRow && |view| == 3 + |Footer(props.footer, 1)|)
  {
    var view := View(props, collapsed, loading, data);
    var fields := DisplayOrder(props.fields);
    if !collapsed && !loading {
      var body := Body(fields, props.fullWidth, loading, data);
      NoLoadingRow(fields, props.fullWidth, data, 1);
      assert view == [TitleBar(props.title, false), HeaderRow(HeaderCells(fields))] + body.rows + Footer(props.footer, body.next);
      assert LoadingRow !in Footer(props.footer, body.next);
    }
  }

  /** No data row is a loading row. */
  lemma {:induction false} NoLoadingRow(fields: seq<SelectedField>, fullWidth: string, data: seq<seq<Record>>, counter: nat)
    requires Renderable(fields, fullWidth, data)
    ensures LoadingRow !in DataPlan(fields, fullWidth, data, counter).rows
  {
    if data != [] {
      var n := |data| - 1;
      var before, last := DataPlanSplit(fields, fullWidth, data, counter);
      NoLoadingRow(fields, fullWidth, data[..n], counter);
      assert forall r :: r in last.rows ==> r.Flat? || r.Grouped?;
    }
  }

  /** Expanded, a footer row follows the body exactly when a footer is
      configured: a 100% cell with the footer markup, in the colour of the
      counter the body left. */
  lemma FooterComesLast(props: Props, collapsed: bool, loading: bool, data: seq<seq<Record>>)
    requires Renderable(DisplayOrder(props.fields), props.fullWidth, data)
    requires !collapsed
    ensures var view := View(props, collapsed, loading, data);
      var body := Body(DisplayOrder(props.fields), props.fullWidth, loading, data);
      |view| == 2 + |body.rows| + (if props.footer != "" then 1 else 0)
      && (props.footer != "" ==> view[|view| - 1] == Flat(Tone(body.next), [Cell(100.0, Markup(props.footer))]))
  {
  }

  /** The body's colours alternate from 1, and the counter after it is one
      past the last colour index used. */
  lemma BodyTones(fields: seq<SelectedField>, fullWidth: string, loading: bool, data: seq<seq<Record>>)
    requires Renderable(fields, fullWidth, data)
    ensures var body := Body(fields, fullWidth, loading, data);
            body.next >= 1 && Tones(body.rows) == Alternating(1, body.next - 1)
  {
    if !loading {
      DataPlanAlternates(fields, fullWidth, data, 1);
    } else {
      assert Tones([LoadingRow]) == RowTones(LoadingRow) + Tones([]);
    }
  }

  /** The title bar and the header row carry no colour. */
  lemma HeadTones(head: seq<Row>, rows: seq<Row>)
    requires |head| == 2 && head[0].TitleBar? && head[1].HeaderRow?
    ensures Tones(head + rows) == Tones(rows)
  {
    TonesConcat(head, rows);
    assert Tones(head) == RowTones(head[0]) + Tones(head[1..]);
    assert Tones(head[1..]) == RowTones(head[1]) + Tones(head[2..]);
  }

  /** The footer takes the colour of the counter it is rendered at. */
  lemma FooterTones(footer: string, counter: nat)
    ensures Tones(Footer(footer, counter)) == Alternating(counter, |Footer(footer, counter)|)
  {
    var f := Footer(footer, counter);
    if footer != "" {
      assert Tones(f) == RowTones(f[0]) + Tones(f[1..]);
    } else {
      assert Tones(f) == [];
    }
  }

  /** An expanded render's colours: none for the title bar and headers, the
      body's alternation, then the rows after it continuing that alternation. */
  lemma ExpandedTones(head: seq<Row>, rows: seq<Row>, tail: seq<Row>, n: nat)
    requires |head| == 2 && head[0].TitleBar? && head[1].HeaderRow?
    requires Tones(rows) == Alternating(1, n) && Tones(tail) == Alternating(1 + n, |tail|)
    ensures Tones(head + rows + tail) == Alternating(1, n + |tail|)
  {
    assert head + rows + tail == head + (rows + tail);
    HeadTones(head, rows + tail);
    ContinuedTones(rows, tail, n, |tail|);
  }

  /** Rows alternating from 1 followed by rows alternating from where they
      stopped alternate together. */
  lemma ContinuedTones(rows: seq<Row>, tail: seq<Row>, n: nat, m: nat)
    requires Tones(rows) == Alternating(1, n) && Tones(tail) == Alternating(1 + n, m)
    ensures Tones(rows + tail) == Alternating(1, n + m)
  {
    TonesConcat(rows, tail);
    AlternatingConcat(1, n, m);
  }

  /** Every coloured row of a render, the footer included, takes the next
      colour in an alternation that starts from index 1: no two consecutive
      coloured rows share a colour. */
  lemma ViewColoursAlternate(props: Props, collapsed: bool, loading: bool, data: seq<seq<Record>>)
    requires Renderable(DisplayOrder(props.fields), props.fullWidth, data)
    ensures var tones := Tones(View(props, collapsed, loading, data));
      tones == Alternating(1, |tones|)
  {
    var view := View(props, collapsed, loading, data);
    var fields := DisplayOrder(props.fields);
    if collapsed {
      assert Tones(view) == RowTones(view[0]) + Tones([]);
    } else {
      var body := Body(fields, props.fullWidth, loading, data);
      BodyTones(fields, props.fullWidth, loading, data);
      var head := [TitleBar(props.title, false), HeaderRow(HeaderCells(fields))];
      var tail := Footer(props.footer, body.next);
      assert view == head + body.rows + tail;
      FooterTones(props.footer, body.next);
      ExpandedTones(head, body.rows, tail, body.next - 1);
    }
  }
}
