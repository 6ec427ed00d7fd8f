/** The pure part of the grid component: the display order of the columns,
    the choice of the group-by column, and the rows a render produces, as an
    abstract plan (rows of percentage-width cells with a colour index) rather
    than HTML. The specification functions here thread the component's row
    counter explicitly; `GridApp.PlanRows` computes the same plan with the
    counter as a mutable variable. */
module Layout {
  import opened Records
  import opened Sorting
  import opened Grouping

  // ---------------------------------------------------------------------
  // Column order and the group-by column

  function SortIdx(f: SelectedField): int
  {
    f.sortIdx
  }

  /** `sortBy(props.fields, x => x.sortIdx)`. */
  function DisplayOrder(fields: seq<SelectedField>): seq<SelectedField>
  {
    SortBy(fields, SortIdx)
  }

  /** The displayed columns are the configured ones, ascending by `sortIdx`,
      columns with equal `sortIdx` in configuration order; sorting again
      changes nothing. */
  lemma DisplayOrderLaws(fields: seq<SelectedField>)
    ensures multiset(DisplayOrder(fields)) == multiset(fields)
    ensures Sorted(DisplayOrder(fields), SortIdx)
    ensures forall v :: WithKey(DisplayOrder(fields), SortIdx, v) == WithKey(fields, SortIdx, v)
    ensures DisplayOrder(DisplayOrder(fields)) == DisplayOrder(fields)
  {
    forall v ensures WithKey(DisplayOrder(fields), SortIdx, v) == WithKey(fields, SortIdx, v) {
      SortByStable(fields, SortIdx, v);
    }
    SortByIdempotent(fields, SortIdx);
  }

  /** Index of the last column with a non-empty group-by key, or -1. */
  function LastGroupingIndex(fields: seq<SelectedField>): (i: int)
    ensures -1 <= i < |fields|
    ensures i == -1 <==> forall j :: 0 <= j < |fields| ==> fields[j].groupByField == ""
    ensures 0 <= i ==> fields[i].groupByField != "" && forall j :: i < j < |fields| ==> fields[j].groupByField == ""
  {
    if fields == [] then -1
    else
      var n := |fields| - 1;
      if fields[n].groupByField != "" then n
      else
        assert forall j :: 0 <= j < n ==> fields[..n][j] == fields[j];
        LastGroupingIndex(fields[..n])
  }

  /** `fields.filter(x => !!x.groupByField).pop()`: the LAST column with a
      non-empty group-by key. */
  function GroupByColumn(fields: seq<SelectedField>): (c: Option<SelectedField>)
    ensures c.None? <==> forall i :: 0 <= i < |fields| ==> fields[i].groupByField == ""
    ensures c.Some? ==> exists i :: 0 <= i < |fields| && fields[i] == c.value && c.value.groupByField != ""
                          && forall j :: i < j < |fields| ==> fields[j].groupByField == ""
  {
    var i := LastGroupingIndex(fields);
    if i < 0 then None else Some(fields[i])
  }

  /** The group-by key the component hands to the service: chosen from the
      configured (unsorted) columns. Empty when no column groups. */
  function FetchGroupKey(fields: seq<SelectedField>): string
  {
    match GroupByColumn(fields)
    case Some(c) => c.groupByField
    case None => ""
  }

  /** At most one distinct column carries a group-by key. */
  predicate SingleGroupByColumn(fields: seq<SelectedField>)
  {
    forall i, j ::
      (0 <= i < |fields| && 0 <= j < |fields| && fields[i].groupByField != "" && fields[j].groupByField != "")
      ==> fields[i] == fields[j]
  }

  /** With a single group-by column, the column the render labels groups with
      is the one whose key the fetch grouped by. */
  lemma FetchAndRenderAgree(fields: seq<SelectedField>)
    requires SingleGroupByColumn(fields)
    ensures GroupByColumn(DisplayOrder(fields)) == GroupByColumn(fields)
    ensures GroupByColumn(DisplayOrder(fields)).Some? ==>
              GroupByColumn(DisplayOrder(fields)).value.groupByField == FetchGroupKey(fields)
  {
    var sorted := DisplayOrder(fields);
    DisplayOrderLaws(fields);
    match GroupByColumn(fields)
    case Some(c) =>
      var i :| 0 <= i < |fields| && fields[i] == c && c.groupByField != "";
      assert c in multiset(sorted);
      var k :| 0 <= k < |sorted| && sorted[k] == c;
      var d := GroupByColumn(sorted).value;
      var m :| 0 <= m < |sorted| && sorted[m] == d && d.groupByField != "";
      assert d in multiset(fields);
      var p :| 0 <= p < |fields| && fields[p] == d;
    case None =>
      forall k | 0 <= k < |sorted| ensures sorted[k].groupByField == "" {
        assert sorted[k] in multiset(fields);
      }
  }

  /** With two group-by columns whose `sortIdx` order differs from their
      configured order, the fetch groups by one column's key while the render
      labels the groups with the other column. */
  lemma FetchAndRenderCanDisagree()
    ensures var first := SelectedField("Region", "Region", "Region", 30.0, 2);
            var second := SelectedField("Team", "Team", "Team", 30.0, 1);
            var fields := [first, second];
            FetchGroupKey(fields) == "Team" && GroupByColumn(DisplayOrder(fields)) == Some(first)
  {
    var first := SelectedField("Region", "Region", "Region", 30.0, 2);
    var second := SelectedField("Team", "Team", "Team", 30.0, 1);
    assert DisplayOrder([first, second]) == [second, first];
  }

  // ---------------------------------------------------------------------
  // Rendered rows

  /** What a cell shows: an item's value under a key (injected as HTML), the
      footer's markup, a column title, or the loading spinner. */
  datatype Content = FieldValue(key: string, value: Value) | Markup(html: string) | Caption(text: string) | Spinner

  datatype Cell = Cell(width: real, content: Content)

  /** An inner row of a group. */
  datatype Line = Line(color: nat, cells: seq<Cell>)

  /** `color` is the index into the two-tone palette. */
  datatype Row =
    | TitleBar(title: string, collapsed: bool)
    | HeaderRow(cells: seq<Cell>)
    | LoadingRow
    | Flat(color: nat, cells: seq<Cell>)
    | Grouped(color: nat, name: Cell, bodyWidth: real, inner: seq<Line>)

  /** `colors[currentRow % 2]`. */
  function Tone(counter: nat): nat
  {
    counter % 2
  }

  function HeaderCells(fields: seq<SelectedField>): seq<Cell>
  {
    seq(|fields|, i requires 0 <= i < |fields| => Cell(fields[i].width, Caption(fields[i].title)))
  }

  function FieldCell(f: SelectedField, item: Record): Cell
  {
    Cell(f.width, FieldValue(f.field, Lookup(item, f.field)))
  }

  function FieldCells(fields: seq<SelectedField>, item: Record): seq<Cell>
  {
    seq(|fields|, i requires 0 <= i < |fields| => FieldCell(fields[i], item))
  }

  /** One 100% cell showing `item`'s value for column `f`. */
  function SpanningCell(f: SelectedField, item: Record): Cell
  {
    Cell(100.0, FieldValue(f.field, Lookup(item, f.field)))
  }

  /** `!!props.fullWidth && item[props.fullWidth]`. */
  predicate IsFullWidth(item: Record, fullWidth: string)
  {
    fullWidth != "" && Truthy(Lookup(item, fullWidth))
  }

  /** The row of one item when no column groups. */
  function ItemRow(fields: seq<SelectedField>, fullWidth: string, item: Record, counter: nat): Row
    requires fields != [] || !IsFullWidth(item, fullWidth)
  {
    Flat(Tone(counter), if IsFullWidth(item, fullWidth) then [SpanningCell(fields[0], item)] else FieldCells(fields, item))
  }

  /** `fields.filter(x => x.field !== groupByField.field)`. */
  function InnerFields(fields: seq<SelectedField>, column: SelectedField): (inner: seq<SelectedField>)
    ensures forall f :: f in inner <==> f in fields && f.field != column.field
  {
    if fields == [] then []
    else
      var n := |fields| - 1;
      assert fields == fields[..n] + [fields[n]];
      InnerFields(fields[..n], column) + (if fields[n].field != column.field then [fields[n]] else [])
  }

  /** Every column whose key differs from the group column's is an inner
      column as often as it is configured; the others not at all. */
  lemma {:induction false} InnerFieldsCount(fields: seq<SelectedField>, column: SelectedField)
    ensures forall f :: multiset(InnerFields(fields, column))[f]
                     == if f.field != column.field then multiset(fields)[f] else 0
  {
    if fields != [] {
      var n := |fields| - 1;
      InnerFieldsCount(fields[..n], column);
      assert fields == fields[..n] + [fields[n]];
    }
  }

  /** The inner columns keep the display order of the columns. */
  lemma {:induction false} InnerFieldsKeepOrder(fields: seq<SelectedField>, column: SelectedField)
    ensures IsSubsequence(InnerFields(fields, column), fields)
  {
    if fields != [] {
      var n := |fields| - 1;
      var prev := InnerFields(fields[..n], column);
      InnerFieldsKeepOrder(fields[..n], column);
      if fields[n].field != column.field {
        assert (prev + [fields[n]])[..|prev|] == prev;
      } else if prev != [] {
        var last := prev[|prev| - 1];
        assert last in prev;
        assert last != fields[n];
        assert InnerFields(fields, column) == prev;
      }
    }
  }

  /** Cells of the inner columns, each widened by `100 / spare`. */
  function Rescaled(inner: seq<SelectedField>, spare: real, item: Record): seq<Cell>
    requires spare != 0.0
  {
    if inner == [] then []
    else [Cell(inner[0].width * 100.0 / spare, FieldValue(inner[0].field, Lookup(item, inner[0].field)))]
         + Rescaled(inner[1..], spare, item)
  }

  /** The cells of one inner row of a group. */
  function InnerCells(fields: seq<SelectedField>, column: SelectedField, item: Record): seq<Cell>
    requires column.width != 100.0
  {
    Rescaled(InnerFields(fields, column), 100.0 - column.width, item)
  }

  function TotalWidth(cells: seq<Cell>): real
  {
    if cells == [] then 0.0 else cells[0].width + TotalWidth(cells[1..])
  }

  function ConfiguredWidth(fields: seq<SelectedField>): real
  {
    if fields == [] then 0.0 else fields[0].width + ConfiguredWidth(fields[1..])
  }

  /** An inner row shows every non-group-by column, in display order, at its
      configured width times `100 / (100 - column.width)`, and never the
      group-by column's key. */
  lemma {:induction false} RescaledLayout(inner: seq<SelectedField>, spare: real, item: Record)
    requires spare != 0.0
    ensures |Rescaled(inner, spare, item)| == |inner|
    ensures forall i :: 0 <= i < |inner| ==>
              Rescaled(inner, spare, item)[i]
                == Cell(inner[i].width * 100.0 / spare, FieldValue(inner[i].field, Lookup(item, inner[i].field)))
  {
    if inner != [] {
      RescaledLayout(inner[1..], spare, item);
    }
  }

  lemma InnerCellsOmitGroupColumn(fields: seq<SelectedField>, column: SelectedField, item: Record)
    requires column.width != 100.0
    ensures forall c :: c in InnerCells(fields, column, item) ==> c.content.FieldValue? && c.content.key != column.field
  {
    var inner := InnerFields(fields, column);
    RescaledLayout(inner, 100.0 - column.width, item);
    forall c | c in InnerCells(fields, column, item)
      ensures c.content.FieldValue? && c.content.key != column.field
    {
      var i :| 0 <= i < |inner| && InnerCells(fields, column, item)[i] == c;
      assert inner[i] in inner;
    }
  }

  /** The inner cells are the inner columns' widths scaled by the same factor
      `100 / spare`. */
  lemma {:induction false} RescaledTotal(inner: seq<SelectedField>, spare: real, item: Record)
    requires spare != 0.0
    ensures TotalWidth(Rescaled(inner, spare, item)) == ConfiguredWidth(inner) * 100.0 / spare
  {
    if inner != [] {
      var rest := Rescaled(inner[1..], spare, item);
      RescaledTotal(inner[1..], spare, item);
      var w := inner[0].width * 100.0 / spare;
      assert ([Cell(w, FieldValue(inner[0].field, Lookup(item, inner[0].field)))] + rest)[1..] == rest;
      assert TotalWidth(Rescaled(inner, spare, item)) == w + TotalWidth(rest);
      DivisionDistributes(inner[0].width * 100.0, ConfiguredWidth(inner[1..]) * 100.0, spare);
    }
  }

  lemma DivisionDistributes(x: real, y: real, d: real)
    requires d != 0.0
    ensures x / d + y / d == (x + y) / d
  {
  }

  /** The inner cells fill the group body exactly when the inner columns'
      configured widths add up to the body's width `100 - column.width`. */
  lemma InnerRowFillsBody(fields: seq<SelectedField>, column: SelectedField, item: Record)
    requires column.width != 100.0
    ensures TotalWidth(InnerCells(fields, column, item)) == 100.0
        <==> ConfiguredWidth(InnerFields(fields, column)) == 100.0 - column.width
  {
    var spare := 100.0 - column.width;
    RescaledTotal(InnerFields(fields, column), spare, item);
    ScaledToHundred(ConfiguredWidth(InnerFields(fields, column)), spare);
  }

  /** Scaling `c` by `100 / spare` gives 100 exactly when `c` is `spare`. */
  lemma ScaledToHundred(c: real, spare: real)
    requires spare != 0.0
    ensures c * 100.0 / spare == 100.0 <==> c == spare
  {
    if c * 100.0 / spare == 100.0 {
      assert c * 100.0 == 100.0 * spare;
    }
    if c == spare {
      CancelDivision(100.0, spare);
    }
  }

  lemma CancelDivision(x: real, d: real)
    requires d != 0.0
    ensures d * x / d == x
  {
  }

  // ---------------------------------------------------------------------
  // The plan of the data rows

  /** Rows produced so far and the value of the row counter afterwards. */
  datatype Plan = Plan(rows: seq<Row>, next: nat)

  /** What the render relies on: groups are non-empty and the group-by column
      is narrower than 100% when a column groups; when no column is configured
      no item is flagged full-width (the source would read `fields[0]`). */
  predicate Renderable(fields: seq<SelectedField>, fullWidth: string, data: seq<seq<Record>>)
  {
    (GroupByColumn(fields).Some? ==>
       GroupByColumn(fields).value.width != 100.0 && forall g :: g in data ==> g != [])
    && (fields == [] ==> forall g, item :: g in data && item in g ==> !IsFullWidth(item, fullWidth))
  }

  /** The rows of one group, starting with row counter `counter`. */
  function GroupPlan(fields: seq<SelectedField>, fullWidth: string, group: seq<Record>, counter: nat): Plan
    requires Renderable(fields, fullWidth, [group])
  {
    match GroupByColumn(fields)
    case None =>
      assert forall j :: 0 <= j < |group| ==> group[j] in group;
      Plan(seq(|group|, j requires 0 <= j < |group| => ItemRow(fields, fullWidth, group[j], counter + j)),
           counter + |group|)
    case Some(column) =>
      assert group in [group];
      if IsFullWidth(group[0], fullWidth) then
        Plan([Flat(Tone(counter), [SpanningCell(column, group[0])])], counter + 1)
      else
        Plan([Grouped(Tone(counter), FieldCell(column, group[0]), 100.0 - column.width,
                      seq(|group|, j requires 0 <= j < |group| =>
                            Line(Tone(counter + j), InnerCells(fields, column, group[j]))))],
             counter + |group|)
  }

  lemma RenderablePrefix(fields: seq<SelectedField>, fullWidth: string, data: seq<seq<Record>>, n: nat)
    requires Renderable(fields, fullWidth, data) && n <= |data|
    ensures Renderable(fields, fullWidth, data[..n])
    ensures n < |data| ==> Renderable(fields, fullWidth, [data[n]])
  {
    assert forall g :: g in data[..n] ==> g in data;
    if n < |data| {
      assert data[n] in data;
    }
  }

  /** The rows of all groups, in order, starting with row counter `counter`. */
  function DataPlan(fields: seq<SelectedField>, fullWidth: string, data: seq<seq<Record>>, counter: nat): Plan
    requires Renderable(fields, fullWidth, data)
  {
    if data == [] then Plan([], counter)
    else
      var n := |data| - 1;
      RenderablePrefix(fields, fullWidth, data, n);
      var before := DataPlan(fields, fullWidth, data[..n], counter);
      var last := GroupPlan(fields, fullWidth, data[n], before.next);
      Plan(before.rows + last.rows, last.next)
  }

  // ---------------------------------------------------------------------
  // Row colours

  /** The colour of every visually distinct coloured row: a flat row has one;
      a group row shares its colour with its first inner row, so it
      contributes the colours of its inner rows. */
  function Tones(rows: seq<Row>): seq<nat>
  {
    if rows == [] then [] else RowTones(rows[0]) + Tones(rows[1..])
  }

  function RowTones(r: Row): seq<nat>
  {
    match r
    case Flat(c, _) => [c]
    case Grouped(_, _, _, inner) => seq(|inner|, i requires 0 <= i < |inner| => inner[i].color)
    case _ => []
  }

  /** `n` colours alternating from counter value `start`. */
  function Alternating(start: nat, n: nat): seq<nat>
  {
    var tones := seq(n, (i: nat) requires i < n => Tone(start + i));
    assert forall i :: 0 <= i < n ==> tones[i] == Tone(start + i) >= 0;
    tones
  }

  lemma {:induction false} TonesConcat(a: seq<Row>, b: seq<Row>)
    ensures Tones(a + b) == Tones(a) + Tones(b)
  {
    if a == [] {
      assert a + b == b;
    } else {
      assert (a + b)[0] == a[0];
      assert (a + b)[1..] == a[1..] + b;
      TonesConcat(a[1..], b);
      calc {
        Tones(a + b);
        RowTones(a[0]) + Tones(a[1..] + b);
        RowTones(a[0]) + (Tones(a[1..]) + Tones(b));
        (RowTones(a[0]) + Tones(a[1..])) + Tones(b);
      }
    }
  }

  lemma AlternatingConcat(start: nat, n: nat, m: nat)
    ensures Alternating(start, n) + Alternating(start + n, m) == Alternating(start, n + m)
  {
    var a, b := Alternating(start, n), Alternating(start + n, m);
    forall i | 0 <= i < n + m ensures (a + b)[i] == Tone(start + i) {
      if i >= n {
        assert (a + b)[i] == b[i - n];
      }
    }
  }

  lemma {:induction false} FlatTones(rows: seq<Row>)
    requires forall i :: 0 <= i < |rows| ==> rows[i].Flat?
    ensures Tones(rows) == seq(|rows|, i requires 0 <= i < |rows| => rows[i].color)
  {
    if rows != [] {
      FlatTones(rows[1..]);
    }
  }

  lemma GroupPlanTones(fields: seq<SelectedField>, fullWidth: string, group: seq<Record>, counter: nat)
    requires Renderable(fields, fullWidth, [group])
    ensures GroupPlan(fields, fullWidth, group, counter).next >= counter
    ensures Tones(GroupPlan(fields, fullWidth, group, counter).rows)
         == Alternating(counter, GroupPlan(fields, fullWidth, group, counter).next - counter)
  {
    var p := GroupPlan(fields, fullWidth, group, counter);
    if GroupByColumn(fields).None? {
      FlatTones(p.rows);
    } else {
      assert p.rows[1..] == [];
    }
  }

  /** The coloured rows alternate in colour, one step per visually distinct
      row, and the counter ends advanced by exactly the number of such rows. */
  lemma {:induction false} DataPlanAlternates(fields: seq<SelectedField>, fullWidth: string, data: seq<seq<Record>>, counter: nat)
    requires Renderable(fields, fullWidth, data)
    ensures DataPlan(fields, fullWidth, data, counter).next >= counter
    ensures Tones(DataPlan(fields, fullWidth, data, counter).rows)
         == Alternating(counter, DataPlan(fields, fullWidth, data, counter).next - counter)
  {
    if data != [] {
      var n := |data| - 1;
      var before, last := DataPlanSplit(fields, fullWidth, data, counter);
      DataPlanAlternates(fields, fullWidth, data[..n], counter);
      GroupPlanTones(fields, fullWidth, data[n], before.next);
      ChainAlternates(before, last, counter);
    }
  }

  /** The plan of all groups is the plan of all but the last, followed by
      the last group's plan, which starts at the counter the others left. */
  lemma DataPlanSplit(fields: seq<SelectedField>, fullWidth: string, data: seq<seq<Record>>, counter: nat)
      returns (before: Plan, last: Plan)
    requires Renderable(fields, fullWidth, data) && data != []
    ensures Renderable(fields, fullWidth, data[..|data| - 1]) && Renderable(fields, fullWidth, [data[|data| - 1]])
    ensures before == DataPlan(fields, fullWidth, data[..|data| - 1], counter)
    ensures last == GroupPlan(fields, fullWidth, data[|data| - 1], before.next)
    ensures DataPlan(fields, fullWidth, data, counter) == Plan(before.rows + last.rows, last.next)
  {
    var n := |data| - 1;
    RenderablePrefix(fields, fullWidth, data, n);
    before := DataPlan(fields, fullWidth, data[..n], counter);
    last := GroupPlan(fields, fullWidth, data[n], before.next);
  }

  /** Two plans whose colours each alternate from their starting counter,
      the second starting where the first ended, alternate together. */
  lemma ChainAlternates(before: Plan, last: Plan, counter: nat)
    requires before.next >= counter && Tones(before.rows) == Alternating(counter, before.next - counter)
    requires last.next >= before.next && Tones(last.rows) == Alternating(before.next, last.next - before.next)
    ensures last.next >= counter
    ensures Tones(before.rows + last.rows) == Alternating(counter, last.next - counter)
  {
    var n, m := before.next - counter, last.next - before.next;
    TonesConcat(before.rows, last.rows);
    AlternatingConcat(counter, n, m);
    assert counter + n == before.next && n + m == last.next - counter;
  }

  /** In grouped mode a group's first inner row takes the colour of the group
      row, and the name cell and the body together span 100%. */
  lemma {:induction false} GroupRowsShareFirstTone(fields: seq<SelectedField>, fullWidth: string, data: seq<seq<Record>>, counter: nat)
    requires Renderable(fields, fullWidth, data)
    ensures forall r :: r in DataPlan(fields, fullWidth, data, counter).rows && r.Grouped? ==>
              r.inner != [] && r.inner[0].color == r.color && r.name.width + r.bodyWidth == 100.0
  {
    if data != [] {
      var n := |data| - 1;
      var before, last := DataPlanSplit(fields, fullWidth, data, counter);
      GroupRowsShareFirstTone(fields, fullWidth, data[..n], counter);
      GroupRowShareFirstTone(fields, fullWidth, data[n], before.next);
    }
  }

  lemma GroupRowShareFirstTone(fields: seq<SelectedField>, fullWidth: string, group: seq<Record>, counter: nat)
    requires Renderable(fields, fullWidth, [group])
    ensures forall r :: r in GroupPlan(fields, fullWidth, group, counter).rows && r.Grouped? ==>
              r.inner != [] && r.inner[0].color == r.color && r.name.width + r.bodyWidth == 100.0
  {
    if GroupByColumn(fields).None? {
      var rows := GroupPlan(fields, fullWidth, group, counter).rows;
      forall r | r in rows ensures r.Flat? {
        var j :| 0 <= j < |rows| && rows[j] == r;
      }
    } else {
      assert group in [group];
    }
  }

  /** Without a group-by column every item of every group is its own row, in
      order, coloured by consecutive counter values. */
  lemma {:induction false} UngroupedRowsFollowItems(fields: seq<SelectedField>, fullWidth: string, data: seq<seq<Record>>, counter: nat)
    requires Renderable(fields, fullWidth, data) && GroupByColumn(fields).None?
    ensures var p := DataPlan(fields, fullWidth, data, counter);
            var items := Flatten(data);
            |p.rows| == |items| && p.next == counter + |items|
            && forall i :: 0 <= i < |items| ==>
                 (fields != [] || !IsFullWidth(items[i], fullWidth))
                 && p.rows[i] == ItemRow(fields, fullWidth, items[i], counter + i)
  {
    if data != [] {
      var n := |data| - 1;
      RenderablePrefix(fields, fullWidth, data, n);
      UngroupedRowsFollowItems(fields, fullWidth, data[..n], counter);
      assert data == data[..n] + [data[n]];
      FlattenSnoc(data[..n], data[n]);
      var items := Flatten(data);
      var front := Flatten(data[..n]);
      forall i | 0 <= i < |items| ensures fields != [] || !IsFullWidth(items[i], fullWidth) {
        if i >= |front| {
          assert items[i] == data[n][i - |front|];
          assert data[n][i - |front|] in data[n];
          assert data[n] in data;
        }
      }
    }
  }

  /** With a group-by column each group is one row: a single 100% cell with
      the first member's group-by column value when that member is flagged
      full-width, otherwise the name cell (that value, at the column's width) and
      one inner row per member. */
  lemma {:induction false} GroupedRowsFollowGroups(fields: seq<SelectedField>, fullWidth: string, data: seq<seq<Record>>, counter: nat)
    requires Renderable(fields, fullWidth, data) && GroupByColumn(fields).Some?
    ensures var rows := DataPlan(fields, fullWidth, data, counter).rows;
            |rows| == |data|
            && forall i :: 0 <= i < |data| ==> GroupRow(fields, fullWidth, data[i], rows[i])
  {
    if data != [] {
      var n := |data| - 1;
      var before, last := DataPlanSplit(fields, fullWidth, data, counter);
      GroupedRowsFollowGroups(fields, fullWidth, data[..n], counter);
      GroupedRowFollowsGroup(fields, fullWidth, data[n], before.next);
      assert data == data[..n] + [data[n]];
      GroupRowsConcat(fields, fullWidth, data[..n], data[n], before.rows, last.rows);
    }
  }

  /** Appending one group and its one row keeps groups and rows in step. */
  lemma GroupRowsConcat(fields: seq<SelectedField>, fullWidth: string, front: seq<seq<Record>>, group: seq<Record>,
                        before: seq<Row>, last: seq<Row>)
    requires GroupByColumn(fields).Some? && GroupByColumn(fields).value.width != 100.0
    requires |before| == |front| && forall i :: 0 <= i < |front| ==> GroupRow(fields, fullWidth, front[i], before[i])
    requires |last| == 1 && GroupRow(fields, fullWidth, group, last[0])
    ensures |before + last| == |front + [group]|
    ensures forall i :: 0 <= i < |front| + 1 ==> GroupRow(fields, fullWidth, (front + [group])[i], (before + last)[i])
  {
    forall i | 0 <= i < |front| + 1 ensures GroupRow(fields, fullWidth, (front + [group])[i], (before + last)[i]) {
      if i < |front| {
        assert (front + [group])[i] == front[i] && (before + last)[i] == before[i];
      } else {
        assert (front + [group])[i] == group && (before + last)[i] == last[0];
      }
    }
  }

  /** With a group-by column, the row that shows `group`: a single 100% cell
      with the first member's group-by column value when that member is
      flagged full-width, otherwise a grouped row: the name cell (that value,
      at the column's width), a body of `100 - column.width` and one inner
      row per member. */
  predicate GroupRow(fields: seq<SelectedField>, fullWidth: string, group: seq<Record>, r: Row)
    requires GroupByColumn(fields).Some? && GroupByColumn(fields).value.width != 100.0
  {
    var column := GroupByColumn(fields).value;
    group != []
    && (if IsFullWidth(group[0], fullWidth) then r.Flat? else r.Grouped?)
    && (r.Flat? ==> r.cells == [SpanningCell(column, group[0])])
    && (r.Grouped? ==>
          r.name == FieldCell(column, group[0])
          && r.bodyWidth == 100.0 - column.width
          && |r.inner| == |group|
          && forall j :: 0 <= j < |group| ==> r.inner[j].cells == InnerCells(fields, column, group[j]))
  }

  lemma GroupedRowFollowsGroup(fields: seq<SelectedField>, fullWidth: string, group: seq<Record>, counter: nat)
    requires Renderable(fields, fullWidth, [group]) && GroupByColumn(fields).Some?
    ensures var rows := GroupPlan(fields, fullWidth, group, counter).rows;
            |rows| == 1 && GroupRow(fields, fullWidth, group, rows[0])
  {
    assert group in [group];
  }
}
