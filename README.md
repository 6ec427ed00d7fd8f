# Patricksgrid: a Dafny model of the grid web part

The grid web part shows the items of one SharePoint list as a table. An
author configures the columns: each column has a title, the item key it
shows, an optional group-by key, a width in percent and a sort index. The
author can also set an order-by key, a "full width" flag key, a footer and
whether the grid starts collapsed.

This project models the two parts of the web part that carry its logic.

- **The list service's `getItems`** (modules `SpService`, `Grouping`,
  `Sorting`). It builds the `$select` key list by appending keys, groups the
  fetched items with lodash `groupBy`, then reorders the groups with lodash
  `sortBy` by the position of each group's first member. The model proves
  that this reordering yields the groups in first-occurrence order. That
  holds in whatever order the JavaScript engine enumerates `groupBy`'s
  object. The model also proves that the groups partition the items, keep
  their fetched order, are non-empty, and lose or duplicate nothing.
- **The grid component `App`** (modules `Layout`, `GridApp`). It sorts the
  columns by `sortIdx`, picks the group-by column, and renders rows. A render
  is modelled as a plan: a sequence of rows whose cells carry a percentage
  width and their content. Each coloured row carries the index into the
  two-colour palette.
  - `Layout.DataPlan` is the reference definition. It threads the row
    counter explicitly.
  - `GridApp.PlanGroup` and `GridApp.PlanRows` compute the same plan the way
    the component does. They keep a mutable `currentRow` that is read and
    incremented for every coloured row, and decremented once before a
    group's first inner row.
  - The class `GridApp.App` holds the component's state (`data`,
    `collapsed`, `loading`). Its methods are the state changes: mount, the
    collapse button, the settling of the one fetch, and a render.

The proved properties of a render:
- Collapsed, only the title bar shows.
- The loading row shows exactly while loading and the grid is expanded.
- The footer comes last when one is set.
- Every coloured row, the footer included, continues one alternation that
  starts at palette index 1.
- In grouped mode a group row and its first inner row share a colour.
- Inner cells are rescaled by `100 / (100 - group column width)`. They fill
  the group body exactly when the inner columns' widths add up to the body's
  width.

Two points about the group-by column, where the code's behaviour is easy to
misread:
- The group-by column is the *last* configured column with a group-by key.
  The code uses `filter(...).pop()` (src/webparts/grid/components/Grid.tsx:25
  and :74). The property pane titles the setting "Group By Field (Only for
  first column)" (src/webparts/grid/GridWebPart.ts:189), but nothing enforces
  that; the model follows the code.
- The fetch takes that column from the *unsorted* configuration. The render
  takes it from the columns sorted by `sortIdx`.
  - `Layout.FetchAndRenderAgree` shows the two agree when only one column
    groups.
  - `Layout.FetchAndRenderCanDisagree` gives two grouping columns for which
    they differ.

## Model

| member | source | states |
|---|---|---|
| Sorting.SortBy | src/webparts/grid/components/Grid.tsx:36 | lodash `sortBy` by a numeric key: the result is a permutation of the input, in ascending key order |
| Sorting.SortByStable | src/webparts/grid/components/Grid.tsx:36 | sorting keeps the input order of elements with equal keys |
| Sorting.SortBySorted | src/webparts/grid/components/Grid.tsx:36 | an input already in key order is returned unchanged |
| Sorting.SortByIdempotent | src/webparts/grid/components/Grid.tsx:36 | sorting a sorted result again changes nothing |
| Grouping.Members | src/webparts/grid/services/spService.ts:44 | one `groupBy` bucket holds exactly the items with its key, and nothing else |
| Grouping.FirstKeys | src/webparts/grid/services/spService.ts:44 | the bucket keys are distinct, and a key has a bucket exactly when some item has that key |
| Grouping.IndexOf | src/webparts/grid/services/spService.ts:45 | `indexOf`: the first index holding the value, or -1 exactly when the value is absent |
| Grouping.GroupsNonEmpty | src/webparts/grid/services/spService.ts:44 | every group is non-empty; there are no groups exactly when there are no items |
| Grouping.GroupsPartitionByKey | src/webparts/grid/services/spService.ts:44 | two items share a group exactly when they share a key |
| Grouping.GroupsKeepOrder | src/webparts/grid/services/spService.ts:43-44 | each group lists its members in the order the server returned them |
| Grouping.GroupsArePermutation | src/webparts/grid/services/spService.ts:44 | the groups together hold every fetched item, each once |
| Grouping.ConstantKeyOneGroup | src/webparts/grid/services/spService.ts:44 | when every item files under the same key, all items form one group, in fetched order |
| Grouping.GroupsInFirstOccurrenceOrder | src/webparts/grid/services/spService.ts:45 | the groups are ordered strictly by the index of their first member among the items |
| Grouping.GroupByThenSortByRestoresOrder | src/webparts/grid/services/spService.ts:44-45 | for any enumeration order of `groupBy`'s object, sorting by first-member index gives the groups in first-occurrence order |
| SpService.SelectListLayout | src/webparts/grid/services/spService.ts:29-41 | the select list is every column key in configuration order, then the group-by, order-by and full-width keys, each only when non-empty |
| SpService.SelectListCoversOptionalKeys | src/webparts/grid/services/spService.ts:29-41 | every column key and every non-empty optional key is requested |
| SpService.GetItems | src/webparts/grid/services/spService.ts:27-48 | returns the select list built by pushing keys, and the fetched items grouped in first-occurrence order |
| Layout.DisplayOrderLaws | src/webparts/grid/components/Grid.tsx:36 | the displayed columns are a permutation of the configured ones, ascending by `sortIdx`, ties in configured order; sorting is idempotent |
| Layout.LastGroupingIndex | src/webparts/grid/components/Grid.tsx:74 | `filter(...).pop()` as an index: -1 exactly when no column has a group-by key; otherwise a column with one, after which no column has one |
| Layout.GroupByColumn | src/webparts/grid/components/Grid.tsx:74 | none exactly when no column has a group-by key; otherwise the last column that has one |
| Layout.FetchAndRenderAgree | src/webparts/grid/components/Grid.tsx:25-74 | with a single grouping column, the render's group column is the one whose key the fetch grouped by |
| Layout.FetchAndRenderCanDisagree | src/webparts/grid/components/Grid.tsx:25-74 | with two grouping columns in reverse `sortIdx` order, the fetch groups by one key while the render labels the groups with the other column |
| Layout.InnerFields | src/webparts/grid/components/Grid.tsx:115 | the inner columns are exactly the columns whose key differs from the group column's key |
| Layout.InnerFieldsCount | src/webparts/grid/components/Grid.tsx:115 | each column whose key differs from the group column's appears among the inner columns as often as it is configured; the others not at all |
| Layout.InnerFieldsKeepOrder | src/webparts/grid/components/Grid.tsx:115 | the inner columns are a subsequence of the displayed columns: the filter keeps display order |
| Layout.RescaledLayout | src/webparts/grid/components/Grid.tsx:115-116 | an inner row has one cell per inner column, showing that column's value at `width * 100 / (100 - group width)` |
| Layout.InnerCellsOmitGroupColumn | src/webparts/grid/components/Grid.tsx:115-116 | no inner cell shows the group column's key |
| Layout.RescaledTotal | src/webparts/grid/components/Grid.tsx:98-116 | the inner cells' widths add up to the inner columns' configured widths times `100 / spareWidth` |
| Layout.InnerRowFillsBody | src/webparts/grid/components/Grid.tsx:98-116 | an inner row spans exactly 100% of the group body if and only if the inner columns' widths sum to `100 - group width` |
| Layout.GroupPlanTones | src/webparts/grid/components/Grid.tsx:76-125 | one group's coloured rows alternate from the counter it starts at, and the counter advances by their number |
| Layout.DataPlanAlternates | src/webparts/grid/components/Grid.tsx:73-126 | all data rows' colours alternate from the starting counter, and the counter ends advanced by exactly the number of coloured rows |
| Layout.GroupRowsShareFirstTone | src/webparts/grid/components/Grid.tsx:101-114 | a group row takes the colour of its first inner row (the decrement at index 0), and its name cell and body span 100% together |
| Layout.UngroupedRowsFollowItems | src/webparts/grid/components/Grid.tsx:76-95 | without a group column, each item of each group in order is one row: a 100% cell with the first column's value when flagged full-width, otherwise one cell per column, coloured by consecutive counters |
| Layout.GroupedRowsFollowGroups | src/webparts/grid/components/Grid.tsx:98-125 | with a group column, each group is one row: a 100% cell with the group column's value when the first member is flagged full-width, otherwise a grouped row: the name cell with that value at the column's width, a body of `100 - group width`, and one inner row per member showing its inner cells |
| GridApp.PlanGroup | src/webparts/grid/components/Grid.tsx:76-125 | the imperative rendering of one group, with its mutable counter, produces exactly that group's plan and final counter |
| GridApp.PlanRows | src/webparts/grid/components/Grid.tsx:73-126 | rendering the groups one after another with a shared counter produces exactly the data plan and final counter |
| GridApp.App.constructor | src/webparts/grid/components/Grid.tsx:17-20 | on mount: no data, loading, collapsed as configured |
| GridApp.App.ToggleCollapsed | src/webparts/grid/components/Grid.tsx:47-51 | the collapse button flips `collapsed` and leaves data and loading unchanged |
| GridApp.App.FetchSettled | src/webparts/grid/components/Grid.tsx:22-34 | requests the select list for the last grouping key of the unsorted columns; on success the data becomes the grouped items, on failure it stays; loading ends either way |
| GridApp.App.Render | src/webparts/grid/components/Grid.tsx:36-136 | for a state whose groups are non-empty (`Valid`) and a configuration that avoids the two failing cases, a render is defined and, with its mutable counter starting at 1, produces exactly the view of the current state |
| GridApp.StateRenderable | src/webparts/grid/components/Grid.tsx:83-104 | non-empty groups, a grouping column narrower than 100% and no flagged item without columns are enough for every `group[0]`, `fields[0]` and `100 / spareWidth` of a render to be defined |
| GridApp.CollapsedShowsOnlyTitle | src/webparts/grid/components/Grid.tsx:43-62 | the title bar always comes first; the view is the title bar alone exactly when collapsed; expanded, the column headers follow it |
| GridApp.LoadingRowWhileLoading | src/webparts/grid/components/Grid.tsx:64-73 | the loading row appears exactly when expanded and loading, and then only the footer can follow it |
| GridApp.NoLoadingRow | src/webparts/grid/components/Grid.tsx:73-126 | no data row is a loading row |
| GridApp.FooterComesLast | src/webparts/grid/components/Grid.tsx:128-132 | expanded, a footer row follows the body if and only if a footer is set; it is a single 100% cell with the footer markup, coloured by the counter the body left |
| GridApp.BodyTones | src/webparts/grid/components/Grid.tsx:38-126 | the rows between the headers and the footer alternate in colour from counter 1, and the counter after them is one past the last colour used |
| GridApp.FooterTones | src/webparts/grid/components/Grid.tsx:128-132 | the footer row, when configured, takes the colour of the counter it is rendered at; with no footer no coloured row is added |
| GridApp.ViewColoursAlternate | src/webparts/grid/components/Grid.tsx:38-132 | the coloured rows of any render, the footer included, alternate in colour starting from palette index 1 |

## Left out

- The REST request is not modelled. Its result is an input to
  `SpService.GetItems` and `GridApp.App.FetchSettled`: the items the list
  returns for the select list, already ordered by the server by `orderBy`.
  A failed request is `None`.
- `groupBy`'s key is an abstract function `groupKey` and is not derived from
  the `groupByField` string. JavaScript's coercion of an item's value to an
  object property name is not modelled. With no group-by key, lodash uses
  the item itself as the key, and every item coerces to the same string.
  `Grouping.ConstantKeyOneGroup` covers that case.
- The order in which the engine enumerates `groupBy`'s object is a parameter
  (`keyOrder`, any order of the distinct keys). Engines list integer-like
  keys first in ascending order. The proof that `sortBy` restores
  first-occurrence order holds for every such order.
- The service's constructor and the page context it waits on are not
  modelled. Neither is the web part class's property pane and rendering
  wiring, or the React effect scheduling. The fetch happens once after
  mount, and `GridApp.App.FetchSettled` requires `loading` for that reason.
  A state update after unmount is not modelled.
- `console.log` on a failed fetch is not modelled.
- HTML, CSS class names, icons, the Teams styling and the spinner's label
  are not modelled. Cell contents are abstract: an item's value, markup, a
  caption or the spinner. Palette colours are their index, 0 or 1.
- Widths are exact reals. JavaScript floating-point rounding and the
  `width + '%'` string formatting are not modelled.
- `Layout.Renderable` (required by `GridApp.PlanRows` and `Layout.DataPlan`)
  excludes three source cases:
  - A group-by column of width 100. The source divides by zero there and
    writes an `Infinity%` or `NaN%` width.
  - An empty group when a column groups. The source would throw a
    `TypeError` reading `group[0]`.
  - An item flagged full-width when no column is configured. The source
    would throw a `TypeError` reading `fields[0]`.
- `GridApp.App.Render` requires `GridApp.App.Valid` and
  `GridApp.App.RenderDefined`. The component's groups come from the service
  and are never empty: the constructor and `GridApp.App.FetchSettled`
  establish `Valid`. The other two cases are configuration or data errors
  that the source does not guard against. `RenderDefined` excludes them, and
  `GridApp.StateRenderable` derives `Layout.Renderable` from the two
  predicates.
- `Layout.ItemRow` and `Layout.GroupPlan`: when an item's full-width flag
  holds the number 0, the JSX `flag && (...)` at
  src/webparts/grid/components/Grid.tsx:82 and :103 evaluates to `0`, and
  React renders a "0" text node before the ordinary cells. The model gives
  the ordinary cells only, because cell contents are abstract.
- `Grouping.IndexOf` compares records by value, while JavaScript's `indexOf`
  compares object references. At its one use the two agree. The value looked
  up is a group's first member, which is the first item with its key, and an
  earlier item equal in value would have the same key.
  `Grouping.IndexOfFirstOfKey` proves that the value reading returns that
  member's own index.
- `Records.Truthy` does not model `NaN`, which is falsy in JavaScript, because
  list values are not NaN.
- `SelectedField.width` and `sortIdx` are numbers in the source. `sortIdx`
  is modelled as an integer, because the column sort compares whole indices.
