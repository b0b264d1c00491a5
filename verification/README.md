# Kanban drag-and-drop resolver, modelled in Dafny

The example component keeps a board: an ordered list of columns, each holding
an ordered list of cards. Two event handlers decide what a drag does to it:

- `findColumn` resolves an id to a column. A column id names its own column,
  a card id names the column holding the card, and anything else, including
  a missing or empty id, names nothing.
- `handleDragOver` is the preview. While a card is dragged over another
  column, the card leaves its own column and is inserted into the hovered one.
  The insertion index comes from the hovered card's index and from whether the
  pointer is below where the drag began (`delta.y > 0`, the displacement since
  the start of the drag).
- `handleDragEnd` is the commit. When a card is dropped inside its own column,
  the column is reordered with `arrayMove`.

The model is split into these modules:

- `Seqs` holds the generic sequence operations: JavaScript's `findIndex` and
  clamping `slice`, removal and insertion at an index, and `arrayMove`.
- `Boards` holds the board data model and the well-formedness predicate.
  A board is well formed when column ids are unique, card ids are unique
  across the whole board, and no card id is also a column id. It also holds the multiset facts.
- `Locator` models `findColumn`.
- `Preview` models `handleDragOver`.
- `Commit` models `handleDragEnd`.
- `Gesture` models a drag gesture as a stream of events. Each event replaces
  the board with the handler's result, which is what `setColumns` does.
- `Scenarios` holds the component's initial board and concrete drags on it.

Each handler is a pure function from a board to a board. Columns are compared
by id where the source compares them by object identity. `findColumn` always
returns the first column carrying some id, so the two comparisons agree on
every board, and `Locator.IdentityIsIdEquality` proves it. All paths below
are relative to the repository root.

## Model

| member | source | states |
|---|---|---|
| Seqs.FindIndex | src/components/example/index.tsx:85-86 | `findIndex` gives the first index whose element satisfies the test. It gives -1 exactly when no element does. |
| Seqs.Slice | src/components/example/index.tsx:98-100 | `slice` clamps both bounds to the length. An empty or out-of-range span gives the empty sequence. |
| Seqs.ArrayMove | src/components/example/index.tsx:127 | Moving keeps the length and the multiset. The moved element lands at `to`. Taking it out again leaves the same sequence as taking it out of the original at `from`, so every other element keeps its relative order. |
| Seqs.ArrayMoveIsShift | src/components/example/index.tsx:127 | A move equals an independent position-by-position description. The moved element goes to `to`, the elements between the two indices shift one slot towards `from`, and the rest stay put. |
| Seqs.ArrayMoveRoundTrip | src/components/example/index.tsx:127 | Moving from `to` back to `from` undoes a move. |
| Boards.WithCards | src/components/example/index.tsx:92-106 | The column `map` replaces the cards of every column carrying the given id. It leaves every other column as it was and keeps the ids, titles and order of all columns. |
| Locator.ColumnIndex | src/components/example/index.tsx:61-62 | `columns.find(c => c.id === x)` as an index: the first column carrying the id, and -1 exactly when no column carries it. |
| Locator.OwnerIndex | src/components/example/index.tsx:65-69 | The first entry of the flattened (card id, column id) list with a matching card id comes from the first column holding that card. It is -1 exactly when no column holds it. |
| Locator.CardIndex | src/components/example/index.tsx:85-86 | A card's index within a column is the first position carrying that id. It is -1 exactly when the id is absent from the column. |
| Locator.FindColumn | src/components/example/index.tsx:56-71 | A missing or empty id resolves to nothing. So does an id that is neither a column id nor held by any column. A column id resolves to a column with that id, and a card id resolves to a column whose id belongs to a column holding the card. The result is always the first column carrying its id. |
| Locator.IdentityIsIdEquality | src/components/example/index.tsx:77-79 | Two resolved columns are the same column exactly when their ids are equal. This holds on every board, so the identity tests at lines 79 and 118 are id tests. |
| Locator.LocatesColumn | src/components/example/index.tsx:61-62 | On a well-formed board a column id resolves to that column. |
| Locator.LocatesCard | src/components/example/index.tsx:64-70 | On a well-formed board a card id that is not also a column id resolves to the column holding the card. |
| Locator.FindColumnMeaning | src/components/example/index.tsx:56-71 | On a well-formed board, in both directions: an id resolves to column `c` exactly when the id is non-empty, `c` is on the board, and either `c` carries the id or no column does and `c` holds the card. |
| Preview.NewIndex | src/components/example/index.tsx:87-91 | `newIndex` is one past the column's length when the hovered id names no card. It is one past the hovered card exactly when that card is the last one and the pointer is below where the drag began. In every other case it is the hovered card's own index, which stays within the column. |
| Preview.TargetIndexRules | src/components/example/index.tsx:87-91 | There are three target rules. A column id as the hovered id appends the card. The last card hovered with the pointer below the drag's start also appends it. Otherwise the card goes immediately before the hovered card. |
| Preview.Placed | src/components/example/index.tsx:97-101 | Concatenating the two clamped slices around the card inserts it at the target index, capped at the column's length. |
| Preview.Without | src/components/example/index.tsx:94 | The filter leaves no card carrying the active id. A card is in the result exactly when it was in the column and carries another id. A single card is kept or dropped by its id, and nothing changes when the id is absent. |
| Preview.WithoutCounts | src/components/example/index.tsx:94 | The filter keeps every other card exactly as many times as it occurs and drops every copy of a card carrying the active id. |
| Preview.WithoutConcat | src/components/example/index.tsx:94 | Filtering a concatenation filters each part and concatenates the results. With the single-card rule of `Without`, the kept cards stay in their original order. |
| Preview.WithoutUnique | src/components/example/index.tsx:94 | When the id occurs exactly once, the filter removes exactly the card at that index. |
| Preview.DragOver | src/components/example/index.tsx:73-109 | Column ids, titles and order never change. The board is left as it was in these cases: either id fails to resolve, both ids resolve to the same column, or the active id is no card on the board. |
| Preview.PreviewResult | src/components/example/index.tsx:92-106 | There are four parts on a well-formed board. The source column loses exactly the active card. The hovered column gains it at the clamped `newIndex`. Every other column is untouched. Ids, titles and order are kept, as `DragOver` states. |
| Preview.PreviewKeepsCards | src/components/example/index.tsx:83-106 | A preview keeps the board's multiset of cards and of card ids. It keeps the board well formed, so every card id stays in exactly one column. |
| Preview.PreviewIdempotent | src/components/example/index.tsx:77-106 | Applying the same drag-over event to the board it produced changes nothing. |
| Preview.Read | src/components/example/index.tsx:99 | `activeItems[activeIndex]` is a card exactly when the index is inside the column, and then it is the card at that index. Otherwise it is `undefined`. |
| Preview.HoleNeedsColumnId | src/components/example/index.tsx:77-85 | On a well-formed board, the resolved active column lacks the active id exactly when that id is a column id. Only a dragged column reaches the `activeItems[-1]` read. |
| Preview.InsertedAsWritten | src/components/example/index.tsx:97-101 | This is the hovered column as the source builds it, including the `undefined` that `activeItems[-1]` reads. With a valid active index it equals the model's insertion. With an index of -1 it contains a hole. |
| Commit.DragEnd | src/components/example/index.tsx:111-133 | The board is left as it was in these cases: either id fails to resolve, the ids resolve to different columns, or the two indices are equal. It states exactly when the source reaches `arrayMove` with an index of -1. Every result keeps ids, titles and column order. |
| Commit.CommitReorders | src/components/example/index.tsx:124-131 | A commit inside one column makes the new cards a permutation of the old ones. The active card ends at the hovered card's old index, all other cards keep their relative order, and no other column changes. |
| Commit.CommitKeepsCards | src/components/example/index.tsx:124-131 | A commit keeps the board's multiset of cards and of card ids, and keeps the board well formed. |
| Gesture.Apply | src/components/example/index.tsx:108 | Each event replaces the board with the handler's result, as `setColumns` does at lines 108 and 131. A drag-over event always gives a board, and every result keeps the columns' ids, titles and order. |
| Gesture.Run | src/components/example/index.tsx:73-133 | A gesture applies its events one after another. A gesture made only of drag-over events always ends on a board, and any board it ends on has the same columns in the same order. |
| Gesture.GestureKeepsCards | src/components/example/index.tsx:73-133 | Any sequence of previews and commits on a well-formed board ends on a well-formed board. That board has the same cards, the same card ids each held once, and the same columns in the same order. |
| Gesture.RepeatedPreviewCollapses | src/components/example/index.tsx:73-109 | A drag-over event fired twice in a row has the same effect on the rest of the gesture as firing it once. |
| Scenarios.InitialBoardIsInitial | src/components/example/index.tsx:17-54 | The component's initial board is Column1 holding Card1 and Card2, then Column2 holding Card3 to Card6. |
| Scenarios.InitialIds | src/components/example/index.tsx:17-54 | The initial board's card ids, column by column and for the whole board, each occur once. |
| Scenarios.PreviewBeforeHoveredCard | src/components/example/index.tsx:87-106 | Card1 dragged over Card4, with the pointer not below the drag's start, leaves Column1 as [Card2]. Column2 becomes [Card3, Card1, Card4, Card5, Card6]. |
| Scenarios.PreviewPastLastCard | src/components/example/index.tsx:88-90 | Card1 dragged over the last card, Card6, with the pointer below the drag's start, is appended after it. |
| Scenarios.PreviewOverColumn | src/components/example/index.tsx:90 | Card2 dragged over Column2's own id is appended to Column2. |
| Scenarios.CommitWithinColumn | src/components/example/index.tsx:124-131 | Dropping Card3 on Card5 turns Column2 from [Card3, Card4, Card5, Card6] into [Card4, Card5, Card3, Card6]. |
| Scenarios.DraggedColumnLeavesHole | src/components/example/index.tsx:85-101 | Column1 dragged over Card4 passes the guard and reads index -1. As written, Column2 becomes [Card3, undefined, Card4, Card5, Card6]. |
| Scenarios.DraggedColumnIgnored | src/components/example/index.tsx:79-85 | The corrected preview leaves the initial board unchanged when Column1 is dragged over Card4. |

## Left out

- React state and rendering are not modelled. This covers `useState`, `setColumns` and the JSX at lines 141-154, and the `Column` component is not part of this model. Each handler is a pure function, and `Gesture.Run` plays the role of successive `setColumns` calls.
- `DndContext`, the pointer and keyboard sensors, `sortableKeyboardCoordinates` and `closestCorners` (lines 135-147) are left out. They capture input inside a third-party library.
- The component has no drag-cancel handler, so none is modelled. A cancelled gesture keeps whatever the last preview produced.
- Of the pointer's displacement since the drag began, only the sign test `delta.y > 0` on line 88 matters, so it is the flag `belowStart`. Floating point is not modelled.
- Ids are strings. The `String(...)` conversion of library ids on lines 75-76 and 114-115 is left out. A missing `over` is `None`.
- The handlers assign `c.cards` in place on the column objects of the current state, on lines 94, 97 and 127. The model builds new boards and never shares state between the old board and the new one.
- Commit.DragEnd: the result is `None` exactly when the source would call `arrayMove` with an index of -1. What `arrayMove` from `@dnd-kit/sortable` does with a negative index is not part of this model. This happens when one of the ids names the column itself.
- Preview.DragOver: when the active id resolves to a column that lacks it, the source inserts `undefined` into the hovered column (see Findings). The model follows the corrected behaviour and leaves the board unchanged. On a well-formed board this happens only for a dragged column (`Preview.HoleNeedsColumnId`). On a board where a card id equals a column id, the source resolves that id to the column. The model then leaves the board unchanged, where the source would insert `undefined` and leave the real card in place. Such boards are outside `WellFormed`.
- Preview.PreviewResult: stated only for well-formed boards. With a duplicated card id, the filter removes every copy of that id, not just the one at the active index.
- Preview.PreviewIdempotent: stated only for well-formed boards and for the corrected `DragOver`. When ids repeat, or a card id equals a column id, the source gives no such promise. For example, take a board with column X holding card X and column Y holding card Z, and drag X over Z twice. The second drag resolves X to the now-empty column X, and the source inserts a second, `undefined` entry into Y.
- Commit.CommitReorders: stated only for well-formed boards, where each id names one card.
- Preview.PreviewKeepsCards, Commit.CommitKeepsCards and Gesture.GestureKeepsCards: stated only for well-formed boards. The source itself never checks uniqueness and relies on its callers to keep ids unique.

## Findings

| source | as written | input that shows it | evidently intended | confidence | as-written member | corrected member |
|---|---|---|---|---|---|---|
| src/components/example/index.tsx:85-101 | When the active id is a column id, `activeIndex` is -1. The guard still lets it through, and `activeItems[-1]`, which is `undefined`, is spliced into the hovered column. | On the initial board, drag Column1 over Card4. Column2 becomes [Card3, undefined, Card4, Card5, Card6]. | Leave the board unchanged, as for every other drag that names no card. | low, not executed. On a well-formed board it needs columns to be draggable (`Preview.HoleNeedsColumnId`), and the `Column` component is not part of this model. It is also reached when a card id equals a column id. The `i?.id` guards on lines 67 and 85 suggest holes were seen. | Preview.InsertedAsWritten, Scenarios.DraggedColumnLeavesHole | Preview.DragOver, Preview.HoleNeedsColumnId, Preview.PreviewKeepsCards, Scenarios.DraggedColumnIgnored |
