# Kanban board drag-and-drop: a Dafny model

This project models the state and drop rule of a three-column Kanban board
(To Do, In Progress, Done). Each column shows an ordered list of task cards
(`DeveloperTasks` records with `id`, `title`, `owner` and `note`). Dropping
one or more cards onto a column does two things. First, every card whose
`id` matches a dropped card's `id` is removed from the two other columns.
Second, the target column becomes its old list followed by the dropped
cards, with every record after its first occurrence taken out (the
`uniqued()` adaptor). A drop is always accepted. Hovering a drag over a
column sets that column's "targeted" flag.

Layout:

- `uniquing.dfy` (module `Uniquing`) specifies `uniqued()` as an
  order-preserving, first-occurrence-wins deduplication under value
  equality. It proves this equal to an independent reference definition,
  `FirstOccurrences`, and proves the laws the board relies on.
- `tasks.dfy` (module `Tasks`) holds the task record and `Without`, the
  id-based `removeAll` filter, with its laws.
- `board.dfy` (module `Board`) holds the board as a value (`BoardState`),
  the seeded initial board, the drop rule `Step` as a function, and the
  lemmas about it: the partition invariant, order, re-drop, empty drop, a
  cross-column move, and record-versus-id deduplication.
- `content_view.dfy` (module `View`) holds the class `ContentView`. It has
  the source's three task fields and three hover flags. Its `Drop` method
  runs the source's removal loop over the dropped tasks and then reassigns
  the target. Its `ensures` ties the new columns to `Step` of the old ones.

Three points of the drop rule are easy to misread:

- Deduplication in the target compares **whole records**, because the
  record's `Hashable` conformance is synthesised over all four fields. It
  does not compare ids. So a dropped record that shares an id with a
  record already in the target, but differs in another field, is kept
  beside it (`Board.SameIdDifferentRecordBothKept`). Only when records with
  equal ids are equal does deduplication act per id
  (`Board.CoherentDropHasDistinctIds`). In the app, records are immutable
  and a drag carries a copy of an existing card, so that condition holds
  as long as the three seeded `UUID`s differ from each other.
- The drop handler accepts an empty payload. Such a drop changes nothing
  whenever the target holds no duplicate record
  (`Board.EmptyDropChangesNothing`). Every reachable board satisfies this.
- The partition invariant that the handlers keep is "no id in two columns"
  (`Board.StepPreservesPartitioned`, which needs nothing else of the board).
  Within one column, duplicate records never occur. Duplicate ids within a
  column are ruled out only under the coherence condition above.

## Model

| member | source | states |
|---|---|---|
| `Uniquing.UniquedFrom` | SwiftUIDragandDropwithTransferableCustomObject/ContentView.swift:30-31 | the scan keeps exactly the values of the input not already seen, each once, never lengthening the input |
| `Uniquing.Uniqued` | SwiftUIDragandDropwithTransferableCustomObject/ContentView.swift:31 | `uniqued()` keeps exactly the values of its input and returns no value twice |
| `Uniquing.UniquedMatchesFirstOccurrences` | SwiftUIDragandDropwithTransferableCustomObject/ContentView.swift:31 | `Uniqued` equals the reference definition: index i survives iff its value does not occur before i, and survivors keep their order |
| `Uniquing.UniquedFromSnoc` | SwiftUIDragandDropwithTransferableCustomObject/ContentView.swift:31 | one more input value adds that value at the end exactly when it is new |
| `Uniquing.UniquedFromAppend` | SwiftUIDragandDropwithTransferableCustomObject/ContentView.swift:30-31 | deduplicating `a + b` is deduplicating `a`, then `b` with everything in `a` already seen |
| `Uniquing.UniquedFromOfDistinct` | SwiftUIDragandDropwithTransferableCustomObject/ContentView.swift:31 | a duplicate-free input with no value already seen is returned unchanged |
| `Uniquing.UniquedFromOfSeen` | SwiftUIDragandDropwithTransferableCustomObject/ContentView.swift:31 | input values that have all been seen contribute nothing |
| `Uniquing.UniquedOfDistinct` | SwiftUIDragandDropwithTransferableCustomObject/ContentView.swift:31 | deduplication leaves a duplicate-free sequence as it is |
| `Uniquing.UniquedExtends` | SwiftUIDragandDropwithTransferableCustomObject/ContentView.swift:30-31 | appending to a duplicate-free list keeps it as a prefix, followed by only the new values |
| `Uniquing.UniquedAbsorbs` | SwiftUIDragandDropwithTransferableCustomObject/ContentView.swift:30-31 | appending values already present to a duplicate-free list gives back that list |
| `Uniquing.UniquedIdempotent` | SwiftUIDragandDropwithTransferableCustomObject/ContentView.swift:31 | deduplicating twice is deduplicating once |
| `Tasks.RecordEquality` | SwiftUIDragandDropwithTransferableCustomObject/ContentView.swift:99-104 | a `DeveloperTasks` record is its four stored fields: two records are equal exactly when id, title, owner and note all are |
| `Tasks.Without` | SwiftUIDragandDropwithTransferableCustomObject/ContentView.swift:27-28 | `removeAll { $0.id == ... }`: every record kept was in the column and has an id that is not removed, and the column never grows |
| `Tasks.WithoutMembers` | SwiftUIDragandDropwithTransferableCustomObject/ContentView.swift:27-28 | a record survives `removeAll { $0.id == ... }` iff its id is not removed; the list never grows |
| `Tasks.IdsOfWithout` | SwiftUIDragandDropwithTransferableCustomObject/ContentView.swift:27-28 | after removal, a column's ids are its old ids minus the removed ones |
| `Tasks.WithoutAppend` | SwiftUIDragandDropwithTransferableCustomObject/ContentView.swift:27-28 | removal distributes over concatenation, so survivors keep their relative order |
| `Tasks.WithoutNothing` | SwiftUIDragandDropwithTransferableCustomObject/ContentView.swift:27-28 | removal of ids a list does not hold leaves the list unchanged |
| `Tasks.WithoutWithout` | SwiftUIDragandDropwithTransferableCustomObject/ContentView.swift:26-29 | removing ids one task at a time equals one removal of all of them |
| `Tasks.WithoutDistinct` | SwiftUIDragandDropwithTransferableCustomObject/ContentView.swift:27-28 | removal keeps a duplicate-free column duplicate-free |
| `Board.MockTasks` | SwiftUIDragandDropwithTransferableCustomObject/ContentView.swift:122-126 | the three seeded tasks are three distinct records carrying the three given ids |
| `Board.InitialBoard` | SwiftUIDragandDropwithTransferableCustomObject/ContentView.swift:14-16 | the launch board holds the seeded tasks in To Do and nothing elsewhere, and is well formed |
| `Board.Step` | SwiftUIDragandDropwithTransferableCustomObject/ContentView.swift:26-31 | after a drop, other columns keep exactly their records whose id was not dropped; the target holds exactly its old records and the dropped ones, each once; no record is invented |
| `Board.StepPreservesPartitioned` | SwiftUIDragandDropwithTransferableCustomObject/ContentView.swift:26-31 | if no id is in two columns before a drop, none is after it |
| `Board.StepPreservesWellFormed` | SwiftUIDragandDropwithTransferableCustomObject/ContentView.swift:26-31 | if no id is in two columns and no column repeats a record before a drop, both still hold after it |
| `Board.RunPreservesWellFormed` | SwiftUIDragandDropwithTransferableCustomObject/ContentView.swift:25-61 | any sequence of drops, onto any columns, keeps the board well formed |
| `Board.ReachableBoardsArePartitioned` | SwiftUIDragandDropwithTransferableCustomObject/ContentView.swift:14-16 | from the seeded board, after any drops, no id is shown in two columns |
| `Board.StepKeepsTargetPrefix` | SwiftUIDragandDropwithTransferableCustomObject/ContentView.swift:30-31 | the target's old list stays a prefix in its old order; only new dropped records follow, in drop order |
| `Board.StepAppendsInOrder` | SwiftUIDragandDropwithTransferableCustomObject/ContentView.swift:30-31 | dropping `[t2, t3]` onto `[t1]` gives `[t1, t2, t3]` |
| `Board.StepFiltersOthers` | SwiftUIDragandDropwithTransferableCustomObject/ContentView.swift:26-29 | a non-target column is filtered piece by piece, so what it keeps stays in its old relative order |
| `Board.EmptyDropChangesNothing` | SwiftUIDragandDropwithTransferableCustomObject/ContentView.swift:26-31 | dropping nothing onto a duplicate-free target changes no column |
| `Board.ReDropChangesNothing` | SwiftUIDragandDropwithTransferableCustomObject/ContentView.swift:26-31 | on a well-formed board, re-dropping records already in the target changes no column |
| `Board.CrossColumnMove` | SwiftUIDragandDropwithTransferableCustomObject/ContentView.swift:38-44 | moving a card to another column removes its id from every non-target column and shows it once in the target |
| `Board.DistinctOccursOnce` | SwiftUIDragandDropwithTransferableCustomObject/ContentView.swift:31 | a record in a duplicate-free column occurs there exactly once |
| `Board.SameIdDifferentRecordBothKept` | SwiftUIDragandDropwithTransferableCustomObject/ContentView.swift:99-104 | deduplication compares all four fields, so a record with an existing id but a different field is appended, not discarded |
| `Board.CoherentDropHasDistinctIds` | SwiftUIDragandDropwithTransferableCustomObject/ContentView.swift:30-31 | when equal ids mean equal records, the new target shows each id at most once |
| `View.ContentView.constructor` | SwiftUIDragandDropwithTransferableCustomObject/ContentView.swift:14-20 | the view starts with the seeded board, which is well formed, and no column targeted |
| `View.ContentView.Drop` | SwiftUIDragandDropwithTransferableCustomObject/ContentView.swift:25-61 | every drop handler returns true; the new columns are `Step` of the old ones; well-formedness is kept; hover flags are untouched |
| `View.ContentView.RemoveFromOthers` | SwiftUIDragandDropwithTransferableCustomObject/ContentView.swift:26-29 | the per-task `removeAll` loop leaves each non-target column filtered by all dropped ids and the target untouched |
| `View.ContentView.RemoveIdFromOthers` | SwiftUIDragandDropwithTransferableCustomObject/ContentView.swift:27-28 | one pass of the loop: the two `removeAll` calls filter each non-target column by that task's id and leave the target and hover flags untouched |
| `View.ContentView.SetTargeted` | SwiftUIDragandDropwithTransferableCustomObject/ContentView.swift:33-35 | the hover handler stores the given flag for its column and changes nothing else |

## Left out

- `KanbanView` rendering, colours, layout and `ContentView_Previews` are user interface with no state to model.
- The `Transferable`/`Codable` drag payload and the `UTType` content-type registration are platform serialisation. A drop here receives an already decoded sequence of tasks.
- The `location` argument of the drop closures is never used by the handlers, so it is not modelled.
- `UUID()` in the seed data is random. The three ids are constructor parameters. Well-formedness of the launch board needs no condition on them, because the three seeded titles already differ; only the per-id reading of deduplication above needs them to differ.
- The internals of the swift-algorithms `uniqued()` are a foreign library. `Uniquing.Uniqued` specifies its documented behaviour instead.
- SwiftUI `@State` change notification and re-rendering are framework machinery. Events are modelled as single-threaded method calls, one at a time.
- Swift arrays are value types and are modelled as `seq` fields reassigned in place. Array storage and copy-on-write are not modelled.
- The three drop closures are one method with a `Column` parameter. Their removal loop is a separate method, and one pass of it another, running the same steps in the same order.
- Text fields (`title`, `owner`, `note`) compare character by character. Swift's `String` equality, which the synthesised `Hashable` uses, compares by Unicode canonical equivalence, so two records whose texts differ only in normalisation (a precomposed versus a decomposed accent) are one record to `uniqued()` but two to this model. In the app every dropped record is a decoded copy of a seeded card, so such a pair does not arise.
