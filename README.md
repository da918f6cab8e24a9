# Boustrophedon cellular decomposition: the sweep-line core

This project models the sweep-line core of BCD, a tool that decomposes a binary
image (obstacle-free pixels against obstacles) into cells. The model covers
these steps:

1. Every image column is cut into **slices**. A slice is a maximal half-open
   run `[first, second)` of matching pixels.
2. For every pair of adjacent columns, a **connection graph** is built. It
   links every slice of the left column to each slice of the right column
   that it overlaps.
3. Every slice is classified by its degree in the graph. The classes are
   **START**, **END**, **SPLIT**, **MERGE**, or a plain continuation, which
   yields no event.
4. An **overhang filter** cancels a START that is soon followed by a MERGE
   absorbing the same region. Symmetrically, it cancels an END that is
   shortly preceded by a SPLIT. "Soon" means within `leeway` boundaries. The
   filter works in place on the grid of event lists: cancelled events become
   tombs, meaning both slice lists are empty.
5. **Compaction** removes the tombs.
6. **Painting** fills one event's slices into a colour image.

The image is padded with one empty column on each side. This makes regions
that touch the border produce START and END events.

Each step is a Dafny module, one per file:

| module | file | role |
|---|---|---|
| `BcdTypes` | Types.dfy | slices, events, the overlap test, key order, event shapes |
| `SliceExtraction` | SliceExtraction.dfy | `find_slices` |
| `Classification` | Classification.dfy | the reference definition of a boundary's events |
| `ConnectionGraph` | ConnectionGraph.dfy | class `Connections` (constructor and `find_events`) |
| `AllEvents` | AllEvents.dfy | `find_all_events` |
| `Overhangs` | Overhangs.dfy | `invalidate_start_merge`, `invalidate_split_end`, `invalidate_overhangs` |
| `Compaction` | Compaction.dfy | `erase_invalid` |
| `Painting` | Painting.dfy | `color_event` |
| `Pipeline` | Pipeline.dfy | the padding step and the decomposition steps of `main` |

Modelling choices:

- **Ordered maps.** An ordered `std::map<slice, std::vector<slice>>` is modelled
  as a Dafny `map` plus the ascending sequence of its keys. That sequence is
  the map's iteration order. `emplace` leaves an existing key as it is and
  never reorders.
- **Connection graph.** The adjacency lists are stated against the sequence of
  edges in the order the constructor's nested loops meet them (`Edges`). This
  holds for any input, including inputs with repeated slices. For the
  strictly ascending slice lists that `find_slices` produces, the lists are
  exactly the overlapping slices of the other column, in order.
- **In-place filter.** The overhang filter's grid is an `array<seq<Event>>` that
  the methods update in place. Each method is proved equal to a function on
  the grid's value:
  - `AfterTrigger` models one call;
  - `Pass` models the whole filter, every call seeing the grid as the earlier
    calls left it.
- **Pixel integers.** Slice bounds are `nat`, and `size_t` is taken to be 64 bits wide.
  Fixed width matters in three places. The model keeps one of them: the
  backward search of `invalidate_split_end` (see "## Findings"). The other
  two are listed under "## Left out": `size() - 1` on an empty column list
  (src/slices.cc:99) and a negative `leeway` compared as `size_t`
  (src/bcd.cc:73, 107).
- **Backward search.** `invalidate_split_end` is meant to scan boundaries
  `x-1 .. x-leeway` and stop at boundary 0. Its guard does not stop it there
  (see "## Findings"). The model stops at boundary 0. On every input where
  the code does not fail, the model's search and the code's search agree.

## Model

| member | source | states |
|---|---|---|
| BcdTypes.Overlapping | src/slices.cc:14-19 | the slices of a column that overlap `s`, in column order; never more than the column holds |
| BcdTypes.Overlaps | src/slices.cc:18 | the open-interval overlap test (also src/bcd.cc:80 and 114): two slices that share a pixel overlap |
| BcdTypes.OverlapsSharedPixel | src/slices.cc:18 | for non-empty slices the test is exact: they overlap iff they share a pixel |
| BcdTypes.Less | src/slices.hh:28-29 | `std::pair`'s lexicographic `operator<`, the maps' key order: irreflexive |
| BcdTypes.LessTotal | src/slices.hh:28-29 | the key order is total, asymmetric and irreflexive |
| BcdTypes.OverlappingMember | src/slices.cc:14-19 | a slice is among the overlapping ones iff it is in the column and overlaps `s` |
| BcdTypes.RemoveAt | src/bcd.cc:93 | `erase(begin() + j)`: one entry fewer, the entries before `j` in place, the ones after shifted down by one |
| BcdTypes.Tomb | src/bcd.cc:84-85 | clearing both lists of an event keeps its type and makes it a tomb |
| SliceExtraction.SlicesUpTo | src/slices.cc:69-88 | reference definition of the runs of the first n pixels; when pixel n-1 matches, the last run ends at n |
| SliceExtraction.SlicesOf | src/slices.cc:69-88 | the reference runs of a whole column: non-empty, within the column, separated by a non-matching pixel |
| SliceExtraction.SlicesUpToWellFormed | src/slices.cc:69-88 | the slices are non-empty, within the column, and separated by at least one non-matching pixel |
| SliceExtraction.SlicesUpToExact | src/slices.cc:69-88 | a pixel lies in some slice iff it matches |
| SliceExtraction.SlicesUpToStart | src/slices.cc:73-80 | each slice begins at the top of the column or just after a non-matching pixel (the leading `!match` sentinel) |
| SliceExtraction.SlicesUpToEnd | src/slices.cc:73-84 | each slice ends at the column's end or at a non-matching pixel (the trailing `!match` sentinel) |
| SliceExtraction.ColumnSlices | src/slices.cc:69-88 | for a whole column: bounded, separated, strictly ascending, exact and maximal |
| SliceExtraction.NoMatchNoSlices | src/slices.cc:69-88 | a column without a matching pixel, the empty column included, has no slice |
| SliceExtraction.NoMatchPrefix | src/slices.cc:74-86 | no slice is opened before the first matching pixel |
| SliceExtraction.AllMatchOneSlice | src/slices.cc:69-88 | a non-empty prefix of length `n` that matches everywhere is the single slice `[0, n)` |
| SliceExtraction.FindSlices | src/slices.cc:69-88 | the loop with sentinels, its placeholder end `0` and `back().second = i`, returns exactly the reference slices; they are bounded, separated and strictly ascending, and they cover exactly the matching pixels |
| Classification.LeftEvent | src/slices.cc:32-46 | a left slice yields at most one event, and none iff it has exactly one neighbour; the event is a shaped END or SPLIT holding the slice on the left and its neighbours on the right |
| Classification.RightEvent | src/slices.cc:50-64 | a right slice yields at most one event, and none iff it has exactly one neighbour; the event is a shaped START or MERGE holding its neighbours on the left and the slice on the right |
| Classification.LeftEvents | src/slices.cc:30-47 | the first loop of `find_events` over a key order: no more events than keys (`LeftEvent` gives the per-key fact) |
| Classification.RightEvents | src/slices.cc:48-65 | the second loop over a key order: no more events than keys (`RightEvent` gives the per-key fact) |
| Classification.OutMap | src/slices.cc:14-24 | the left map for repetition-free columns: keyed by exactly the left slices, each list no longer than the right column |
| Classification.InMap | src/slices.cc:14-24 | the right map for repetition-free columns: keyed by exactly the right slices, each list no longer than the left column |
| Classification.BoundaryEvents | src/slices.cc:27-67 | reference result of `find_events`: at most one event per slice of either column |
| Classification.LeftEventsMember | src/slices.cc:30-47 | an event comes from the left-hand pass iff it is the classification of some left key |
| Classification.RightEventsMember | src/slices.cc:48-65 | an event comes from the right-hand pass iff it is the classification of some right key |
| Classification.ClassifiedShapes | src/slices.cc:27-67 | every event has its type's shape: START `[]`/`[b]`, END `[a]`/`[]`, SPLIT `[a]`/two or more, MERGE two or more/`[b]`; the left pass yields only END/SPLIT, the right pass only START/MERGE |
| Classification.BoundaryEventsShaped | src/slices.cc:27-67 | every event of a boundary has its type's shape |
| Classification.LeftEventsAscending | src/slices.cc:30-47 | for ascending keys, every END/SPLIT event has one left slice and they come in strictly ascending order of it |
| Classification.RightEventsAscending | src/slices.cc:48-65 | for ascending keys, every START/MERGE event has one right slice and they come in strictly ascending order of it |
| Classification.BoundaryEventsExact | src/slices.cc:27-67 | for each type, both directions: an END is in the boundary's list iff its slice has no right neighbour; a SPLIT iff its right list is all of (and at least two of) the slice's neighbours; a START and a MERGE likewise |
| Classification.LeftContinuationNoEvent | src/slices.cc:32-39 | a left slice with exactly one neighbour yields neither END nor SPLIT |
| Classification.RightContinuationNoEvent | src/slices.cc:50-57 | a right slice with exactly one neighbour yields neither START nor MERGE |
| Classification.ConcatEnds | src/slices.cc:27-67 | END/SPLIT events followed by START/MERGE events: the END/SPLIT group comes first and stays in ascending left-slice order |
| Classification.ConcatStarts | src/slices.cc:27-67 | in the same concatenation the START/MERGE group stays in ascending right-slice order |
| Classification.ConcatOrder | src/slices.cc:27-67 | both facts together for the left pass followed by the right pass |
| Classification.BoundaryEventsOrder | src/slices.cc:27-67 | for ascending columns, all END/SPLIT events precede all START/MERGE events, each group in strictly ascending slice order |
| Classification.SameSliceNoEvents | src/slices.cc:27-67 | two columns holding the same slice yield no event |
| Classification.SplitExample | src/slices.cc:39-46 | one slice facing two yields exactly one SPLIT with both neighbours |
| Classification.MergeExample | src/slices.cc:57-64 | two slices facing one yield exactly one MERGE with both neighbours |
| Classification.DisjointStartEnd | src/slices.cc:32-56 | the disjoint pair `[0,3)` and `[5,8)` yields an END (left pass, lines 32-38) and then a START (right pass, lines 50-56) |
| Classification.OneToOneNoEvents | src/slices.cc:27-67 | one slice overlapping one slice yields no event |
| ConnectionGraph.Insert | src/slices.cc:8 | `emplace` into an ordered map: the keys afterwards are the old keys plus the new one |
| ConnectionGraph.InsertAscending | src/slices.hh:28-29 | inserting keeps the key sequence strictly ascending, the map's iteration order |
| ConnectionGraph.AscendingUnique | src/slices.hh:28-29 | two ascending key sequences with the same members are equal, so the iteration order is determined by the key set |
| ConnectionGraph.Row | src/slices.cc:16-23 | the edges from one left slice found by the inner loop: no more edges than right slices |
| ConnectionGraph.Edges | src/slices.cc:14-24 | the edges in the order the nested loops meet them: at most one edge per pair of positions, at most `|L|·|R|` in all |
| ConnectionGraph.RowMember | src/slices.cc:16-23 | the inner loop yields an edge `(a, b)` iff `b` is in the right column and overlaps `a` |
| ConnectionGraph.EdgesMember | src/slices.cc:14-24 | the nested loops yield an edge iff its ends come from the two columns and overlap |
| ConnectionGraph.Outs | src/slices.cc:20 | the list `left.at(a)` built by the `push_back`s, the targets of `a`'s edges in edge order: no longer than the edge sequence |
| ConnectionGraph.Ins | src/slices.cc:21 | the list `right.at(b)` built by the `push_back`s, the sources of `b`'s edges in edge order: no longer than the edge sequence |
| ConnectionGraph.OutsMember | src/slices.cc:20 | `b` is in `a`'s list iff the edge `(a, b)` was met |
| ConnectionGraph.InsMember | src/slices.cc:21 | `a` is in `b`'s list iff the edge `(a, b)` was met |
| ConnectionGraph.NeighborsSymmetric | src/slices.cc:14-24 | `b` is a neighbour of `a` iff both are in their columns and overlap iff `a` is a neighbour of `b` |
| ConnectionGraph.OutsOfEdges | src/slices.cc:14-24 | with strictly ascending columns, `a`'s list is exactly the overlapping right slices, in right-column order |
| ConnectionGraph.InsOfEdges | src/slices.cc:14-24 | with strictly ascending columns, `b`'s list is exactly the overlapping left slices, in left-column order |
| ConnectionGraph.LinkStep | src/slices.cc:20-21 | appending `b` to `a`'s list and `a` to `b`'s keeps both maps equal to the projections of the extended edge sequence |
| ConnectionGraph.LinkRowStep | src/slices.cc:17-22 | one iteration of the inner loop, appending or skipping, keeps both maps the projections of the edges met so far |
| ConnectionGraph.EmptyEntries | src/slices.cc:6-13 | the emplace loop: one empty list per distinct slice, keys ascending |
| ConnectionGraph.LinkPair | src/slices.cc:18-22 | the body of the inner loop: the overlap test and the two `push_back`s, with keys unchanged and both maps still the projections of the edges met so far |
| ConnectionGraph.LinkRow | src/slices.cc:16-23 | one pass of the inner loop extends both maps by the edges of one left slice, keys unchanged |
| ConnectionGraph.LinkOverlaps | src/slices.cc:14-24 | after the nested loops every list is the projection of the edge sequence in loop order |
| ConnectionGraph.Connections.constructor | src/slices.cc:3-25 | both maps are keyed by exactly the input slices, iterate in ascending key order, and hold the neighbour lists in loop order |
| ConnectionGraph.Connections.FindEvents | src/slices.cc:27-67 | the left pass's events in key order, then the right pass's; every event is shaped |
| ConnectionGraph.LeftPass | src/slices.cc:30-47 | the first loop of `find_events` yields the left-hand events of the keys in order |
| ConnectionGraph.RightPass | src/slices.cc:48-65 | the second loop yields the right-hand events of the keys in order |
| ConnectionGraph.ConnectionEvents | src/slices.cc:3-67 | for ascending columns the key orders are the inputs and the events are the reference `BoundaryEvents` |
| AllEvents.SlicesOfAll | src/slices.cc:95-98 | the `all_slices` vector: one slice list per column |
| AllEvents.EventsSpec | src/slices.cc:90-105 | one event list per adjacent column pair: one fewer list than columns |
| AllEvents.PairsUpTo | src/slices.cc:99-103 | reference for the second loop: one event list for each of the first n adjacent pairs |
| AllEvents.PairsUpToAt | src/slices.cc:99-103 | entry `t` of the pairwise events is the reference events of slice lists `t` and `t+1` |
| AllEvents.EventsSpecAt | src/slices.cc:90-105 | entry `y` of the result holds the reference events of columns `y` and `y+1` |
| AllEvents.EventsShaped | src/slices.cc:90-105 | every event of every boundary is shaped |
| AllEvents.RightEventsIsolated | src/slices.cc:50-56 | right slices without neighbours yield one START each, in order |
| AllEvents.LeftEventsIsolated | src/slices.cc:32-38 | left slices without neighbours yield one END each, in order |
| AllEvents.EmptyLeftColumn | src/slices.cc:48-56 | next to an empty left column every slice is a START |
| AllEvents.EmptyRightColumn | src/slices.cc:30-38 | next to an empty right column every slice is an END |
| AllEvents.AllSlices | src/slices.cc:95-98 | the first loop collects the reference slices of every column, each strictly ascending |
| AllEvents.AllPairEvents | src/slices.cc:99-103 | the second loop appends the events of each adjacent pair of slice lists in order |
| AllEvents.EventsFromSlices | src/slices.cc:90-105 | events computed from the reference slices of the columns are the reference event grid |
| AllEvents.PairEvents | src/slices.cc:101-102 | a fresh connection graph's events for two ascending columns are the reference events, all shaped |
| AllEvents.FindAllEvents | src/slices.cc:90-105 | the result is the reference event grid and every event is shaped |
| Overhangs.InWindow | src/bcd.cc:73-107 | the loop guards: `x + i < events.size()` forward (line 73) and, as corrected, `i <= x` backward (line 107); inside the window the boundary read is a valid index |
| Overhangs.Boundary | src/bcd.cc:75-109 | the index `x + i` (line 75) or `x - i` (line 109): on the search's side of `x`, and `x` itself only for `i == 0` |
| Overhangs.SideFrom | src/bcd.cc:77-81 | the first slice index at or after `j` that overlaps `s`, every earlier one missing it; none when no slice overlaps |
| Overhangs.ColumnFrom | src/bcd.cc:75-98 | the first event (then the first slice) of one boundary overlapping `s`, every earlier event clear |
| Overhangs.SearchFrom | src/bcd.cc:73-100 | a hit lies within `1..leeway` and inside the grid window, at a valid event and slice index |
| Overhangs.SearchFromFirst | src/bcd.cc:73-100 | the hit is the first overlap in search order (nearest boundary, then event order, then slice order); no hit means no overlap anywhere in the window |
| Overhangs.SearchReadsWindow | src/bcd.cc:73-75 | the search reads only the boundaries inside its window |
| Overhangs.Shrink | src/bcd.cc:86-128 | the MERGE partner (lines 86-94) or SPLIT partner (lines 120-128) keeps its type; with at most two slices on the matched side it becomes a tomb, otherwise it loses exactly entry `j` of that side and keeps the other side |
| Overhangs.AfterTrigger | src/bcd.cc:69-135 | one trigger call changes no boundary's event count |
| Overhangs.ZeroLeewayTrigger | src/bcd.cc:73 | with leeway 0 a trigger call changes nothing |
| Overhangs.TriggerNoEffect | src/bcd.cc:82-96 | when there is no overlap, or the first overlap belongs to an event that is not the partner type, nothing changes: the search stops at the first overlap whatever its type |
| Overhangs.TriggerEffect | src/bcd.cc:82-96 | a partner hit cancels the trigger with its type kept, shrinks or cancels the partner as `Shrink` says, and leaves every other event as it was |
| Overhangs.TriggerFrame | src/bcd.cc:69-135 | no event changes type; besides the trigger, at most one event changes, and it is of the partner type |
| Overhangs.TriggerKeepsShape | src/bcd.cc:84-94 | shaped-or-tomb events stay shaped-or-tomb: a shrunk partner keeps at least two slices |
| Overhangs.InvalidateStartMerge | src/bcd.cc:69-101 | the triple loop with its early return leaves the grid as `AfterTrigger` forward says |
| Overhangs.InvalidateSplitEnd | src/bcd.cc:103-135 | the triple loop, stopped at boundary 0, leaves the grid as `AfterTrigger` backward says |
| Overhangs.StepAt | src/bcd.cc:142-152 | the loop body of the filter keeps the number of boundaries and the event count of the boundary being processed |
| Overhangs.ColumnPass | src/bcd.cc:142-153 | processing one boundary's events in order keeps the number of boundaries and that boundary's event count |
| Overhangs.GridPass | src/bcd.cc:140-154 | processing boundaries in order keeps the number of boundaries |
| Overhangs.Pass | src/bcd.cc:137-155 | the whole filter keeps the number of boundaries |
| Overhangs.StepKeepsArmed | src/bcd.cc:142-152 | every START/END not yet processed still has the slice it reads with `at(0)` |
| Overhangs.InvalidateOverhangs | src/bcd.cc:137-155 | the nested loops leave the grid as `Pass` says, each call seeing the earlier calls' changes |
| Overhangs.StepKeepsKinds | src/bcd.cc:142-152 | one step keeps every boundary's event count and every event's type |
| Overhangs.ColumnPassKeepsKinds | src/bcd.cc:142-153 | likewise for one boundary's events |
| Overhangs.GridPassKeepsKinds | src/bcd.cc:140-154 | likewise for a prefix of the boundaries |
| Overhangs.StepKeepsShape | src/bcd.cc:142-152 | one step keeps shaped-or-tomb events shaped-or-tomb |
| Overhangs.ColumnPassKeepsShape | src/bcd.cc:142-153 | likewise for one boundary |
| Overhangs.GridPassKeepsShape | src/bcd.cc:140-154 | likewise for a prefix of the boundaries |
| Overhangs.PassKeepsShape | src/bcd.cc:137-155 | the filter keeps every boundary's event count and every event's type; classified events end up shaped or tombs |
| Overhangs.ColumnPassZero | src/bcd.cc:142-153 | with leeway 0 one boundary's pass changes nothing |
| Overhangs.GridPassZero | src/bcd.cc:140-154 | with leeway 0 any prefix of the pass changes nothing |
| Overhangs.PassZeroLeeway | src/bcd.cc:137-155 | with leeway 0 the filter leaves the grid unchanged |
| Overhangs.SplitEndScanAsWritten | src/bcd.cc:103-113 | the backward search as written, with the index `x - i` modulo 2^64; an out-of-range result names an index past the grid |
| Overhangs.AsWrittenAgreesInRange | src/bcd.cc:107 | while the leeway does not reach past boundary 0, the search as written and the bounded search agree |
| Overhangs.AsWrittenAgrees | src/bcd.cc:105-113 | on every input, the search as written either indexes past the grid or agrees with the bounded search |
| Overhangs.AsWrittenOverrunsBoundaryZero | src/bcd.cc:107-109 | when the leeway exceeds `x` and no boundary from `x-1` down to 0 overlaps, the search as written indexes boundary 2^64-1 |
| Overhangs.OverrunExample | src/bcd.cc:107-109 | a concrete grid that the filter's first three boundaries leave unchanged, on which the END's search as written then overruns while the bounded call changes nothing |
| Compaction.Compact | src/bcd.cc:157-166 | compaction never lengthens a boundary's list |
| Compaction.CompactMember | src/bcd.cc:161-164 | an event survives iff it was there and is not a tomb |
| Compaction.CompactAppend | src/bcd.cc:161-164 | removal is element-wise, so survivors keep their relative order |
| Compaction.CompactNoTombs | src/bcd.cc:161-164 | a list without tombs is left as it is |
| Compaction.CompactLeavesNoTombs | src/bcd.cc:161-164 | no tomb survives |
| Compaction.CompactIdempotent | src/bcd.cc:161-164 | compacting twice is compacting once |
| Compaction.CompactShaped | src/bcd.cc:161-164 | compacting a list whose events are all shaped or tombs leaves only shaped events |
| Compaction.RemoveTombs | src/bcd.cc:161-164 | `remove_if` followed by `erase` yields the compacted list |
| Compaction.EraseInvalid | src/bcd.cc:157-166 | every boundary's list is replaced by its compaction |
| Painting.EventColor | src/bcd.cc:172-189 | the colour of an event type is neither the black background nor the white of free pixels |
| Painting.EventColorsDistinct | src/bcd.cc:171-189 | the four event colours are pairwise distinct and are neither the black background nor the white of free pixels |
| Painting.Fill | src/bcd.cc:193-194 | `std::fill` over a slice: exactly the cells of the slice get the colour, every other cell is kept |
| Painting.PaintAll | src/bcd.cc:191-195 | filling a list of slices keeps the column's height |
| Painting.PaintAllCell | src/bcd.cc:190-201 | a cell gets the colour iff some slice covers it, otherwise it keeps its colour |
| Painting.ColorEvent | src/bcd.cc:168-202 | column `x` gets the left slices and column `x+1` the right slices in the type's colour; no other column changes |
| Pipeline.Blank | src/bcd.cc:231-232 | an all-false column of the given height |
| Pipeline.Pad | src/bcd.cc:230-232 | one blank column of the first column's height on each side, the image columns in between |
| Pipeline.Decomposition | src/bcd.cc:230-241 | one event list per boundary of the padded image |
| Pipeline.PaddedBorders | src/bcd.cc:230-236 | behind the padding the first boundary holds one START per slice of the first column, and the last boundary one END per slice of the last column |
| Pipeline.ShapedIsNotTomb | src/bcd.cc:161-164 | a shaped event is never a tomb, so the tomb test of `remove_if` does not match it |
| Pipeline.ZeroLeewayDecomposition | src/bcd.cc:236-241 | with leeway 0 the decomposition is exactly the classified events |
| Pipeline.Decompose | src/bcd.cc:230-241 | padding, `find_all_events`, `invalidate_overhangs` and `erase_invalid` in sequence yield `Decomposition`; every reported event is shaped |
| Pipeline.OverrunColumns | src/slices.cc:69-88 | the slices of the three columns of the overrun image |
| Pipeline.OverrunSlices | src/bcd.cc:230-236 | the slices of the padded overrun image |
| Pipeline.OverrunBoundaries | src/bcd.cc:236 | the events of each boundary of the padded overrun image |
| Pipeline.OverrunImage | src/bcd.cc:230-240 | the padded overrun image produces the grid of `Overhangs.OverrunExample`: the overrun reaches the filter through a real decomposition |

## Left out

- Reading the input PNG, writing the output PNG, their exception types,
  argument parsing, the verbose output and the timing with `std::chrono` are
  I/O around the core. They are not part of this model. The image comes in as
  a sequence of boolean columns.
- The painting loop of `main` is left out (src/bcd.cc:243-267). It fills white
  pixels and calls `color_event` for every event. `color_event` itself is
  modelled.
- `leeway` is an `int` in the source. A negative value is compared as an
  unsigned `size_t`. The model takes `leeway` as a `nat`, so negative values
  are left out.
- Out-of-range `at()` calls throw in the source. The model turns each of them
  into a precondition:
  - `FindAllEvents`: an empty column list makes `size() - 1` wrap.
  - `Decompose`: an empty image makes `at(0)` throw.
  - `InvalidateStartMerge` and `InvalidateSplitEnd`: the trigger's `at(0)`.
  - `InvalidateOverhangs`: every START has a right slice and every END a left
    slice. Every classified event meets this.
  - `ColorEvent`: `color_columns.at(x)` and `at(x + 1)` (src/bcd.cc:190, 196)
    need boundary `x` to have a colour column on each side.
- Overhangs.StepAt: a START without a right slice (or an END without a left
  slice) makes the source throw. In the model it is a no-op, and
  `InvalidateOverhangs` excludes it by its precondition.
- `std::fill` over a range past the end of a colour column is undefined
  behaviour. `ColorEvent` requires every slice to fit its column.
- `color_event`'s `default` branch (white) is unreachable, because an event
  type is one of four enumerators. `EventColor` has no such case.
- `remove_if` compacts a vector in place. `RemoveTombs` builds the same
  sequence as a new value; the element moves themselves are not modelled.
- The trigger event is passed by reference into the grid. The model names it
  by its position (boundary `x`, index `k`) in the same grid, which is the
  same object.

## Findings

| source | as written | input that shows it | evidently intended | confidence | as-written member | corrected member |
|---|---|---|---|---|---|---|
| src/bcd.cc:107 | the loop guard `x - i >= 0` of `invalidate_split_end` is on `size_t` and always holds, so once `i > x` the index `x - i` wraps to `2^64 - 1` and `events.at(x - i)` throws `std::out_of_range` | columns `[1,1,1,1,1,0,0]`, `[0,0,0,0,1,1,1]`, `[0,0,0,0,0,1,0]` (height 7, leeway 4): after padding, the END at boundary 3 finds nothing at boundaries 2, 1, 0, then reads boundary `2^64 - 1` | stop the backward search at boundary 0 (`i <= x`) | not executed | Overhangs.SplitEndScanAsWritten (witnessed by Overhangs.AsWrittenOverrunsBoundaryZero, Overhangs.OverrunExample and Pipeline.OverrunImage) | Overhangs.InvalidateSplitEnd (with Overhangs.AsWrittenAgrees and Overhangs.AsWrittenAgreesInRange) |
