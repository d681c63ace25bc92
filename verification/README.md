# Line-art stitcher and list paginator

A Dafny model of two pieces of sequential logic from this repository. Their properties are proved by the Dafny verifier.

**The segment stitcher `groupLines` and the path text built from its groups** (docs/js/imgVictor.js).

- A line detector reports an unordered list of segments `[x1, y1, x2, y2]`.
- `groupLines` chains these segments into groups (polylines) that an animated SVG path draws stroke by stroke.
- It starts from the first segment. On each pass it takes the remaining segment whose nearer endpoint is closest to the current end point, and turns that segment so the nearer endpoint comes first.
- If the gap is below 15, the segment joins the open group.
- Otherwise the stitcher adds up to two jittered "bridge" entries. After two bridges, it opens a new group with the segment.
- `render` turns each group into `'M'` followed by `"x1,y1 Lx2,y2 "` chunks joined by `'L'`. The path's `d` attribute is those strings concatenated.

**The paginator `paginate(input, size)`** (_actions/pagination.js).

- It copies the list and splices `size` items off the copy for each of the ceil(n / size) pages.
- Every page records the input length, plus a cursor made from the `id` of the item that follows it.

Modules and files:

- `basics.dfy` (`Basics`): sequence associativity and monotone multiplication, shared by the proofs.
- `segments.dfy` (`Segments`): segments, squared distances, orientation, and the multiset of undirected segments.
- `stitcher.dfy` (`Stitcher`): the parts of `groupLines`:
  - the nearest-segment search (a function, as the source's `reduce` is);
  - the bridge geometry;
  - one pass of the loop (`Step`, and the method `Pass` proved equal to it);
  - the whole loop (`Run`, and the method `GroupLines` proved to end in the state `Run` gives);
  - the number of passes the loop makes (`Passes`), counted by a ghost counter in `GroupLines`.
- `stitcher_facts.dfy` (`StitcherFacts`): an invariant the loop keeps, and the theorems about the groups `groupLines` returns.
- `path_data.dfy` (`PathData`): the path text builder and a parser for that text, proved to be its inverse.
- `pagination.dfy` (`Pagination`): `paginate`, proved as a loop over page numbers that splices a local copy, against the recursive function `Pages`.

Modelling conventions:

- Coordinates are whole numbers. `Math.hypot(dx, dy) < 15` is compared squared, as `dx*dx + dy*dy < 225`. The starting distance `Number.MAX_SAFE_INTEGER` of the search is squared too.
- The two calls `Math.random() * 5` of a bridge are read from a stream `rand: nat -> Draw`, where a `Draw` is a whole number in [0, 5). The k-th call of the run reads `rand(k)`.
- Entries of a group are tagged `Detected` or `Bridge`. The source's entries are bare 4-tuples; the tag is what lets the model say which entries are real segments.
- Segments are required to lie in a coordinate box of ±10^9. That bound is far larger than any canvas. It keeps every distance below the search's starting value, so the search always finds a segment, as it does on real images.
- A bridge runs from the end (c, d) of the open group's last entry back towards that entry's start (a, b), ending at (a ± ox, b ± oy). The sign is the same on both axes, chosen by `ox > 2` (docs/js/imgVictor.js:52-54).

## Model

| member | source | states |
|---|---|---|
| Segments.ReversedTwice | docs/js/imgVictor.js:37 | turning `[x2, y2, x1, y1]` twice gives the segment back; the turn is the same undirected segment, its endpoints trade their distances to any point, and its gap is unchanged |
| Segments.Gap | docs/js/imgVictor.js:33-35 | the gap is the smaller of the two endpoint distances, attained by one of them |
| Segments.Orient | docs/js/imgVictor.js:35-37 | the chosen segment is kept as given or turned, and afterwards its first endpoint is at the minimum distance |
| Segments.OrientNearFirst | docs/js/imgVictor.js:35-37 | the segment is turned exactly when its second endpoint attains the minimum, so a tie between the endpoints turns it |
| Segments.GapBelowSentinel | docs/js/imgVictor.js:39 | for segments in the coordinate box, every gap is below the starting distance `MAX_SAFE_INTEGER` |
| Segments.CanonMatch | docs/js/imgVictor.js:37 | two segments have the same undirected form exactly when one is the other or its reversal |
| Segments.BagRemove | docs/js/imgVictor.js:43 | removing element i from the pool removes exactly its undirected segment from the pool's multiset |
| Stitcher.Remove | docs/js/imgVictor.js:43 | `rest.splice(index, 1)` keeps the elements before i and shifts the ones after it down by one |
| Stitcher.AppendToLast | docs/js/imgVictor.js:41 | pushing onto the last group keeps the number of groups and every other group, and extends the last by the entry |
| Stitcher.Scan | docs/js/imgVictor.js:31-39 | the search over a prefix: no pick while every gap is at least the starting value; otherwise the pick has the least gap in the prefix, every earlier element is strictly farther, and the pick is oriented |
| Stitcher.Nearest | docs/js/imgVictor.js:31-39 | the search picks a segment exactly when one is nearer than the starting value, and then it is the nearest, ties going to the lowest index |
| Stitcher.NearestUnique | docs/js/imgVictor.js:36 | the strict `<` makes the nearest segment unique: two indices that both satisfy `IsNearest` are equal |
| Stitcher.BridgeFrom | docs/js/imgVictor.js:52-54 | the bridge starts at the end (c, d) of the last entry and ends ox and oy away from its start (a, b), on the plus side of both axes when ox > 2 and on the minus side otherwise |
| Stitcher.Step | docs/js/imgVictor.js:29-59 | one pass keeps the loop's state well formed, and either consumes one segment with `repeat` reset to 0, or leaves `rest` unchanged and raises `repeat` by one |
| Stitcher.StepSelects | docs/js/imgVictor.js:40-57 | with i the nearest segment: a gap below 15 appends the oriented segment to the open group and resets `repeat`; a larger gap with `repeat` 2 opens the group `[next]`; otherwise a bridge from the last entry is appended, two draws are consumed and no segment is removed |
| Stitcher.Start | docs/js/imgVictor.js:26-28 | the state before the loop: for segments in the coordinate box it is well formed, with all but the first segment still to place and `repeat` 0 |
| Stitcher.Run | docs/js/imgVictor.js:29-60 | the loop ends in a well-formed state with `rest` empty |
| Stitcher.Stitched | docs/js/imgVictor.js:22-25 | the result is empty exactly when the input is |
| Stitcher.Pass | docs/js/imgVictor.js:30-58 | the loop body, on the loop's variables, performs exactly one `Step` |
| Stitcher.GroupLines | docs/js/imgVictor.js:22-62 | the method returns the groups of `Stitched`, reading the caller's array without changing it (no `modifies`); for n > 0 segments its `while` loop runs `Passes` times, at most 3·(n−1) |
| StitcherFacts.StartKeeps | docs/js/imgVictor.js:26-28 | the state before the loop meets the loop invariant: the group `[lines[0]]`, no bridges or draws, and the placed and remaining segments are the input |
| StitcherFacts.StepKeeps | docs/js/imgVictor.js:40-57 | every pass keeps the invariant: groups are well shaped, the first entry is `lines[0]`, the trailing bridges of the open group equal `repeat`, draws and bridges are counted, and consumed plus remaining segments are the input |
| StitcherFacts.RunKeeps | docs/js/imgVictor.js:29-60 | the whole loop keeps that invariant |
| StitcherFacts.Finished | docs/js/imgVictor.js:29-61 | the loop ends with the invariant, `rest` empty and `repeat` 0, and its result is `Stitched` |
| StitcherFacts.StitchedCoverage | docs/js/imgVictor.js:31-50 | the detected entries of the result hold the input's undirected segments as a multiset: each input segment exactly once, and nothing else |
| StitcherFacts.StitchedCovers | docs/js/imgVictor.js:31-50 | every input segment is among the detected entries, as given or reversed, and every detected entry is an input segment, as given or reversed |
| StitcherFacts.StitchedGroups | docs/js/imgVictor.js:26-57 | every group is non-empty, opens with a detected segment, is a chain of contiguous or bridged steps, and has at most two bridges in a row; the first group opens with `lines[0]` as given; every group but the last closes with exactly two bridges after a detected segment; the last group ends with a detected segment |
| StitcherFacts.StitchedBridges | docs/js/imgVictor.js:46-57 | n segments get at most 2·(n−1) bridges |
| Stitcher.PassesBound | docs/js/imgVictor.js:29-57 | from any state, the passes still to come plus the bridges already in a row are at most three per remaining segment |
| Stitcher.StitchedPasses | docs/js/imgVictor.js:29-57 | the loop of `groupLines` runs at most 3·(n−1) times |
| StitcherFacts.BagHas | docs/js/imgVictor.js:37 | a segment's undirected form is in a list's multiset exactly when the list holds the segment as given or reversed |
| PathData.NatStr | docs/js/imgVictor.js:132 | the numeral of a whole number is a non-empty run of digits |
| PathData.IntStr | docs/js/imgVictor.js:132 | `${n}` of a whole number starts with a minus sign or a digit |
| PathData.Chunk | docs/js/imgVictor.js:132 | the text `${x1},${y1} L${x2},${y2} ` of one entry; `ParseChunkOf` reads its four coordinates back, and `ChunkStart` shows it never starts with `'M'` |
| PathData.Join | docs/js/imgVictor.js:132-134 | `parts.join(sep)` begins with the first part; `JoinText` and `JoinEmptySep` show the separator between neighbouring parts |
| PathData.Chunks | docs/js/imgVictor.js:132 | there is one chunk `"x1,y1 Lx2,y2 "` per entry, in entry order |
| PathData.DList | docs/js/imgVictor.js:131-133 | there is one path string per group, in group order, each being `'M'` followed by the group's chunks joined by `'L'` |
| PathData.GroupPath | docs/js/imgVictor.js:132 | a group's path string starts with `'M'`, is the bare `'M'` exactly for a group without entries, and otherwise is not followed by a second `'M'`; `ParseGroupOf` reads the entries back |
| PathData.PathD | docs/js/imgVictor.js:134 | the path `d` is empty exactly when there are no groups, and otherwise starts with `'M'`; `PathRoundTrip` reads every group back |
| PathData.ParseIntOf | docs/js/imgVictor.js:132 | reading a number back from `${n}` followed by a non-digit gives n and the text after it |
| PathData.ParseChunkOf | docs/js/imgVictor.js:132 | reading one chunk back gives the entry's four coordinates |
| PathData.ParseChunksOf | docs/js/imgVictor.js:132 | reading chunks joined by `'L'` back gives the entries' coordinates in order |
| PathData.ParseGroupOf | docs/js/imgVictor.js:132 | reading a group's path string back gives its entries' coordinates in order |
| PathData.PathRoundTrip | docs/js/imgVictor.js:131-134 | reading the path's `d` back gives every group's coordinates, in group order |
| PathData.PathDeterminesGroups | docs/js/imgVictor.js:131-134 | two lists of groups with the same `d` carry the same coordinates, group by group |
| Pagination.Truthy | _actions/pagination.js:18 | `!!v` for each kind of `id`: false for undefined, null, false, 0 and the empty string, true otherwise; `PageAt` uses it for `hasNextPage` |
| Pagination.Cursor | _actions/pagination.js:11 | the `id` of the head of the copy, undefined when the copy is empty; `PageAt` states it as the id of the item after the page |
| Pagination.MakePage | _actions/pagination.js:12-21 | the page record from the spliced nodes, the input length and the cursor; `PageAt` states each field |
| Pagination.CeilDiv | _actions/pagination.js:6 | `Math.ceil(n / size)` for whole numbers; `CeilDivBounds` proves it is the least page count that holds n items |
| Pagination.Paginated | _actions/pagination.js:2-26 | the pages `paginate(input, size)` returns; `PageCount`, `PageAt`, `PageSizes` and `PaginateRoundTrip` state what they are |
| Pagination.Pages | _actions/pagination.js:5-25 | the remaining `count` steps of the `reduce` add exactly `count` pages |
| Pagination.Paginate | _actions/pagination.js:2-26 | the method returns `Paginated(input, size)`, reading the caller's array without changing it (no `modifies`) |
| Pagination.CeilDivBounds | _actions/pagination.js:6 | ceil(n / size) pages of `size` items hold n items, one fewer page would not, and the count is 0 exactly for n = 0 |
| Pagination.PageCount | _actions/pagination.js:5-6 | the number of pages is ceil(n / size); empty input, and only empty input, gives no pages |
| Pagination.SplicedIsDrop | _actions/pagination.js:10 | after i splices the copy has lost its first i·size items |
| Pagination.PagesAt | _actions/pagination.js:9-22 | page i is built from the copy as the i-th step of the `reduce` finds it |
| Pagination.PageSlice | _actions/pagination.js:10-19 | page i holds the items from i·size up to (i+1)·size or the end, at least one of them, and its cursor comes from what follows them |
| Pagination.PageAt | _actions/pagination.js:10-19 | page i holds input[i·size .. min((i+1)·size, n)] and records `totalCount` n; `endCursor` is the `id` of the next item, or undefined when none follows; `hasNextPage` holds exactly when an item follows and its `id` is truthy |
| Pagination.PageSizes | _actions/pagination.js:10-19 | every page but the last has exactly `size` items; the last has 1 to `size` items, no next page and an undefined cursor |
| Pagination.FlattenPages | _actions/pagination.js:8-25 | the remaining steps' pages followed by what is left of the copy are the copy |
| Pagination.PaginateRoundTrip | _actions/pagination.js:3-10 | concatenating the pages' `nodes` in order gives back the input exactly |

## Left out

- The worker pool, message passing and the line detector. The pool's files are not part of this model. Detected segments are the stitcher's input.
- The custom elements of docs/js/imgVictor.js and docs/js/imgVictor/index.js. This covers shadow DOM, attribute callbacks, image loading, `animate`/`draw`, and setting the `d` attribute; they are DOM and animation I/O. The path text they are given is modelled by `PathData.PathD`.
- The duplicate path builder of docs/js/imgVictor/index.js, which builds the same text as `PathData.PathD`.
- Floating point. Coordinates are whole numbers, and distances are compared squared, so `Math.hypot` rounding is not modelled. `Math.random()` is an injected stream of whole numbers in [0, 5), so fractional offsets are not modelled.
- Stitcher.GroupLines: it requires coordinates within ±10^9. Without that bound a segment could be so far away that the search's starting value wins. In that case the source would read `next` as undefined, and that case is not modelled.
- PathData.IntStr: it formats whole numbers only. JavaScript's formatting of fractions, `-0` and exponent notation is not modelled.
- Stitcher.GroupLines: it takes an array. The source's default `lines = []`, which makes `groupLines()` with no argument return `[]`, is not modelled; the empty array gives `[]` as the source does.
- Pagination.Node: every item is an object with an `id`. A `null` item after a page is not modelled: `const [next = {}] = list` applies its default only to `undefined`, so the source's `next.id` throws a TypeError there. Primitive items are not modelled either.
- Pagination.Paginate: it requires a whole `size` of at least 1. The source's defaults (`input = []`, `size = 2`) are not modelled. Neither is what a fractional, zero or negative `size` would do.
- Pagination.Truthy: an item's `id` is one of undefined, null, a boolean, a whole number, a string or an object. NaN, fractional numbers and bigints are not modelled. An item without an `id` has the id undefined.
- The code after `paginate` in _actions/pagination.js (lines 27-30). It reads the environment and refers to names it never defines.
- Stitcher.GroupLines: the source's entries are untagged 4-tuples. The model adds the `Detected`/`Bridge` tag. `PathData.Chunk` reads only an entry's segment, so the path text carries no tag; `PathData.LinesOf` gives the coordinates `PathData.PathRoundTrip` reads back.
