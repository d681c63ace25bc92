/** The segment stitcher `groupLines` of docs/js/imgVictor.js: it walks an
    unordered list of segments, always taking the remaining segment nearest to
    the current end point, and chains them into groups (polylines). A gap of 15
    or more is crossed by up to two jittered "bridge" entries before a new group
    is opened.

    The loop's state is the record `Stitch`; `Step` is one pass of the loop and
    `Run` the whole loop, and `GroupLines` is the loop itself, proved to end in
    the state `Run` describes. The two `Math.random()` calls of a bridge are
    read from the stream `rand`. */
module Stitcher {
  import opened Segments

  /** One value of `Math.random() * 5`, taken as a whole number in [0, 5). */
  type Draw = d: int | 0 <= d < 5

  /** An entry of a group: a segment from the detector, or a synthetic bridge.
      The source does not tag them; the tag lets the model state coverage. */
  datatype Entry = Detected(line: Line) | Bridge(line: Line)

  type Group = seq<Entry>

  /** The loop's variables `rest`, `result`, `l` and `repeat`, and `drawn`,
      how many random numbers the loop has taken so far. */
  datatype Stitch = Stitch(rest: seq<Line>, result: seq<Group>, l: Line, repeat: nat, drawn: nat)

  function Last<T>(s: seq<T>): T
    requires s != []
  {
    s[|s| - 1]
  }

  function Abs(a: int): int { if a < 0 then -a else a }

  /** `rest.splice(i, 1)`: the list without its element i. */
  function Remove(ls: seq<Line>, i: nat): (r: seq<Line>)
    requires i < |ls|
    ensures |r| == |ls| - 1
    ensures forall j :: 0 <= j < i ==> r[j] == ls[j]
    ensures forall j :: i <= j < |r| ==> r[j] == ls[j + 1]
  {
    ls[..i] + ls[i + 1..]
  }

  /** `result[result.length - 1].push(e)`. */
  function AppendToLast(gs: seq<Group>, e: Entry): (r: seq<Group>)
    requires gs != []
    ensures |r| == |gs| && Last(r) == Last(gs) + [e]
    ensures forall i :: 0 <= i < |gs| - 1 ==> r[i] == gs[i]
  {
    gs[..|gs| - 1] + [Last(gs) + [e]]
  }

  /** The accumulator `[index, d, next]` of the search. While only the starting
      value `[0, Number.MAX_SAFE_INTEGER]` has been seen, `next` is absent. */
  datatype Memo = Memo(index: nat, gap: int, next: Option<Line>)

  /** Element i of `rest` is the one the search must pick: its nearer endpoint
      is closest to (x, y), and every earlier element is strictly farther. */
  ghost predicate IsNearest(rest: seq<Line>, x: int, y: int, i: int)
  {
    && 0 <= i < |rest|
    && (forall j :: 0 <= j < |rest| ==> Gap(rest[i], x, y) <= Gap(rest[j], x, y))
    && (forall j :: 0 <= j < i ==> Gap(rest[i], x, y) < Gap(rest[j], x, y))
  }

  /** The search `rest.reduce(...)` over the first k elements of `rest`. */
  function Scan(rest: seq<Line>, x: int, y: int, k: nat): (m: Memo)
    requires k <= |rest|
    ensures m.next.None? ==>
              m == Memo(0, Sentinel, None) && forall j :: 0 <= j < k ==> Sentinel <= Gap(rest[j], x, y)
    ensures m.next.Some? ==>
              && m.index < k
              && m.gap < Sentinel
              && m.gap == Gap(rest[m.index], x, y)
              && m.next.value == Orient(rest[m.index], x, y)
              && (forall j :: 0 <= j < k ==> m.gap <= Gap(rest[j], x, y))
              && (forall j :: 0 <= j < m.index ==> m.gap < Gap(rest[j], x, y))
  {
    if k == 0 then Memo(0, Sentinel, None)
    else
      var memo := Scan(rest, x, y, k - 1);
      var line := rest[k - 1];
      var d := Gap(line, x, y);
      if d < memo.gap then Memo(k - 1, d, Some(Orient(line, x, y))) else memo
  }

  /** The whole search: it finds a segment exactly when some segment is nearer
      than the starting distance, and then it is the nearest one, lowest index
      first, turned so that its nearer endpoint comes first. */
  function Nearest(rest: seq<Line>, x: int, y: int): (m: Memo)
    ensures m.next.Some? <==> exists j :: 0 <= j < |rest| && Gap(rest[j], x, y) < Sentinel
    ensures m.next.Some? ==>
              && IsNearest(rest, x, y, m.index)
              && m.gap == Gap(rest[m.index], x, y)
              && m.next.value == Orient(rest[m.index], x, y)
  {
    Scan(rest, x, y, |rest|)
  }

  /** The bridge `[c, d, a ± ox, b ± oy]` from the end (c, d) of the entry
      `[a, b, c, d]` back towards its start; both offsets are added when ox > 2
      and both subtracted otherwise. */
  function BridgeFrom(e: Line, ox: Draw, oy: Draw): (b: Line)
    ensures b.x1 == e.x2 && b.y1 == e.y2
    ensures Abs(b.x2 - e.x1) == ox && Abs(b.y2 - e.y1) == oy
    ensures ox > 2 ==> e.x1 <= b.x2 && e.y1 <= b.y2
    ensures ox <= 2 ==> b.x2 <= e.x1 && b.y2 <= e.y1
  {
    // the factor `(ox > 2 ? 1 : -1)` multiplies both offsets
    if ox > 2 then Line(e.x2, e.y2, e.x1 + ox, e.y1 + oy)
    else Line(e.x2, e.y2, e.x1 - ox, e.y1 - oy)
  }

  /** What every state of the loop satisfies: an open group whose last entry is
      `l`, at most two bridges in a row, and coordinates that stay within 4 per
      bridge of the coordinate box. */
  ghost predicate WellFormed(st: Stitch)
  {
    && st.result != []
    && Last(st.result) != []
    && st.l == Last(Last(st.result)).line
    && st.repeat <= 2
    && InBox(st.l, CoordBound + 4 * st.repeat)
    && AllInBox(st.rest, CoordBound)
  }

  /** The state before the loop: `[l, ...rest] = [...lines]`, `result = [[l]]`. */
  ghost function Start(lines: seq<Line>): (st: Stitch)
    requires lines != []
    ensures AllInBox(lines, CoordBound) ==> WellFormed(st)
    ensures |st.rest| == |lines| - 1 && st.repeat == 0
  {
    Stitch(lines[1..], [[Detected(lines[0])]], lines[0], 0, 0)
  }

  /** One pass of the loop: consume the nearest segment into the open group or
      into a new group, or add a bridge. */
  ghost function Step(st: Stitch, rand: nat -> Draw): (r: Stitch)
    requires WellFormed(st) && st.rest != []
    ensures WellFormed(r)
    ensures || (|r.rest| == |st.rest| - 1 && r.repeat == 0)
            || (r.rest == st.rest && r.repeat == st.repeat + 1)
  {
    var x, y := st.l.x2, st.l.y2;
    GapBelowSentinel(st.rest[0], x, y);
    var m := Nearest(st.rest, x, y);
    var next := m.next.value;
    if m.gap < GapSq then
      Stitch(Remove(st.rest, m.index), AppendToLast(st.result, Detected(next)), next, 0, st.drawn)
    else if st.repeat == 2 then
      Stitch(Remove(st.rest, m.index), st.result + [[Detected(next)]], next, 0, st.drawn)
    else
      var back := BridgeFrom(Last(Last(st.result)).line, rand(st.drawn), rand(st.drawn + 1));
      Stitch(st.rest, AppendToLast(st.result, Bridge(back)), back, st.repeat + 1, st.drawn + 2)
  }

  /** Two indices that both satisfy the search's specification are the same. */
  lemma NearestUnique(rest: seq<Line>, x: int, y: int, i: int, k: int)
    requires IsNearest(rest, x, y, i) && IsNearest(rest, x, y, k)
    ensures i == k
  {
    assert Gap(rest[i], x, y) == Gap(rest[k], x, y);
  }

  /** One pass, stated through the search's specification: with i the nearest
      remaining segment and `next` that segment turned towards the current end
      point (the end of `l`), a gap below 15 appends `next` to the open group,
      a larger gap after two bridges opens the group `[next]`, and otherwise a
      bridge from the end of `l` is appended and no segment is consumed. */
  lemma StepSelects(st: Stitch, rand: nat -> Draw, i: int)
    requires WellFormed(st) && st.rest != []
    requires IsNearest(st.rest, st.l.x2, st.l.y2, i)
    ensures var next := Orient(st.rest[i], st.l.x2, st.l.y2);
            var gap := Gap(st.rest[i], st.l.x2, st.l.y2);
            var back := BridgeFrom(st.l, rand(st.drawn), rand(st.drawn + 1));
            && (gap < GapSq ==>
                  Step(st, rand) == Stitch(Remove(st.rest, i), AppendToLast(st.result, Detected(next)), next, 0, st.drawn))
            && (GapSq <= gap && st.repeat == 2 ==>
                  Step(st, rand) == Stitch(Remove(st.rest, i), st.result + [[Detected(next)]], next, 0, st.drawn))
            && (GapSq <= gap && st.repeat < 2 ==>
                  Step(st, rand) == Stitch(st.rest, AppendToLast(st.result, Bridge(back)), back, st.repeat + 1, st.drawn + 2))
  {
    var x, y := st.l.x2, st.l.y2;
    GapBelowSentinel(st.rest[0], x, y);
    NearestUnique(st.rest, x, y, i, Nearest(st.rest, x, y).index);
  }

  /** The loop run until `rest` is empty. Each pass removes a segment or raises
      `repeat`, which never exceeds 2, so the loop ends. */
  ghost function Run(st: Stitch, rand: nat -> Draw): (r: Stitch)
    requires WellFormed(st)
    ensures WellFormed(r) && r.rest == []
    decreases |st.rest|, 2 - st.repeat
  {
    if st.rest == [] then st else Run(Step(st, rand), rand)
  }

  /** The groups `groupLines(lines)` returns. */
  ghost function Stitched(lines: seq<Line>, rand: nat -> Draw): (gs: seq<Group>)
    requires AllInBox(lines, CoordBound)
    ensures gs == [] <==> lines == []
  {
    if lines == [] then [] else Run(Start(lines), rand).result
  }

  /** How many passes the loop makes from `st`. */
  ghost function Passes(st: Stitch, rand: nat -> Draw): nat
    requires WellFormed(st)
    decreases |st.rest|, 2 - st.repeat
  {
    if st.rest == [] then 0 else 1 + Passes(Step(st, rand), rand)
  }

  /** Each segment costs at most three passes: two bridges and the pass that
      consumes it, less the bridges already made. */
  lemma {:induction false} PassesBound(st: Stitch, rand: nat -> Draw)
    requires WellFormed(st) && (st.rest == [] ==> st.repeat == 0)
    ensures Passes(st, rand) + st.repeat <= 3 * |st.rest|
    decreases |st.rest|, 2 - st.repeat
  {
    if st.rest != [] {
      var r := Step(st, rand);
      PassesBound(r, rand);
      assert Passes(st, rand) == 1 + Passes(r, rand);
    }
  }

  /** The loop of `groupLines(lines)` runs at most 3·(n−1) times. */
  lemma StitchedPasses(lines: seq<Line>, rand: nat -> Draw)
    requires lines != [] && AllInBox(lines, CoordBound)
    ensures Passes(Start(lines), rand) <= 3 * (|lines| - 1)
  {
    PassesBound(Start(lines), rand);
  }

  /** One pass of the `while (rest.length)` loop, on the loop's variables. */
  method Pass(st: Stitch, rand: nat -> Draw) returns (r: Stitch)
    requires WellFormed(st) && st.rest != []
    ensures r == Step(st, rand)
  {
    var Stitch(rest, result, l, repeat, drawn) := st;
    var x, y := l.x2, l.y2;
    GapBelowSentinel(rest[0], x, y);
    var m := Nearest(rest, x, y);
    var next := m.next.value;
    StepSelects(st, rand, m.index);
    if m.gap < GapSq {
      result := AppendToLast(result, Detected(next));
      repeat := 0;
      rest := Remove(rest, m.index);
      l := next;
    } else if repeat == 2 {
      result := result + [[Detected(next)]];
      repeat := 0;
      rest := Remove(rest, m.index);
      l := next;
    } else {
      var last := result[|result| - 1];
      var back := BridgeFrom(last[|last| - 1].line, rand(drawn), rand(drawn + 1));
      result := AppendToLast(result, Bridge(back));
      repeat := repeat + 1;
      drawn := drawn + 2;
      l := back;
    }
    r := Stitch(rest, result, l, repeat, drawn);
  }

  /** `groupLines(lines)`. It reads the caller's array once, into a copy, and
      changes nothing the caller can see; `passes` counts the iterations of
      its loop. */
  method GroupLines(lines: array<Line>, rand: nat -> Draw) returns (groups: seq<Group>, ghost passes: nat)
    requires AllInBox(lines[..], CoordBound)
    ensures groups == Stitched(lines[..], rand)
    ensures lines.Length > 0 ==> passes == Passes(Start(lines[..]), rand) <= 3 * (lines.Length - 1)
  {
    passes := 0;
    if lines.Length == 0 {
      return [], passes;
    }
    var copy := lines[..];
    var st := Stitch(copy[1..], [[Detected(copy[0])]], copy[0], 0, 0);
    while st.rest != []
      invariant WellFormed(st)
      invariant Run(st, rand) == Run(Start(copy), rand)
      invariant passes + Passes(st, rand) == Passes(Start(copy), rand)
      decreases |st.rest|, 2 - st.repeat
    {
      st := Pass(st, rand);
      passes := passes + 1;
    }
    StitchedPasses(copy, rand);
    groups := st.result;
  }
}
