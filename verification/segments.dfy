/** Line segments as the image's line detector reports them, and the
    distance arithmetic the stitcher uses to choose and orient the next one.
    Coordinates are integers; distances are compared squared, so that
    `Math.hypot(dx, dy) < 15` becomes `dx*dx + dy*dy < 225`. */
module Segments {
  import opened Basics

  datatype Option<T> = None | Some(value: T) {
    predicate IsFailure() { None? }
    function PropagateFailure<U>(): Option<U> requires None? { None }
    function Extract(): T requires Some? { value }
  }

  /** A segment `[x1, y1, x2, y2]`, drawn from (x1, y1) to (x2, y2). */
  datatype Line = Line(x1: int, y1: int, x2: int, y2: int)

  /** The gap below which the next segment continues the open group. */
  const GapThreshold: int := 15
  const GapSq: int := GapThreshold * GapThreshold

  /** `Number.MAX_SAFE_INTEGER`, the distance the nearest-segment search starts from. */
  const MaxSafeInteger: int := 9007199254740991
  const Sentinel: int := MaxSafeInteger * MaxSafeInteger

  /** Every coordinate the detector reports lies inside the image; this bound is
      far larger than any canvas and keeps every distance below the sentinel. */
  const CoordBound: int := 1000000000

  /** The segment with its endpoint pairs swapped: `[x2, y2, x1, y1]`. */
  function Reversed(s: Line): Line
  {
    Line(s.x2, s.y2, s.x1, s.y1)
  }

  function Sq(a: int): int { a * a }

  /** Squared Euclidean distance between (px, py) and (qx, qy). */
  function DistSq(px: int, py: int, qx: int, qy: int): int
  {
    Sq(px - qx) + Sq(py - qy)
  }

  /** Squared distance from the segment's first endpoint to (x, y). */
  function StartGap(s: Line, x: int, y: int): int { DistSq(s.x1, s.y1, x, y) }

  /** Squared distance from the segment's second endpoint to (x, y). */
  function EndGap(s: Line, x: int, y: int): int { DistSq(s.x2, s.y2, x, y) }

  /** Squared distance from (x, y) to the nearer endpoint of the segment. */
  function Gap(s: Line, x: int, y: int): (g: int)
    ensures g <= StartGap(s, x, y) && g <= EndGap(s, x, y)
    ensures g == StartGap(s, x, y) || g == EndGap(s, x, y)
  {
    if StartGap(s, x, y) <= EndGap(s, x, y) then StartGap(s, x, y) else EndGap(s, x, y)
  }

  /** The segment turned so that its nearer endpoint to (x, y) comes first;
      it is reversed exactly when the second endpoint attains the minimum,
      so a tie between the two endpoints reverses it. */
  function Orient(s: Line, x: int, y: int): (o: Line)
    ensures o == s || o == Reversed(s)
    ensures StartGap(o, x, y) == Gap(s, x, y)
  {
    if EndGap(s, x, y) <= StartGap(s, x, y) then Reversed(s) else s
  }

  /** The segment is turned exactly when its second endpoint attains the
      minimum; for a segment equal to its own turn, either reading holds. */
  lemma OrientNearFirst(s: Line, x: int, y: int)
    ensures Orient(s, x, y) == Reversed(s) <==> EndGap(s, x, y) == Gap(s, x, y)
  {
  }

  /** All four coordinates of the segment lie in [-k, k]. */
  predicate InBox(s: Line, k: int)
  {
    -k <= s.x1 <= k && -k <= s.y1 <= k && -k <= s.x2 <= k && -k <= s.y2 <= k
  }

  predicate AllInBox(ls: seq<Line>, k: int)
  {
    forall j :: 0 <= j < |ls| ==> InBox(ls[j], k)
  }

  lemma SqBound(a: int, k: int)
    requires 0 <= k && -k <= a <= k
    ensures 0 <= Sq(a) <= k * k
  {
    var b := if a >= 0 then a else -a;
    assert Sq(a) == b * b;
    MulLe(0, b, b);
    MulLe(b, k, b);
    MulLe(b, k, k);
  }

  /** A segment inside the coordinate box is nearer than the search's
      starting distance to any point within 8 of the box. */
  lemma GapBelowSentinel(s: Line, x: int, y: int)
    requires InBox(s, CoordBound)
    requires -(CoordBound + 8) <= x <= CoordBound + 8 && -(CoordBound + 8) <= y <= CoordBound + 8
    ensures Gap(s, x, y) < Sentinel
  {
    var k := 2 * CoordBound + 8;
    SqBound(s.x1 - x, k);
    SqBound(s.y1 - y, k);
    assert StartGap(s, x, y) <= 2 * (k * k);
  }

  /** The lexicographically smaller endpoint first: the same value for a segment
      and its reversal, so it identifies the undirected segment. */
  function Canon(s: Line): Line
  {
    if s.x1 < s.x2 || (s.x1 == s.x2 && s.y1 <= s.y2) then s else Reversed(s)
  }

  /** Two directed segments are the same undirected segment exactly when one
      is the other as given or with its endpoint pairs swapped. */
  lemma CanonMatch(a: Line, b: Line)
    ensures Canon(a) == Canon(b) <==> a == b || a == Reversed(b)
  {
  }

  /** Turning a segment twice gives it back; a turned segment is the same
      undirected segment, and its endpoints trade their distances. */
  lemma ReversedTwice(s: Line, x: int, y: int)
    ensures Reversed(Reversed(s)) == s
    ensures Canon(Reversed(s)) == Canon(s)
    ensures StartGap(Reversed(s), x, y) == EndGap(s, x, y)
    ensures EndGap(Reversed(s), x, y) == StartGap(s, x, y)
    ensures Gap(Reversed(s), x, y) == Gap(s, x, y)
  {
  }

  /** The multiset of undirected segments in a list. */
  function Bag(ls: seq<Line>): multiset<Line>
  {
    if ls == [] then multiset{} else Bag(ls[..|ls| - 1]) + multiset{Canon(ls[|ls| - 1])}
  }

  lemma {:induction false} BagConcat(a: seq<Line>, b: seq<Line>)
    ensures Bag(a + b) == Bag(a) + Bag(b)
    decreases |b|
  {
    if b != [] {
      assert (a + b)[..|a + b| - 1] == a + b[..|b| - 1];
      BagConcat(a, b[..|b| - 1]);
    } else {
      assert a + b == a;
    }
  }

  lemma {:induction false} BagSize(ls: seq<Line>)
    ensures |Bag(ls)| == |ls|
  {
    if ls != [] {
      BagSize(ls[..|ls| - 1]);
    }
  }

  lemma BagSingle(x: Line)
    ensures Bag([x]) == multiset{Canon(x)}
  {
    assert [x][..0] == [];
  }

  /** A list is the part before element i, element i, and the part after it. */
  lemma SplitAt(ls: seq<Line>, i: int)
    requires 0 <= i < |ls|
    ensures ls == (ls[..i] + [ls[i]]) + ls[i + 1..]
  {
    assert ls[i..] == [ls[i]] + ls[i + 1..];
    assert ls == ls[..i] + ls[i..];
    AppendAssoc(ls[..i], [ls[i]], ls[i + 1..]);
  }

  /** Taking element i out of a list takes its undirected segment out of the bag. */
  lemma BagRemove(ls: seq<Line>, i: int)
    requires 0 <= i < |ls|
    ensures Bag(ls) == Bag(ls[..i] + ls[i + 1..]) + multiset{Canon(ls[i])}
  {
    var a, x, b := ls[..i], ls[i], ls[i + 1..];
    calc {
      Bag(ls);
      { SplitAt(ls, i); }
      Bag((a + [x]) + b);
      { BagConcat(a + [x], b); }
      Bag(a + [x]) + Bag(b);
      { BagConcat(a, [x]); BagSingle(x); }
      Bag(a) + multiset{Canon(x)} + Bag(b);
      { BagConcat(a, b); }
      Bag(a + b) + multiset{Canon(x)};
    }
  }
}
