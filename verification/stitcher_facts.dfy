/** What the stitcher guarantees about the groups it returns: every detected
    segment appears exactly once (possibly reversed), each group is a chain
    whose steps are shorter than 15, no group holds three bridges in a row, a
    new group is opened only after exactly two bridges, and the loop makes at
    most 3·(n−1) passes. Each is an invariant of `Step`, carried through `Run`. */
module StitcherFacts {
  import opened Segments
  import opened Stitcher

  /** The number of bridges at the end of a group. */
  function Trailing(g: Group): nat
  {
    if g == [] || !Last(g).Bridge? then 0 else 1 + Trailing(g[..|g| - 1])
  }

  /** Entry k + 1 starts less than 15 from where entry k ends. */
  ghost predicate Linked(g: Group, k: int)
    requires 0 <= k < |g| - 1
  {
    StartGap(g[k + 1].line, g[k].line.x2, g[k].line.y2) < GapSq
  }

  ghost predicate Chained(g: Group)
  {
    forall k :: 0 <= k < |g| - 1 ==> Linked(g, k)
  }

  ghost predicate ThreeBridgesAt(g: Group, k: int)
    requires 0 <= k < |g| - 2
  {
    g[k].Bridge? && g[k + 1].Bridge? && g[k + 2].Bridge?
  }

  ghost predicate NoThreeBridges(g: Group)
  {
    forall k :: 0 <= k < |g| - 2 ==> !ThreeBridgesAt(g, k)
  }

  /** A group as the stitcher builds it: it opens with a detected segment, it is
      a chain, and it never has three bridges in a row. */
  ghost predicate GoodGroup(g: Group)
  {
    g != [] && g[0].Detected? && Chained(g) && NoThreeBridges(g)
  }

  /** The detected segments of a group, in order. */
  function DetectedIn(g: Group): seq<Line>
  {
    if g == [] then []
    else DetectedIn(g[..|g| - 1]) + (if Last(g).Detected? then [Last(g).line] else [])
  }

  function BridgesIn(g: Group): nat
  {
    if g == [] then 0 else BridgesIn(g[..|g| - 1]) + (if Last(g).Bridge? then 1 else 0)
  }

  /** The detected segments of all groups, in order. */
  function DetectedLines(gs: seq<Group>): seq<Line>
  {
    if gs == [] then [] else DetectedLines(gs[..|gs| - 1]) + DetectedIn(Last(gs))
  }

  function BridgeCount(gs: seq<Group>): nat
  {
    if gs == [] then 0 else BridgeCount(gs[..|gs| - 1]) + BridgesIn(Last(gs))
  }

  /** Every group is good, and every group but the open one ends with exactly
      two bridges. */
  ghost predicate Shaped(gs: seq<Group>)
  {
    && (forall i :: 0 <= i < |gs| ==> GoodGroup(gs[i]))
    && (forall i :: 0 <= i < |gs| - 1 ==> Trailing(gs[i]) == 2)
  }

  /** Each bridge took two random numbers, and there are at most two bridges
      for each segment consumed after the first, plus those still open. */
  ghost predicate Counted(st: Stitch, lines: seq<Line>)
  {
    && st.drawn == 2 * BridgeCount(st.result)
    && BridgeCount(st.result) + 2 <= 2 * (|lines| - |st.rest|) + st.repeat
  }

  /** The detected entries and the segments still to visit are, as undirected
      segments, exactly the input. */
  ghost predicate Covered(st: Stitch, lines: seq<Line>)
  {
    Bag(DetectedLines(st.result)) + Bag(st.rest) == Bag(lines)
  }

  /** The invariant of the loop of `groupLines(lines)`. */
  ghost predicate Inv(st: Stitch, lines: seq<Line>)
  {
    && WellFormed(st)
    && lines != []
    && Shaped(st.result)
    && st.result[0][0] == Detected(lines[0])
    && Trailing(Last(st.result)) == st.repeat
    && (st.rest == [] ==> st.repeat == 0)
    && Counted(st, lines)
    && Covered(st, lines)
  }

  lemma AppendEntryCounts(gs: seq<Group>, e: Entry)
    requires gs != []
    ensures DetectedLines(AppendToLast(gs, e))
            == DetectedLines(gs) + (if e.Detected? then [e.line] else [])
    ensures BridgeCount(AppendToLast(gs, e)) == BridgeCount(gs) + (if e.Bridge? then 1 else 0)
  {
    var r := AppendToLast(gs, e);
    var g := Last(gs);
    assert r[..|r| - 1] == gs[..|gs| - 1];
    assert (g + [e])[..|g|] == g;
  }

  lemma AppendGroupCounts(gs: seq<Group>, e: Entry)
    ensures DetectedLines(gs + [[e]])
            == DetectedLines(gs) + (if e.Detected? then [e.line] else [])
    ensures BridgeCount(gs + [[e]]) == BridgeCount(gs) + (if e.Bridge? then 1 else 0)
  {
    assert (gs + [[e]])[..|gs|] == gs;
    assert [e][..0] == [];
    assert Last(gs + [[e]]) == [e];
    assert DetectedIn([e]) == (if e.Detected? then [e.line] else []);
    assert BridgesIn([e]) == (if e.Bridge? then 1 else 0);
  }

  /** The group ends with a detected segment followed by exactly two bridges. */
  ghost predicate ClosedByTwoBridges(g: Group)
  {
    |g| >= 3 && g[|g| - 3].Detected? && g[|g| - 2].Bridge? && g[|g| - 1].Bridge?
  }

  /** Two bridges at the end of a group that opens with a detected segment are
      exactly two: the entry before them is a detected segment. */
  lemma TrailingTwo(g: Group)
    requires g != [] && g[0].Detected? && Trailing(g) == 2
    ensures ClosedByTwoBridges(g)
  {
    var g1 := g[..|g| - 1];
    var g2 := g1[..|g1| - 1];
    assert g1 != [] && Trailing(g1) == 1;
    assert g2 != [] && Trailing(g2) == 0;
    assert g2[0] == g[0];
  }

  /** Appending an entry that starts less than 15 from the end of a good group
      keeps it good, provided a bridge is not the third in a row. */
  lemma GroupGrows(g: Group, e: Entry)
    requires GoodGroup(g)
    requires StartGap(e.line, Last(g).line.x2, Last(g).line.y2) < GapSq
    requires e.Bridge? ==> Trailing(g) < 2
    ensures GoodGroup(g + [e])
    ensures Trailing(g + [e]) == if e.Bridge? then Trailing(g) + 1 else 0
  {
    var h := g + [e];
    assert h[..|g|] == g;
    forall k | 0 <= k < |h| - 1
      ensures Linked(h, k)
    {
      if k < |g| - 1 {
        assert Linked(g, k);
      }
    }
    forall k | 0 <= k < |h| - 2
      ensures !ThreeBridgesAt(h, k)
    {
      if k < |g| - 2 {
        assert !ThreeBridgesAt(g, k);
      } else if e.Bridge? && g[|g| - 1].Bridge? {
        var g1 := g[..|g| - 1];
        assert g1 != [] && Last(g1) == g[|g| - 2];
        assert Trailing(g) == 1 + Trailing(g1);
      }
    }
  }

  lemma StartKeeps(lines: seq<Line>)
    requires lines != [] && AllInBox(lines, CoordBound)
    ensures Inv(Start(lines), lines)
  {
    var st := Start(lines);
    assert [Detected(lines[0])][..0] == [];
    assert DetectedIn([Detected(lines[0])]) == [lines[0]];
    assert DetectedLines(st.result) == [lines[0]];
    assert lines == [lines[0]] + lines[1..];
    BagConcat([lines[0]], lines[1..]);
    assert [lines[0]][..0] == [];
    assert BridgesIn([Detected(lines[0])]) == 0;
    assert BridgeCount(st.result) == 0;
  }

  /** Growing the open group keeps the groups shaped. */
  lemma ShapedAppend(gs: seq<Group>, e: Entry)
    requires gs != [] && Shaped(gs)
    requires StartGap(e.line, Last(Last(gs)).line.x2, Last(Last(gs)).line.y2) < GapSq
    requires e.Bridge? ==> Trailing(Last(gs)) < 2
    ensures Shaped(AppendToLast(gs, e))
    ensures Trailing(Last(AppendToLast(gs, e))) == if e.Bridge? then Trailing(Last(gs)) + 1 else 0
  {
    var r := AppendToLast(gs, e);
    GroupGrows(Last(gs), e);
    forall j | 0 <= j < |r|
      ensures GoodGroup(r[j])
    {
      if j < |r| - 1 {
        assert r[j] == gs[j];
      }
    }
  }

  /** Closing a group that ends with two bridges keeps the groups shaped. */
  lemma ShapedNewGroup(gs: seq<Group>, e: Entry)
    requires gs != [] && Shaped(gs) && Trailing(Last(gs)) == 2 && e.Detected?
    ensures Shaped(gs + [[e]])
  {
    var r := gs + [[e]];
    assert [e][..0] == [];
    forall j | 0 <= j < |r|
      ensures GoodGroup(r[j])
    {
      if j < |gs| {
        assert r[j] == gs[j];
      }
    }
    forall j | 0 <= j < |r| - 1
      ensures Trailing(r[j]) == 2
    {
      assert r[j] == gs[j];
    }
  }

  /** Moving segment i of `rest`, turned either way, to the detected entries
      keeps the coverage. */
  lemma CoveredMove(detected: seq<Line>, rest: seq<Line>, lines: seq<Line>, i: int, next: Line)
    requires 0 <= i < |rest| && Canon(next) == Canon(rest[i])
    requires Bag(detected) + Bag(rest) == Bag(lines)
    ensures Bag(detected + [next]) + Bag(Remove(rest, i)) == Bag(lines)
  {
    BagRemove(rest, i);
    BagConcat(detected, [next]);
    assert [next][..0] == [];
    assert Bag([next]) == multiset{Canon(next)};
  }

  /** The nearest remaining segment, turned towards the end of `l`: what a
      pass of the loop consumes, if it consumes one. */
  lemma Selected(st: Stitch, rand: nat -> Draw) returns (i: int, next: Line)
    requires WellFormed(st) && st.rest != []
    ensures 0 <= i < |st.rest| && IsNearest(st.rest, st.l.x2, st.l.y2, i)
    ensures next == Orient(st.rest[i], st.l.x2, st.l.y2)
    ensures Canon(next) == Canon(st.rest[i]) && InBox(next, CoordBound)
    ensures StartGap(next, st.l.x2, st.l.y2) == Gap(st.rest[i], st.l.x2, st.l.y2)
  {
    var x, y := st.l.x2, st.l.y2;
    GapBelowSentinel(st.rest[0], x, y);
    i := Nearest(st.rest, x, y).index;
    next := Orient(st.rest[i], x, y);
    OrientNearFirst(st.rest[i], x, y);
    CanonMatch(next, st.rest[i]);
  }

  /** A pass keeps the groups shaped, keeps the first entry, and `repeat`
      counts the bridges at the end of the open group. */
  lemma StepShapes(st: Stitch, rand: nat -> Draw, first: Entry)
    requires WellFormed(st) && st.rest != []
    requires Shaped(st.result) && st.result[0][0] == first && Trailing(Last(st.result)) == st.repeat
    ensures var r := Step(st, rand);
            Shaped(r.result) && r.result[0][0] == first && Trailing(Last(r.result)) == r.repeat
  {
    var i, next := Selected(st, rand);
    StepSelects(st, rand, i);
    if Gap(st.rest[i], st.l.x2, st.l.y2) < GapSq {
      ShapedAppend(st.result, Detected(next));
    } else if st.repeat == 2 {
      ShapedNewGroup(st.result, Detected(next));
      assert [Detected(next)][..0] == [];
    } else {
      var back := BridgeFrom(st.l, rand(st.drawn), rand(st.drawn + 1));
      ShapedAppend(st.result, Bridge(back));
    }
  }

  /** A pass keeps the counts of bridges and of random numbers taken. */
  lemma StepCounts(st: Stitch, lines: seq<Line>, rand: nat -> Draw)
    requires WellFormed(st) && st.rest != [] && Counted(st, lines)
    ensures Counted(Step(st, rand), lines)
  {
    var i, next := Selected(st, rand);
    StepSelects(st, rand, i);
    if Gap(st.rest[i], st.l.x2, st.l.y2) < GapSq {
      AppendEntryCounts(st.result, Detected(next));
    } else if st.repeat == 2 {
      AppendGroupCounts(st.result, Detected(next));
    } else {
      var back := BridgeFrom(st.l, rand(st.drawn), rand(st.drawn + 1));
      AppendEntryCounts(st.result, Bridge(back));
    }
  }

  /** A pass keeps the coverage of the input. */
  lemma StepCovers(st: Stitch, lines: seq<Line>, rand: nat -> Draw)
    requires WellFormed(st) && st.rest != [] && Covered(st, lines)
    ensures Covered(Step(st, rand), lines)
  {
    var i, next := Selected(st, rand);
    StepSelects(st, rand, i);
    if Gap(st.rest[i], st.l.x2, st.l.y2) < GapSq {
      AppendEntryCounts(st.result, Detected(next));
      CoveredMove(DetectedLines(st.result), st.rest, lines, i, next);
    } else if st.repeat == 2 {
      AppendGroupCounts(st.result, Detected(next));
      CoveredMove(DetectedLines(st.result), st.rest, lines, i, next);
    } else {
      var back := BridgeFrom(st.l, rand(st.drawn), rand(st.drawn + 1));
      AppendEntryCounts(st.result, Bridge(back));
      assert DetectedLines(Step(st, rand).result) == DetectedLines(st.result);
    }
  }

  /** Every pass keeps the invariant. */
  lemma StepKeeps(st: Stitch, lines: seq<Line>, rand: nat -> Draw)
    requires Inv(st, lines) && st.rest != []
    ensures Inv(Step(st, rand), lines)
  {
    StepShapes(st, rand, Detected(lines[0]));
    StepCounts(st, lines, rand);
    StepCovers(st, lines, rand);
  }

  lemma {:induction false} RunKeeps(st: Stitch, lines: seq<Line>, rand: nat -> Draw)
    requires Inv(st, lines)
    ensures Inv(Run(st, rand), lines)
    decreases |st.rest|, 2 - st.repeat
  {
    if st.rest != [] {
      StepKeeps(st, lines, rand);
      RunKeeps(Step(st, rand), lines, rand);
    }
  }

  /** The list holds the segment x, as given or with its endpoint pairs swapped. */
  ghost predicate HasSegment(ls: seq<Line>, x: Line)
  {
    exists k :: 0 <= k < |ls| && (ls[k] == x || ls[k] == Reversed(x))
  }

  /** A segment is in the bag of a list exactly when the list holds it as given
      or reversed. */
  lemma {:induction false} BagHas(ls: seq<Line>, x: Line)
    ensures Canon(x) in Bag(ls) <==> HasSegment(ls, x)
  {
    if ls != [] {
      var init := ls[..|ls| - 1];
      BagHas(init, x);
      CanonMatch(Last(ls), x);
      if Canon(x) in Bag(init) {
        var k :| 0 <= k < |init| && (init[k] == x || init[k] == Reversed(x));
        assert ls[k] == init[k];
      }
      if HasSegment(ls, x) {
        var k :| 0 <= k < |ls| && (ls[k] == x || ls[k] == Reversed(x));
        CanonMatch(ls[k], x);
        if k < |init| {
          assert init[k] == ls[k];
        }
      }
    }
  }

  /** The loop ends in a state that keeps the invariant, with `rest` empty. */
  lemma Finished(lines: seq<Line>, rand: nat -> Draw) returns (st: Stitch)
    requires lines != [] && AllInBox(lines, CoordBound)
    ensures Inv(st, lines) && st.rest == [] && st.repeat == 0
    ensures st.result == Stitched(lines, rand)
  {
    StartKeeps(lines);
    RunKeeps(Start(lines), lines, rand);
    st := Run(Start(lines), rand);
  }

  /** The detected entries of the result are the input, each segment exactly
      once, as given or reversed, and no other segment. */
  lemma StitchedCoverage(lines: seq<Line>, rand: nat -> Draw)
    requires lines != [] && AllInBox(lines, CoordBound)
    ensures Bag(DetectedLines(Stitched(lines, rand))) == Bag(lines)
    ensures |DetectedLines(Stitched(lines, rand))| == |lines|
  {
    var st := Finished(lines, rand);
    assert Bag(st.rest) == multiset{};
    BagSize(DetectedLines(st.result));
    BagSize(lines);
  }

  /** The groups of a non-empty input:
      - every group is non-empty, opens with a detected segment, is a chain of
        steps shorter than 15, and has no three bridges in a row;
      - the first group opens with `lines[0]` as given;
      - every group but the last ends with exactly two bridges after a
        detected segment, and the last group ends with a detected segment. */
  lemma StitchedGroups(lines: seq<Line>, rand: nat -> Draw)
    requires lines != [] && AllInBox(lines, CoordBound)
    ensures var gs := Stitched(lines, rand);
            && (forall i :: 0 <= i < |gs| ==> GoodGroup(gs[i]))
            && gs[0][0] == Detected(lines[0])
            && (forall i :: 0 <= i < |gs| - 1 ==> ClosedByTwoBridges(gs[i]))
            && Last(Last(gs)).Detected?
  {
    var st := Finished(lines, rand);
    var gs := st.result;
    forall i | 0 <= i < |gs| - 1
      ensures ClosedByTwoBridges(gs[i])
    {
      assert GoodGroup(gs[i]);
      TrailingTwo(gs[i]);
    }
  }

  /** A non-empty input of n segments gets at most 2·(n−1) bridges. */
  lemma StitchedBridges(lines: seq<Line>, rand: nat -> Draw)
    requires lines != [] && AllInBox(lines, CoordBound)
    ensures BridgeCount(Stitched(lines, rand)) <= 2 * (|lines| - 1)
  {
    var st := Finished(lines, rand);
  }

  /** When two lists hold the same undirected segments, every element of the
      first is in the second, as given or reversed. */
  lemma SameBagCovers(a: seq<Line>, b: seq<Line>)
    requires Bag(a) == Bag(b)
    ensures forall j :: 0 <= j < |a| ==> HasSegment(b, a[j])
  {
    forall j | 0 <= j < |a|
      ensures HasSegment(b, a[j])
    {
      BagHas(a, a[j]);
      BagHas(b, a[j]);
    }
  }

  /** Every input segment is among the detected entries, as given or reversed,
      and every detected entry is an input segment, as given or reversed. */
  lemma StitchedCovers(lines: seq<Line>, rand: nat -> Draw)
    requires lines != [] && AllInBox(lines, CoordBound)
    ensures forall j :: 0 <= j < |lines| ==> HasSegment(DetectedLines(Stitched(lines, rand)), lines[j])
    ensures var d := DetectedLines(Stitched(lines, rand));
            forall k :: 0 <= k < |d| ==> HasSegment(lines, d[k])
  {
    StitchedCoverage(lines, rand);
    var d := DetectedLines(Stitched(lines, rand));
    SameBagCovers(lines, d);
    SameBagCovers(d, lines);
  }
}
