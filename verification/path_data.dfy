/** The SVG path data `render` builds from the stitched groups
    (docs/js/imgVictor.js:131-134): each group becomes `'M'` followed by one
    chunk `"x1,y1 Lx2,y2 "` per entry, the chunks joined by `'L'`; the path's
    `d` is those strings concatenated in group order.

    The partner of the builder is a parser for exactly that text, proved to
    read back every group's coordinates: the path data determines the groups. */
module PathData {
  import opened Segments
  import opened Stitcher
  import opened Basics

  /** A value read from the front of the text, and the text after it. */
  datatype Parsed<T> = Parsed(value: T, rest: string)

  predicate IsDigit(c: char) { '0' <= c <= '9' }

  predicate AllDigits(s: string)
  {
    forall i :: 0 <= i < |s| ==> IsDigit(s[i])
  }

  function DigitChar(d: nat): (c: char)
    requires d < 10
    ensures IsDigit(c) && c as int - '0' as int == d
  {
    ('0' as int + d) as char
  }

  /** The decimal numeral of n, as `${n}` writes a non-negative whole number. */
  function NatStr(n: nat): (s: string)
    ensures s != [] && AllDigits(s)
  {
    if n < 10 then [DigitChar(n)] else NatStr(n / 10) + [DigitChar(n % 10)]
  }

  /** `${n}` for a whole number: a minus sign before the numeral of |n|. */
  function IntStr(n: int): (s: string)
    ensures s != [] && (s[0] == '-' || IsDigit(s[0]))
  {
    if n < 0 then "-" + NatStr(-n) else NatStr(n)
  }

  /** `${x},${y}`. */
  function PointStr(x: int, y: int): string
  {
    IntStr(x) + "," + IntStr(y)
  }

  /** The text of one entry `[x1, y1, x2, y2]`: `${x1},${y1} L${x2},${y2} `. */
  function Chunk(s: Line): string
  {
    PointStr(s.x1, s.y1) + " " + "L" + PointStr(s.x2, s.y2) + " "
  }

  /** `group.map(chunk)`: one chunk per entry, in order. */
  function Chunks(g: Group): (cs: seq<string>)
    ensures |cs| == |g| && forall i :: 0 <= i < |g| ==> cs[i] == Chunk(g[i].line)
  {
    if g == [] then [] else [Chunk(g[0].line)] + Chunks(g[1..])
  }

  /** `parts.join(sep)`. */
  function Join(parts: seq<string>, sep: string): (r: string)
    ensures parts != [] ==> |parts[0]| <= |r| && r[..|parts[0]|] == parts[0]
  {
    if parts == [] then ""
    else if |parts| == 1 then parts[0]
    else parts[0] + sep + Join(parts[1..], sep)
  }

  /** The path text of one group. */
  function GroupPath(g: Group): (p: string)
    ensures p != [] && p[0] == 'M'
    ensures |p| == 1 <==> g == []
    ensures g != [] ==> p[1] != 'M'
  {
    "M" + Join(Chunks(g), "L")
  }

  /** `dList`: one path text per group, in group order. */
  function DList(gs: seq<Group>): (ds: seq<string>)
    ensures |ds| == |gs| && forall i :: 0 <= i < |gs| ==> ds[i] == GroupPath(gs[i])
  {
    if gs == [] then [] else [GroupPath(gs[0])] + DList(gs[1..])
  }

  /** The path's `d` attribute, `dList.join('')`. */
  function PathD(gs: seq<Group>): (d: string)
    ensures d == [] <==> gs == []
    ensures gs != [] ==> d[0] == 'M'
  {
    Join(DList(gs), "")
  }

  /** The coordinates a group carries, without the entry kinds. */
  function LinesOf(g: Group): (ls: seq<Line>)
    ensures |ls| == |g| && forall i :: 0 <= i < |g| ==> ls[i] == g[i].line
  {
    if g == [] then [] else [g[0].line] + LinesOf(g[1..])
  }

  function AllLinesOf(gs: seq<Group>): (lss: seq<seq<Line>>)
    ensures |lss| == |gs| && forall i :: 0 <= i < |gs| ==> lss[i] == LinesOf(gs[i])
  {
    if gs == [] then [] else [LinesOf(gs[0])] + AllLinesOf(gs[1..])
  }

  // ---- Reading the path text back ----

  /** The number of digits at the front of s. */
  function DigitRun(s: string): (k: nat)
    ensures k <= |s| && AllDigits(s[..k]) && (k < |s| ==> !IsDigit(s[k]))
  {
    if s == [] || !IsDigit(s[0]) then 0 else 1 + DigitRun(s[1..])
  }

  /** The value of a decimal numeral. */
  function Value(ds: string): nat
    requires AllDigits(ds)
  {
    if ds == [] then 0
    else Value(ds[..|ds| - 1]) * 10 + (ds[|ds| - 1] as int - '0' as int)
  }

  function ParseNat(s: string): (r: Option<Parsed<nat>>)
    ensures r.Some? ==> |r.value.rest| < |s|
  {
    var k := DigitRun(s);
    if k == 0 then None else Some(Parsed(Value(s[..k]), s[k..]))
  }

  function ParseInt(s: string): (r: Option<Parsed<int>>)
    ensures r.Some? ==> |r.value.rest| < |s|
  {
    if s != [] && s[0] == '-' then
      match ParseNat(s[1..])
      case None => None
      case Some(Parsed(n, rest)) => Some(Parsed(0 - n, rest))
    else
      match ParseNat(s)
      case None => None
      case Some(Parsed(n, rest)) => Some(Parsed(n as int, rest))
  }

  /** The text after the character c, if the text starts with c. */
  function Expect(s: string, c: char): (r: Option<string>)
    ensures r.Some? ==> |r.value| == |s| - 1
  {
    if s != [] && s[0] == c then Some(s[1..]) else None
  }

  function ParsePoint(s: string): (r: Option<Parsed<(int, int)>>)
    ensures r.Some? ==> |r.value.rest| < |s|
  {
    var x :- ParseInt(s);
    var t :- Expect(x.rest, ',');
    var y :- ParseInt(t);
    Some(Parsed((x.value, y.value), y.rest))
  }

  function ParseChunk(s: string): (r: Option<Parsed<Line>>)
    ensures r.Some? ==> |r.value.rest| < |s|
  {
    var p :- ParsePoint(s);
    var t1 :- Expect(p.rest, ' ');
    var t2 :- Expect(t1, 'L');
    var q :- ParsePoint(t2);
    var t3 :- Expect(q.rest, ' ');
    Some(Parsed(Line(p.value.0, p.value.1, q.value.0, q.value.1), t3))
  }

  /** One or more chunks separated by `'L'`. */
  function ParseChunks(s: string): (r: Option<Parsed<seq<Line>>>)
    ensures r.Some? ==> |r.value.rest| < |s|
    decreases |s|
  {
    var c :- ParseChunk(s);
    if c.rest != [] && c.rest[0] == 'L' then
      var more :- ParseChunks(c.rest[1..]);
      Some(Parsed([c.value] + more.value, more.rest))
    else
      Some(Parsed([c.value], c.rest))
  }

  /** `'M'` and the group's chunks; a group without entries is the bare `'M'`. */
  function ParseGroup(s: string): (r: Option<Parsed<seq<Line>>>)
    ensures r.Some? ==> |r.value.rest| < |s|
  {
    var t :- Expect(s, 'M');
    if t == [] || t[0] == 'M' then Some(Parsed([], t)) else ParseChunks(t)
  }

  /** The groups of a whole path text. */
  function ParsePath(s: string): Option<seq<seq<Line>>>
    decreases |s|
  {
    if s == [] then Some([])
    else
      var g :- ParseGroup(s);
      var gs :- ParsePath(g.rest);
      Some([g.value] + gs)
  }

  // ---- The round trip ----

  lemma {:induction false} DigitRunOf(ds: string, r: string)
    requires AllDigits(ds) && (r == [] || !IsDigit(r[0]))
    ensures DigitRun(ds + r) == |ds|
  {
    if ds != [] {
      assert (ds + r)[1..] == ds[1..] + r;
      DigitRunOf(ds[1..], r);
    } else {
      assert ds + r == r;
    }
  }

  lemma {:induction false} ValueOfNatStr(n: nat)
    ensures Value(NatStr(n)) == n
  {
    if n >= 10 {
      var s := NatStr(n);
      assert s[..|s| - 1] == NatStr(n / 10);
      ValueOfNatStr(n / 10);
    } else {
      assert NatStr(n)[..0] == [];
    }
  }

  lemma ParseNatOf(n: nat, r: string)
    requires r == [] || !IsDigit(r[0])
    ensures ParseNat(NatStr(n) + r) == Some(Parsed(n, r))
  {
    var s := NatStr(n);
    DigitRunOf(s, r);
    assert (s + r)[..|s|] == s;
    assert (s + r)[|s|..] == r;
    ValueOfNatStr(n);
  }

  /** Reading the numeral `${n}` back gives n, when no digit follows it. */
  lemma ParseIntOf(n: int, r: string)
    requires r == [] || !IsDigit(r[0])
    ensures ParseInt(IntStr(n) + r) == Some(Parsed(n, r))
  {
    if n < 0 {
      AppendAssoc("-", NatStr(-n), r);
      DropFirst('-', NatStr(-n) + r);
      ParseNatOf(-n, r);
    } else {
      assert IsDigit((NatStr(n) + r)[0]);
      ParseNatOf(n, r);
    }
  }

  /** Reading `${x},${y}` back gives the point, when no digit follows it. */
  lemma ParsePointOf(x: int, y: int, r: string)
    requires r == [] || !IsDigit(r[0])
    ensures ParsePoint(PointStr(x, y) + r) == Some(Parsed((x, y), r))
  {
    var t := IntStr(y) + r;
    AppendAssoc(IntStr(x) + ",", IntStr(y), r);
    AppendAssoc(IntStr(x), ",", t);
    ParseIntOf(x, "," + t);
    DropFirst(',', t);
    ParseIntOf(y, r);
  }

  /** A chunk followed by r, regrouped from the right. */
  lemma ChunkText(s: Line, r: string)
    ensures Chunk(s) + r == PointStr(s.x1, s.y1) + (" " + ("L" + (PointStr(s.x2, s.y2) + (" " + r))))
  {
    // Dafny finds this alone, but at a high and seed-dependent cost; one
    // regrouping per step keeps it small.
    var p, q := PointStr(s.x1, s.y1), PointStr(s.x2, s.y2);
    calc {
      Chunk(s) + r;
      ((((p + " ") + "L") + q) + " ") + r;
      { AppendAssoc(((p + " ") + "L") + q, " ", r); }
      (((p + " ") + "L") + q) + (" " + r);
      { AppendAssoc((p + " ") + "L", q, " " + r); }
      ((p + " ") + "L") + (q + (" " + r));
      { AppendAssoc(p + " ", "L", q + (" " + r)); }
      (p + " ") + ("L" + (q + (" " + r)));
      { AppendAssoc(p, " ", "L" + (q + (" " + r))); }
      p + (" " + ("L" + (q + (" " + r))));
    }
  }

  /** Reading a chunk back gives its entry's coordinates. */
  lemma ParseChunkOf(s: Line, r: string)
    ensures ParseChunk(Chunk(s) + r) == Some(Parsed(s, r))
  {
    var t3 := " " + r;
    var t2 := PointStr(s.x2, s.y2) + t3;
    var t1 := "L" + t2;
    var t0 := " " + t1;
    ChunkText(s, r);
    ParsePointOf(s.x1, s.y1, t0);
    DropFirst(' ', t1);
    DropFirst('L', t2);
    ParsePointOf(s.x2, s.y2, t3);
    DropFirst(' ', r);
  }

  /** Chunk text starts with a minus sign or a digit, never with `'M'`. */
  lemma ChunkStart(s: Line, r: string)
    ensures (Chunk(s) + r)[0] != 'M'
  {
    ChunkText(s, r);
    AppendAssoc(IntStr(s.x1), "," + IntStr(s.y1), " " + ("L" + (PointStr(s.x2, s.y2) + (" " + r))));
  }

  /** The chunks of a group of two or more entries followed by r: the first
      chunk, then `'L'` and the rest. */
  lemma JoinText(g: Group, r: string)
    requires |g| > 1
    ensures Join(Chunks(g), "L") + r
            == Chunk(g[0].line) + ("L" + (Join(Chunks(g[1..]), "L") + r))
  {
    var c, rest := Chunk(g[0].line), Join(Chunks(g[1..]), "L");
    assert Chunks(g)[1..] == Chunks(g[1..]);
    assert Join(Chunks(g), "L") == (c + "L") + rest;
    AppendAssoc(c + "L", rest, r);
    AppendAssoc(c, "L", rest + r);
  }

  lemma {:induction false} ParseChunksOf(g: Group, r: string)
    requires g != [] && (r == [] || r[0] == 'M')
    ensures ParseChunks(Join(Chunks(g), "L") + r) == Some(Parsed(LinesOf(g), r))
    decreases |g|
  {
    if |g| == 1 {
      ParseChunkOf(g[0].line, r);
      assert LinesOf(g) == [g[0].line];
    } else {
      var tail := Join(Chunks(g[1..]), "L") + r;
      JoinText(g, r);
      ParseChunkOf(g[0].line, "L" + tail);
      DropFirst('L', tail);
      ParseChunksOf(g[1..], r);
      assert LinesOf(g) == [g[0].line] + LinesOf(g[1..]);
    }
  }

  /** The text of a group with entries does not start with `'M'` after the
      group's own `'M'`. */
  lemma ChunksStart(g: Group, r: string)
    requires g != []
    ensures (Join(Chunks(g), "L") + r)[0] != 'M'
  {
    if |g| == 1 {
      ChunkStart(g[0].line, r);
    } else {
      JoinText(g, r);
      ChunkStart(g[0].line, "L" + (Join(Chunks(g[1..]), "L") + r));
    }
  }

  /** Reading one group's path text back gives its coordinates, when the text
      after it is empty or another group. */
  lemma ParseGroupOf(g: Group, r: string)
    requires r == [] || r[0] == 'M'
    ensures ParseGroup(GroupPath(g) + r) == Some(Parsed(LinesOf(g), r))
  {
    var t := Join(Chunks(g), "L") + r;
    AppendAssoc("M", Join(Chunks(g), "L"), r);
    DropFirst('M', t);
    if g != [] {
      ParseChunksOf(g, r);
      ChunksStart(g, r);
    } else {
      assert t == r;
    }
  }

  lemma JoinEmptySep(ds: seq<string>)
    requires ds != []
    ensures Join(ds, "") == ds[0] + Join(ds[1..], "")
  {
    if |ds| == 1 {
      assert ds[1..] == [];
      assert ds[0] + "" == ds[0];
    } else {
      assert ds[0] + "" == ds[0];
    }
  }

  /** Reading the path's `d` back gives the coordinates of every group, in
      group order: no two different lists of groups have the same path. */
  lemma {:induction false} PathRoundTrip(gs: seq<Group>)
    ensures ParsePath(PathD(gs)) == Some(AllLinesOf(gs))
    decreases |gs|
  {
    if gs != [] {
      var ds := DList(gs);
      JoinEmptySep(ds);
      assert ds[1..] == DList(gs[1..]);
      var r := PathD(gs[1..]);
      assert PathD(gs) == GroupPath(gs[0]) + r;
      if gs[1..] != [] {
        JoinEmptySep(DList(gs[1..]));
        assert r == GroupPath(gs[1]) + PathD(gs[2..]) by {
          assert DList(gs[1..])[1..] == DList(gs[2..]);
        }
      }
      ParseGroupOf(gs[0], r);
      PathRoundTrip(gs[1..]);
      assert AllLinesOf(gs) == [LinesOf(gs[0])] + AllLinesOf(gs[1..]);
    }
  }

  /** Two lists of groups with the same path text carry the same coordinates. */
  lemma PathDeterminesGroups(a: seq<Group>, b: seq<Group>)
    requires PathD(a) == PathD(b)
    ensures AllLinesOf(a) == AllLinesOf(b)
  {
    PathRoundTrip(a);
    PathRoundTrip(b);
  }
}
