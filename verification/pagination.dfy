/** `paginate(input, size)` of _actions/pagination.js: it copies the input
    list, then for each of the ceil(n / size) page numbers splices the first
    `size` items off the copy into a page, and records the input length and the
    `id` of the item now at the head of the copy (the first item of the next
    page) as the page's cursor. */
module Pagination {
  import opened Basics

  /** The JavaScript values an item's `id` can hold. */
  datatype Value = Undefined | Null | Bool(b: bool) | Num(n: int) | Str(s: string) | Object

  /** `!!v`. */
  predicate Truthy(v: Value)
  {
    match v
    case Undefined => false
    case Null => false
    case Bool(b) => b
    case Num(n) => n != 0
    case Str(s) => s != ""
    case Object => true
  }

  /** An item of the input list: its `id` and whatever else it carries. */
  datatype Node<T> = Node(id: Value, data: T)

  datatype PageInfo = PageInfo(hasNextPage: bool, endCursor: Value)

  datatype Page<T> = Page(nodes: seq<Node<T>>, totalCount: nat, pageInfo: PageInfo)

  function Min(a: int, b: int): int { if a <= b then a else b }

  /** `Math.ceil(n / size)` for whole n and size. */
  function CeilDiv(n: nat, size: nat): nat
    requires size >= 1
  {
    (n + size - 1) / size
  }

  /** `const [next = {}] = list; next.id`: the first item's `id`, or undefined
      when the list is empty. */
  function Cursor<T>(list: seq<Node<T>>): Value
  {
    if |list| == 0 then Undefined else list[0].id
  }

  /** The page built from the spliced `nodes` and what is left of the copy. */
  function MakePage<T>(nodes: seq<Node<T>>, totalCount: nat, left: seq<Node<T>>): Page<T>
  {
    Page(nodes, totalCount, PageInfo(Truthy(Cursor(left)), Cursor(left)))
  }

  /** The pages the remaining `count` steps of the `reduce` add, with `list` the
      copy as those steps find it. */
  function Pages<T>(list: seq<Node<T>>, size: nat, total: nat, count: nat): (ps: seq<Page<T>>)
    requires size >= 1
    ensures |ps| == count
    decreases count
  {
    if count == 0 then []
    else
      var k := Min(size, |list|);
      [MakePage(list[..k], total, list[k..])] + Pages(list[k..], size, total, count - 1)
  }

  /** The pages `paginate(input, size)` returns. */
  function Paginated<T>(input: seq<Node<T>>, size: nat): seq<Page<T>>
    requires size >= 1
  {
    Pages(input, size, |input|, CeilDiv(|input|, size))
  }

  /** `paginate(input, size)`. The caller's array is only read. */
  method Paginate<T>(input: array<Node<T>>, size: nat) returns (pages: seq<Page<T>>)
    requires size >= 1
    ensures pages == Paginated(input[..], size)
  {
    var list := input[..];
    var totalCount := |list|;
    var count := CeilDiv(|list|, size);
    ghost var all := Pages(list, size, totalCount, count);
    pages := [];
    for pageNum := 0 to count
      invariant pages + Pages(list, size, totalCount, count - pageNum) == all
    {
      ghost var before := list;
      var k := Min(size, |list|);
      var nodes := list[..k];
      list := list[k..];
      var next := Cursor(list);
      var page := Page(nodes, totalCount, PageInfo(Truthy(next), next));
      ghost var later := Pages(list, size, totalCount, count - pageNum - 1);
      assert Pages(before, size, totalCount, count - pageNum) == [page] + later;
      assert (pages + [page]) + later == pages + ([page] + later);
      pages := pages + [page];
    }
    assert pages + [] == pages;
  }

  // ---- What the pages are ----

  /** The list without its first m items (all of them when m is too large). */
  function Drop<T>(list: seq<Node<T>>, m: nat): seq<Node<T>>
  {
    list[Min(m, |list|)..]
  }

  /** The concatenation of the pages' `nodes`, in page order. */
  function Flatten<T>(pages: seq<Page<T>>): seq<Node<T>>
  {
    if pages == [] then [] else pages[0].nodes + Flatten(pages[1..])
  }

  /** `Math.ceil(n / size)` is the least page count whose pages hold n items. */
  lemma CeilDivBounds(n: nat, size: nat)
    requires size >= 1
    ensures n <= CeilDiv(n, size) * size
    ensures n > 0 ==> (CeilDiv(n, size) - 1) * size < n
    ensures n == 0 <==> CeilDiv(n, size) == 0
  {
    var q, r := (n + size - 1) / size, (n + size - 1) % size;
    assert n + size - 1 == q * size + r;
    assert (q - 1) * size == q * size - size;
    if q == 0 {
      assert n + size - 1 == r;
    }
  }

  /** For size ≥ 1 there are ceil(n / size) pages: enough to hold every item,
      and one fewer would not; no items give no pages. */
  lemma PageCount<T>(input: seq<Node<T>>, size: nat)
    requires size >= 1
    ensures var ps := Paginated(input, size);
            && |input| <= |ps| * size
            && (|input| > 0 ==> (|ps| - 1) * size < |input|)
            && (ps == [] <==> input == [])
  {
    CeilDivBounds(|input|, size);
  }

  /** The copy after i more pages have been spliced off it. */
  function Spliced<T>(list: seq<Node<T>>, size: nat, i: nat): seq<Node<T>>
    requires size >= 1
  {
    if i == 0 then list else Spliced(list[Min(size, |list|)..], size, i - 1)
  }

  /** After i splices the copy has lost its first i·size items. */
  lemma {:induction false} SplicedIsDrop<T>(list: seq<Node<T>>, size: nat, i: nat)
    requires size >= 1
    ensures Spliced(list, size, i) == Drop(list, i * size)
  {
    if i > 0 {
      var k := Min(size, |list|);
      SplicedIsDrop(list[k..], size, i - 1);
      MulLe(0, i - 1, size);
      assert (i - 1) * size + size == i * size;
    }
  }

  /** Page i of the remaining steps is built from the copy as the i-th step
      finds it. */
  lemma {:induction false} PagesAt<T>(list: seq<Node<T>>, size: nat, total: nat, count: nat, i: nat)
    requires size >= 1 && i < count
    ensures var rest := Spliced(list, size, i);
            Pages(list, size, total, count)[i]
            == MakePage(rest[..Min(size, |rest|)], total, Spliced(list, size, i + 1))
    decreases i
  {
    var k := Min(size, |list|);
    if i > 0 {
      assert Pages(list, size, total, count)[i] == Pages(list[k..], size, total, count - 1)[i - 1];
      PagesAt(list[k..], size, total, count - 1, i - 1);
    }
  }

  /** Page i starts inside the input, and the next page starts `size` later. */
  lemma OffsetBounds(n: nat, size: nat, i: nat)
    requires size >= 1 && i < CeilDiv(n, size)
    ensures 0 <= i * size < n && (i + 1) * size == i * size + size
  {
    CeilDivBounds(n, size);
    MulLe(i, CeilDiv(n, size) - 1, size);
    MulLe(0, i, size);
  }

  lemma PageFromSplices<T>(input: seq<Node<T>>, size: nat, i: nat, lo: nat)
    requires size >= 1 && i < CeilDiv(|input|, size) && lo < |input|
    requires Spliced(input, size, i) == input[lo..]
    requires Spliced(input, size, i + 1) == input[Min(lo + size, |input|)..]
    ensures var hi := Min(lo + size, |input|);
            Paginated(input, size)[i] == MakePage(input[lo..hi], |input|, input[hi..])
  {
    PagesAt(input, size, |input|, CeilDiv(|input|, size), i);
    assert input[lo..][..Min(size, |input| - lo)] == input[lo..Min(lo + size, |input|)];
  }

  /** Page i is built from the input's items i·size up to (i+1)·size or the
      end, with the items after them left in the copy. */
  lemma PageSlice<T>(input: seq<Node<T>>, size: nat, i: nat)
    requires size >= 1 && i < |Paginated(input, size)|
    ensures var lo, hi := i * size, Min(i * size + size, |input|);
            && lo < hi
            && Paginated(input, size)[i] == MakePage(input[lo..hi], |input|, input[hi..])
  {
    OffsetBounds(|input|, size, i);
    SplicedIsDrop(input, size, i);
    SplicedIsDrop(input, size, i + 1);
    PageFromSplices(input, size, i, i * size);
  }

  /** Page i holds the items from i·size up to (i+1)·size or the end, it is not
      empty, every page records the input length, and its cursor is the `id`
      of the item after it: `endCursor` is that id, or undefined when no item
      follows, and `hasNextPage` says whether an item follows and its id is
      truthy. */
  lemma PageAt<T>(input: seq<Node<T>>, size: nat, i: nat)
    requires size >= 1 && i < |Paginated(input, size)|
    ensures var p, n := Paginated(input, size)[i], |input|;
            var lo, hi := i * size, Min(i * size + size, n);
            && lo < hi
            && p.nodes == input[lo..hi]
            && p.totalCount == n
            && p.pageInfo.endCursor == (if hi < n then input[hi].id else Undefined)
            && p.pageInfo.hasNextPage == (hi < n && Truthy(input[hi].id))
  {
    PageSlice(input, size, i);
  }

  /** Every page but the last holds exactly `size` items; the last holds
      between 1 and `size`, and has no next page and no cursor. */
  lemma PageSizes<T>(input: seq<Node<T>>, size: nat)
    requires size >= 1
    ensures var ps := Paginated(input, size);
            && (forall i :: 0 <= i < |ps| - 1 ==> |ps[i].nodes| == size)
            && (ps != [] ==>
                  && 1 <= |ps[|ps| - 1].nodes| <= size
                  && ps[|ps| - 1].pageInfo == PageInfo(false, Undefined))
  {
    var ps := Paginated(input, size);
    var n := |input|;
    CeilDivBounds(n, size);
    forall i | 0 <= i < |ps| - 1
      ensures |ps[i].nodes| == size
    {
      PageAt(input, size, i);
      MulLe(i + 1, |ps| - 1, size);
      assert (i + 1) * size == i * size + size;
    }
    if ps != [] {
      var last := |ps| - 1;
      PageAt(input, size, last);
      assert last * size + size == |ps| * size;
    }
  }

  lemma FlattenCons<T>(p: Page<T>, later: seq<Page<T>>)
    ensures Flatten([p] + later) == p.nodes + Flatten(later)
  {
    assert ([p] + later)[1..] == later;
  }

  /** The remaining steps' pages, followed by what is left of the copy after
      them, are the copy. */
  lemma {:induction false} FlattenPages<T>(list: seq<Node<T>>, size: nat, total: nat, count: nat)
    requires size >= 1
    ensures Flatten(Pages(list, size, total, count)) + Spliced(list, size, count) == list
    decreases count
  {
    if count > 0 {
      var k := Min(size, |list|);
      var later := Pages(list[k..], size, total, count - 1);
      var left := Spliced(list[k..], size, count - 1);
      calc {
        Flatten(Pages(list, size, total, count)) + Spliced(list, size, count);
        { FlattenCons(MakePage(list[..k], total, list[k..]), later); }
        (list[..k] + Flatten(later)) + left;
        { AppendAssoc(list[..k], Flatten(later), left); }
        list[..k] + (Flatten(later) + left);
        { FlattenPages(list[k..], size, total, count - 1); }
        list[..k] + list[k..];
        list;
      }
    } else {
      assert Flatten(Pages(list, size, total, count)) == [];
    }
  }

  /** Concatenating the pages' `nodes` in order gives back the input. */
  lemma PaginateRoundTrip<T>(input: seq<Node<T>>, size: nat)
    requires size >= 1
    ensures Flatten(Paginated(input, size)) == input
  {
    var count := CeilDiv(|input|, size);
    CeilDivBounds(|input|, size);
    FlattenPages(input, size, |input|, count);
    SplicedIsDrop(input, size, count);
    assert Spliced(input, size, count) == [];
    assert Flatten(Paginated(input, size)) + [] == Flatten(Paginated(input, size));
  }
}
