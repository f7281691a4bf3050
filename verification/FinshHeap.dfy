/**
 The shell's heap as values: two address-ordered lists of block headers and the length of every
 block. Splitting, coalescing, allocation, release and collection are functions here, and the
 invariants of the heap are proved about them.
 */
module FinshHeap {

  const HEAP_MAX: nat := 128
  const HEADER: nat := 8
  const NULL: int := -1

  datatype Heap = Heap(free: seq<int>, used: seq<int>, len: map<int, int>)

  // ---- Ordered lists ----

  ghost predicate Sorted(l: seq<int>) {
    forall i, j :: 0 <= i < j < |l| ==> l[i] < l[j]
  }

  function Insert(l: seq<int>, h: int): seq<int> {
    if l == [] || h < l[0] then [h] + l else [l[0]] + Insert(l[1..], h)
  }

  function Remove(l: seq<int>, h: int): seq<int> {
    if l == [] then [] else if l[0] == h then l[1..] else [l[0]] + Remove(l[1..], h)
  }

  lemma SortedTail(l: seq<int>)
    requires Sorted(l) && l != []
    ensures Sorted(l[1..]) && forall x :: x in l[1..] ==> l[0] < x
    ensures forall x :: x in l <==> x == l[0] || x in l[1..]
  {
    assert l == [l[0]] + l[1..];
  }

  lemma SortedCons(x: int, t: seq<int>)
    requires Sorted(t) && forall y :: y in t ==> x < y
    ensures Sorted([x] + t)
    ensures forall y :: y in [x] + t <==> y == x || y in t
  {
    var l := [x] + t;
    forall i, j | 0 <= i < j < |l|
      ensures l[i] < l[j]
    {
      assert l[j] == t[j - 1] && t[j - 1] in t;
      if i > 0 { assert l[i] == t[i - 1]; }
    }
  }

  lemma {:induction false} InsertKeepsOrder(l: seq<int>, h: int)
    requires Sorted(l) && h !in l
    ensures Sorted(Insert(l, h))
    ensures forall x :: x in Insert(l, h) <==> x == h || x in l
    decreases |l|
  {
    hide Sorted;
    if l == [] {
      assert Insert([], h) == [h] + [];
      Singletons(h);
      SortedCons(h, []);
    } else {
      SortedTail(l);
      if h < l[0] {
        SortedCons(h, l);
      } else {
        InsertKeepsOrder(l[1..], h);
        SortedCons(l[0], Insert(l[1..], h));
      }
    }
  }

  lemma Singletons(h: int)
    ensures Sorted([]) && Sorted([h])
  {}

  lemma {:induction false} RemoveKeepsOrder(l: seq<int>, h: int)
    requires Sorted(l)
    ensures Sorted(Remove(l, h))
    ensures forall x :: x in Remove(l, h) <==> x != h && x in l
    decreases |l|
  {
    hide Sorted;
    if l == [] {
    } else {
      SortedTail(l);
      if l[0] != h {
        RemoveKeepsOrder(l[1..], h);
        SortedCons(l[0], Remove(l[1..], h));
      }
    }
  }

  /** Inserting behind the last smaller element. */
  lemma {:induction false} InsertAt(l: seq<int>, h: int, k: nat)
    requires Sorted(l) && k <= |l|
    requires forall i :: 0 <= i < k ==> l[i] < h
    requires k < |l| ==> h < l[k]
    ensures Insert(l, h) == l[..k] + [h] + l[k..]
  {
    if k > 0 {
      InsertAt(l[1..], h, k - 1);
      assert l[..k] == [l[0]] + l[1..][..k - 1];
    }
  }

  lemma {:induction false} RemoveAt(l: seq<int>, k: nat)
    requires Sorted(l) && k < |l|
    ensures Remove(l, l[k]) == l[..k] + l[k + 1..]
  {
    if k > 0 {
      RemoveAt(l[1..], k - 1);
      assert l[..k] == [l[0]] + l[1..][..k - 1];
    }
  }

  // ---- Tiling ----

  function End(len: map<int, int>, a: int): int
    requires a in len
  {
    a + HEADER + len[a]
  }

  /** Aligned blocks inside the heap. */
  ghost predicate Aligned(len: map<int, int>) {
    forall a :: a in len ==> 0 <= a && 0 <= len[a] && End(len, a) <= HEAP_MAX && a % 4 == 0 && len[a] % 4 == 0
  }

  /** Each block ends where another begins or at the end of the heap. */
  ghost predicate Meeting(len: map<int, int>) {
    forall a :: a in len ==> End(len, a) == HEAP_MAX || End(len, a) in len
  }

  ghost predicate Apart(len: map<int, int>) {
    forall a, b :: a in len && b in len && a < b ==> End(len, a) <= b
  }

  /** The blocks start at 0 and follow one another without gap or overlap. */
  ghost predicate Tiled(len: map<int, int>) {
    0 in len && Aligned(len) && Meeting(len) && Apart(len)
  }

  function Split(len: map<int, int>, h: int, size: int): map<int, int>
    requires h in len
  {
    len[h := size][h + HEADER + size := len[h] - HEADER - size]
  }

  lemma SplitKeepsTiling(len: map<int, int>, h: int, size: int)
    requires Tiled(len) && h in len && size >= 0 && size % 4 == 0 && size + HEADER <= len[h]
    ensures Tiled(Split(len, h, size))
    ensures h + HEADER + size !in len
  {
    hide Meeting, Apart, Aligned;
    SplitAligned(len, h, size);
    NoBlockInside(len, h, h + HEADER + size);
    SplitMeeting(len, h, size);
    SplitApart(len, h, size);
  }

  lemma SplitAligned(len: map<int, int>, h: int, size: int)
    requires Aligned(len) && h in len && size >= 0 && size % 4 == 0 && size + HEADER <= len[h]
    ensures Aligned(Split(len, h, size)) && h + HEADER + size < End(len, h)
  {
    var len', r := Split(len, h, size), h + HEADER + size;
    forall a | a in len'
      ensures 0 <= a && 0 <= len'[a] && End(len', a) <= HEAP_MAX && a % 4 == 0 && len'[a] % 4 == 0
    {
      assert End(len, h) <= HEAP_MAX;
      if a == h { assert End(len', a) == r; }
      else if a == r { assert End(len', a) == End(len, h); }
      else { assert End(len', a) == End(len, a); }
    }
    assert End(len, h) <= HEAP_MAX;
  }

  lemma NoBlockInside(len: map<int, int>, h: int, r: int)
    requires Apart(len) && h in len && h < r < End(len, h)
    ensures r !in len
  {}

  lemma SplitMeeting(len: map<int, int>, h: int, size: int)
    requires Meeting(len) && h in len && h + HEADER + size !in len
    ensures Meeting(Split(len, h, size))
  {
    var len', r := Split(len, h, size), h + HEADER + size;
    forall a | a in len'
      ensures End(len', a) == HEAP_MAX || End(len', a) in len'
    {
      if a == h {
      } else if a == r {
        assert End(len', r) == End(len, h);
      } else {
        assert End(len', a) == End(len, a);
      }
    }
  }

  lemma SplitApart(len: map<int, int>, h: int, size: int)
    requires Apart(len) && h in len && 0 <= size && size + HEADER <= len[h] && h + HEADER + size !in len
    ensures Apart(Split(len, h, size))
  {
    var len', r := Split(len, h, size), h + HEADER + size;
    forall a, b | a in len' && b in len' && a < b
      ensures End(len', a) <= b
    {
      if a == r {
        assert End(len', a) == End(len, h) && b in len && h < b;
      } else if b == r {
        if a != h { assert a < h; assert End(len, a) <= h; }
      } else if a != h {
        assert End(len, a) <= b;
      } else {
        assert End(len, h) <= b;
      }
    }
  }

  /** Two adjacent blocks made one. */
  function Join(len: map<int, int>, a: int, b: int): map<int, int>
    requires a in len && b in len
  {
    len[a := len[a] + HEADER + len[b]] - {b}
  }

  lemma JoinKeepsTiling(len: map<int, int>, a: int, b: int)
    requires Tiled(len) && a in len && b in len && End(len, a) == b
    ensures Tiled(Join(len, a, b)) && End(Join(len, a, b), a) == End(len, b)
  {
    hide Meeting, Apart, Aligned;
    JoinAligned(len, a, b);
    JoinMeeting(len, a, b);
    JoinApart(len, a, b);
  }

  lemma JoinAligned(len: map<int, int>, a: int, b: int)
    requires Aligned(len) && a in len && b in len && End(len, a) == b && 0 in len
    ensures Aligned(Join(len, a, b)) && 0 in Join(len, a, b)
    ensures a < b && End(Join(len, a, b), a) == End(len, b)
  {
    var len' := Join(len, a, b);
    assert 0 <= a && 0 <= len[a];
    forall x | x in len'
      ensures 0 <= x && 0 <= len'[x] && End(len', x) <= HEAP_MAX && x % 4 == 0 && len'[x] % 4 == 0
    {
      if x == a { assert End(len', x) == End(len, b) <= HEAP_MAX; assert 0 <= len[b]; }
      else { assert End(len', x) == End(len, x); }
    }
  }

  lemma JoinMeeting(len: map<int, int>, a: int, b: int)
    requires Aligned(len) && Apart(len) && Meeting(len) && a in len && b in len && End(len, a) == b
    ensures Meeting(Join(len, a, b))
  {
    var len' := Join(len, a, b);
    forall x | x in len'
      ensures End(len', x) == HEAP_MAX || End(len', x) in len'
    {
      if x == a {
        assert End(len', a) == End(len, b);
      } else {
        assert End(len', x) == End(len, x);
        if x < a { assert End(len, x) <= a; } else { assert End(len, a) <= x; }
        assert End(len, x) != b;
      }
    }
  }

  lemma JoinApart(len: map<int, int>, a: int, b: int)
    requires Aligned(len) && Apart(len) && a in len && b in len && End(len, a) == b
    ensures Apart(Join(len, a, b))
  {
    var len' := Join(len, a, b);
    forall x, y | x in len' && y in len' && x < y
      ensures End(len', x) <= y
    {
      assert End(len, x) <= y;
      if x == a {
        assert b < y;
        assert End(len, b) <= y;
      }
    }
  }

  /** Every address of the heap lies in exactly one block. */
  lemma {:induction false} CellInOneBlock(len: map<int, int>, cell: int, from: int) returns (a: int)
    requires Tiled(len) && from in len && from <= cell < HEAP_MAX
    ensures a in len && a <= cell < End(len, a)
    ensures forall b :: b in len && b <= cell < End(len, b) ==> b == a
    decreases HEAP_MAX - from
  {
    if cell < End(len, from) {
      a := from;
    } else {
      a := CellInOneBlock(len, cell, End(len, from));
    }
  }

  // ---- The invariant ----

  ghost predicate Listed(v: Heap) {
    && Sorted(v.free) && Sorted(v.used)
    && (forall a :: a in v.len <==> a in v.free || a in v.used)
    && (forall a :: a in v.free ==> a !in v.used)
  }

  /** The highest block is free. */
  ghost predicate TopFree(v: Heap) {
    forall a :: a in v.len && End(v.len, a) == HEAP_MAX ==> a in v.free
  }

  /** No two free blocks are adjacent. */
  ghost predicate Coalesced(v: Heap) {
    forall a :: a in v.free && a in v.len ==> End(v.len, a) !in v.free
  }

  ghost predicate Inv(v: Heap) {
    Listed(v) && Tiled(v.len) && TopFree(v) && Coalesced(v)
  }

  /** Some block reaches the end of the heap. */
  lemma {:induction false} TopBlock(len: map<int, int>, from: int) returns (top: int)
    requires Tiled(len) && from in len
    ensures top in len && End(len, top) == HEAP_MAX
    decreases HEAP_MAX - from
  {
    if End(len, from) == HEAP_MAX {
      top := from;
    } else {
      assert End(len, from) in len;
      top := TopBlock(len, End(len, from));
    }
  }

  /** The free list is never empty and every used block lies below its last element. */
  lemma LastFreeIsTop(v: Heap)
    requires Listed(v) && Tiled(v.len) && TopFree(v)
    ensures v.free != [] && forall a :: a in v.used ==> a < v.free[|v.free| - 1]
  {
    hide Tiled, Sorted;
    var top := TopOfHeap(v.len);
    assert top in v.free;
    var last := v.free[|v.free| - 1];
    assert top <= last by { LastIsGreatest(v.free, top); }
    forall a | a in v.used
      ensures a < last
    {
      assert a in v.len && a != top;
      TopAbove(v.len, a, top);
    }
  }

  lemma TopOfHeap(len: map<int, int>) returns (top: int)
    requires Tiled(len)
    ensures top in len && End(len, top) == HEAP_MAX
  {
    top := TopBlock(len, 0);
  }

  lemma LastIsGreatest(l: seq<int>, a: int)
    requires Sorted(l) && a in l
    ensures a <= l[|l| - 1]
  {}

  lemma TopAbove(len: map<int, int>, a: int, top: int)
    requires Tiled(len) && a in len && top in len && End(len, top) == HEAP_MAX && a != top
    ensures a < top
  {
    hide Meeting;
    assert Aligned(len) && Apart(len);
    assert End(len, a) <= HEAP_MAX;
  }

  // ---- Neighbours in a list ----

  function NextOf(l: seq<int>, h: int): int {
    if |l| < 2 then NULL else if l[0] == h then l[1] else NextOf(l[1..], h)
  }

  function PrevOf(l: seq<int>, h: int): int {
    if |l| < 2 then NULL else if l[1] == h then l[0] else PrevOf(l[1..], h)
  }

  lemma {:induction false} NextAt(l: seq<int>, k: nat)
    requires Sorted(l) && k < |l|
    ensures NextOf(l, l[k]) == if k + 1 < |l| then l[k + 1] else NULL
  {
    if k > 0 { NextAt(l[1..], k - 1); }
  }

  lemma {:induction false} PrevAt(l: seq<int>, k: nat)
    requires Sorted(l) && k < |l|
    ensures PrevOf(l, l[k]) == if k > 0 then l[k - 1] else NULL
  {
    if |l| >= 2 && l[1] != l[k] {
      if k > 0 { PrevAt(l[1..], k - 1); } else { NoPrev(l[1..], l[0]); }
    }
  }

  lemma {:induction false} NoPrev(l: seq<int>, h: int)
    requires forall x :: x in l ==> h < x
    ensures PrevOf(l, h) == NULL
  {
    if |l| >= 2 {
      assert forall x :: x in l[1..] ==> x in l;
      assert l[1] in l;
      NoPrev(l[1..], h);
    }
  }

  /** Two list members with no member between them are neighbours. */
  lemma Neighbours(l: seq<int>, a: int, b: int)
    requires Sorted(l) && a in l && b in l && a < b
    requires forall x :: x in l && a < x ==> b <= x
    ensures NextOf(l, a) == b && PrevOf(l, b) == a
  {
    var i :| 0 <= i < |l| && l[i] == a;
    var j :| 0 <= j < |l| && l[j] == b;
    assert i < j;
    assert l[i + 1] in l;
    NextAt(l, i);
    PrevAt(l, j);
    assert j == i + 1;
  }

  lemma NeighbourInList(l: seq<int>, h: int)
    requires Sorted(l) && h in l
    ensures NextOf(l, h) != NULL ==> NextOf(l, h) in l && h < NextOf(l, h)
    ensures PrevOf(l, h) != NULL ==> PrevOf(l, h) in l && PrevOf(l, h) < h
  {
    var k :| 0 <= k < |l| && l[k] == h;
    NextAt(l, k);
    PrevAt(l, k);
  }

  // ---- Release ----

  function Moved(v: Heap, h: int): Heap {
    v.(used := Remove(v.used, h), free := Insert(v.free, h))
  }

  /** The next free block is joined to `h` when it begins where `h` ends. */
  function MergedNext(v: Heap, h: int): Heap
    requires h in v.len
  {
    var n := NextOf(v.free, h);
    if n in v.len && End(v.len, h) == n then v.(free := Remove(v.free, n), len := Join(v.len, h, n)) else v
  }

  /** `h` is joined to the previous free block when that ends where `h` begins. */
  function MergedPrev(v: Heap, h: int): Heap
    requires h in v.len
  {
    var p := PrevOf(v.free, h);
    if p in v.len && End(v.len, p) == h then v.(free := Remove(v.free, h), len := Join(v.len, p, h)) else v
  }

  function Merged(v: Heap, h: int): Heap
    requires h in v.len
  {
    var joined := MergedNext(v, h);
    if h in joined.len then MergedPrev(joined, h) else joined
  }

  function Released(v: Heap, h: int): Heap
    requires h in v.len
  {
    Merged(Moved(v, h), h)
  }

  /** No free block other than `h` touches a free block other than `h`. */
  ghost predicate CoalescedBut(v: Heap, h: int) {
    forall a :: a in v.free && a in v.len && a != h && End(v.len, a) != h ==> End(v.len, a) !in v.free
  }

  ghost predicate Almost(v: Heap, h: int) {
    Listed(v) && Tiled(v.len) && TopFree(v) && CoalescedBut(v, h) && h in v.free
  }

  lemma MovedAlmost(v: Heap, h: int)
    requires Inv(v) && h in v.used
    ensures Almost(Moved(v, h), h)
  {
    InsertKeepsOrder(v.free, h);
    RemoveKeepsOrder(v.used, h);
  }

  lemma JoinLists(v: Heap, a: int, b: int)
    requires Listed(v) && Tiled(v.len) && TopFree(v) && a in v.free && b in v.free && End(v.len, a) == b
    ensures var w := v.(free := Remove(v.free, b), len := Join(v.len, a, b));
            Listed(w) && Tiled(w.len) && TopFree(w) && a in w.free
  {
    RemoveKeepsOrder(v.free, b);
    JoinKeepsTiling(v.len, a, b);
    assert a < b by { assert Aligned(v.len); }
  }

  lemma EndIsNext(v: Heap, a: int)
    requires Listed(v) && Tiled(v.len) && a in v.free && End(v.len, a) in v.free
    ensures NextOf(v.free, a) == End(v.len, a) && PrevOf(v.free, End(v.len, a)) == a
  {
    var b := End(v.len, a);
    assert a < b by { assert Aligned(v.len); }
    forall x | x in v.free && a < x
      ensures b <= x
    {
      assert x in v.len && a in v.len;
    }
    Neighbours(v.free, a, b);
  }

  lemma NextJoined(v: Heap, h: int, n: int)
    requires Almost(v, h) && n in v.free && End(v.len, h) == n
    ensures var w := v.(free := Remove(v.free, n), len := Join(v.len, h, n));
            CoalescedBut(w, h) && End(w.len, h) !in w.free
  {
    var w := v.(free := Remove(v.free, n), len := Join(v.len, h, n));
    RemoveKeepsOrder(v.free, n);
    JoinKeepsTiling(v.len, h, n);
    assert h < n < End(v.len, n) by { assert Aligned(v.len); assert n in v.len; }
    assert End(v.len, n) !in v.free;
    forall a | a in w.free && a in w.len && a != h && End(w.len, a) != h
      ensures End(w.len, a) !in w.free
    {
      assert End(w.len, a) == End(v.len, a);
    }
  }

  lemma NextMerged(v: Heap, h: int)
    requires Almost(v, h)
    ensures var w := MergedNext(v, h); Almost(w, h) && End(w.len, h) !in w.free && w.used == v.used
  {
    hide Tiled, TopFree, CoalescedBut;
    var n := NextOf(v.free, h);
    NeighbourInList(v.free, h);
    if n in v.len && End(v.len, h) == n {
      AddressesNatural(v.len, n);
      JoinLists(v, h, n);
      NextJoined(v, h, n);
    } else if End(v.len, h) in v.free {
      EndIsNext(v, h);
      assert false;
    }
  }

  lemma AddressesNatural(len: map<int, int>, a: int)
    requires Tiled(len) && a in len
    ensures a >= 0 && len[a] >= 0 && a < End(len, a) <= HEAP_MAX && a % 4 == 0 && len[a] % 4 == 0
  {
    assert Aligned(len);
  }

  lemma PrevJoined(v: Heap, p: int, h: int)
    requires Almost(v, h) && p in v.free && End(v.len, p) == h && End(v.len, h) !in v.free
    ensures Coalesced(v.(free := Remove(v.free, h), len := Join(v.len, p, h)))
  {
    var w := v.(free := Remove(v.free, h), len := Join(v.len, p, h));
    RemoveKeepsOrder(v.free, h);
    JoinKeepsTiling(v.len, p, h);
    forall a | a in w.free && a in w.len
      ensures End(w.len, a) !in w.free
    {
      if a != p { assert End(w.len, a) == End(v.len, a); }
    }
  }

  lemma PrevMerged(v: Heap, h: int)
    requires Almost(v, h) && End(v.len, h) !in v.free
    ensures var w := MergedPrev(v, h); Inv(w) && w.used == v.used
  {
    hide Tiled, TopFree;
    var p := PrevOf(v.free, h);
    NeighbourInList(v.free, h);
    if p in v.len && End(v.len, p) == h {
      AddressesNatural(v.len, p);
      JoinLists(v, p, h);
      PrevJoined(v, p, h);
    } else {
      forall a | a in v.free && a in v.len
        ensures End(v.len, a) !in v.free
      {
        if End(v.len, a) == h { EndIsNext(v, a); }
      }
    }
  }

  /** Joining blocks of the free list leaves the used blocks as they are. */
  lemma JoiningKeepsUsed(v: Heap, a: int, b: int)
    requires Listed(v) && a in v.free && b in v.free
    ensures forall u :: u in v.used ==> u in v.len && u in Join(v.len, a, b) && Join(v.len, a, b)[u] == v.len[u]
  {}

  lemma MergingKeepsUsed(v: Heap, h: int)
    requires Almost(v, h)
    ensures forall u :: u in v.used ==> u in v.len && u in MergedNext(v, h).len && MergedNext(v, h).len[u] == v.len[u]
    ensures forall u :: u in v.used ==> u in MergedPrev(v, h).len && MergedPrev(v, h).len[u] == v.len[u]
  {
    hide TopFree, CoalescedBut, Join, Tiled, NextOf, PrevOf;
    var n, p := NextOf(v.free, h), PrevOf(v.free, h);
    NeighbourInList(v.free, h);
    if n in v.len { AddressesNatural(v.len, n); JoiningKeepsUsed(v, h, n); }
    if p in v.len { AddressesNatural(v.len, p); JoiningKeepsUsed(v, p, h); }
  }

  /** Releasing a used block keeps the heap's invariant: the block leaves the used list, every other
      used block keeps its place and length, and nothing adjacent is left unjoined. */
  lemma ReleaseKeepsInv(v: Heap, h: int)
    requires Inv(v) && h in v.used
    ensures Inv(Released(v, h))
    ensures Released(v, h).used == Remove(v.used, h)
    ensures forall a :: a in Released(v, h).used ==> a in v.len && Released(v, h).len[a] == v.len[a]
  {
    hide Tiled, TopFree, Coalesced, CoalescedBut, MergedNext, MergedPrev, Insert, Remove;
    var w0 := Moved(v, h);
    MovedAlmost(v, h);
    NextMerged(w0, h);
    MergingKeepsUsed(w0, h);
    var w1 := MergedNext(w0, h);
    PrevMerged(w1, h);
    MergingKeepsUsed(w1, h);
  }

  // ---- Collection ----

  /** Release, in list order, every block that no root points to. */
  function Collected(v: Heap, l: seq<int>, roots: set<int>): Heap
    decreases |l|
  {
    if l == [] then v
    else if l[0] + HEADER in roots || l[0] !in v.len then Collected(v, l[1..], roots)
    else Collected(Released(v, l[0]), l[1..], roots)
  }

  function Kept(l: seq<int>, roots: set<int>): seq<int> {
    if l == [] then []
    else if l[0] + HEADER in roots then [l[0]] + Kept(l[1..], roots)
    else Kept(l[1..], roots)
  }

  lemma RemoveFirstOfTail(done: seq<int>, l: seq<int>)
    requires Sorted(done + l) && l != []
    ensures Remove(done + l, l[0]) == done + l[1..]
  {
    RemoveAt(done + l, |done|);
  }

  /** Collection is exact: with `done` already decided, the used list becomes `done` followed by the
      rest's rooted blocks; they keep their lengths and the invariant holds again. */
  lemma {:induction false} CollectionIsExact(v: Heap, done: seq<int>, l: seq<int>, roots: set<int>)
    requires Inv(v) && v.used == done + l
    ensures var w := Collected(v, l, roots);
            Inv(w) && w.used == done + Kept(l, roots)
            && forall a :: a in w.used ==> a in v.used && a in v.len && a in w.len && w.len[a] == v.len[a]
    decreases |l|
  {
    hide Tiled, TopFree, Coalesced, Released, Sorted;
    if l != [] {
      var h := l[0];
      assert h in v.used && h in v.len;
      if h + HEADER in roots {
        assert (done + [h]) + l[1..] == v.used;
        CollectionIsExact(v, done + [h], l[1..], roots);
        assert (done + [h]) + Kept(l[1..], roots) == done + ([h] + Kept(l[1..], roots));
      } else {
        ReleaseKeepsInv(v, h);
        RemoveFirstOfTail(done, l);
        RemoveKeepsOrder(v.used, h);
        CollectionIsExact(Released(v, h), done, l[1..], roots);
      }
    } else {
      assert done + [] == done;
    }
  }

  // ---- Allocation ----

  /** The first listed block longer than `bound`. */
  function FirstFit(l: seq<int>, len: map<int, int>, bound: int): int {
    if l == [] then NULL
    else if l[0] in len && len[l[0]] > bound then l[0]
    else FirstFit(l[1..], len, bound)
  }

  lemma {:induction false} FirstFitFound(l: seq<int>, len: map<int, int>, bound: int)
    requires forall a :: a in l ==> a in len && a >= 0
    ensures var h := FirstFit(l, len, bound);
            if h == NULL then forall a :: a in l ==> len[a] <= bound else h in l && len[h] > bound
  {
    if l != [] && !(l[0] in len && len[l[0]] > bound) {
      assert l[0] in l;
      forall a | a in l[1..]
        ensures a in len && a >= 0
      {
        assert a in l;
      }
      FirstFitFound(l[1..], len, bound);
    }
  }

  /** The front of block `h` becomes a used block of `size` bytes, the remainder a free block. */
  function Taken(v: Heap, h: int, size: int): Heap
    requires h in v.len
  {
    Heap(Insert(Remove(v.free, h), h + HEADER + size), Insert(v.used, h), Split(v.len, h, size))
  }

  lemma TakenListed(v: Heap, h: int, size: int)
    requires Inv(v) && h in v.free && size >= 0 && size % 4 == 0 && size + HEADER <= v.len[h]
    ensures Listed(Taken(v, h, size))
    ensures var r := h + HEADER + size;
            r !in v.len && forall x :: x in Taken(v, h, size).free <==> x == r || (x in v.free && x != h)
    ensures forall x :: x in Taken(v, h, size).used <==> x == h || x in v.used
  {
    hide TopFree, Coalesced, Tiled;
    var r := h + HEADER + size;
    SplitKeepsTiling(v.len, h, size);
    RemoveKeepsOrder(v.free, h);
    InsertKeepsOrder(Remove(v.free, h), r);
    InsertKeepsOrder(v.used, h);
  }

  /** Taking a block keeps the invariant, the remainder staying free on top of it. */
  lemma TakeKeepsInv(v: Heap, h: int, size: int)
    requires Inv(v) && h in v.free && size >= 0 && size % 4 == 0 && size + HEADER <= v.len[h]
    ensures Inv(Taken(v, h, size))
    ensures forall a :: a in v.used ==> a in v.len && a in Taken(v, h, size).len && Taken(v, h, size).len[a] == v.len[a]
  {
    hide Sorted, Insert, Remove, Tiled;
    var w, r := Taken(v, h, size), h + HEADER + size;
    TakenListed(v, h, size);
    SplitKeepsTiling(v.len, h, size);
    assert End(w.len, r) == End(v.len, h) && End(w.len, h) == r;
    AddressesNatural(w.len, r);
    assert r != HEAP_MAX;
    forall a | a in w.len && End(w.len, a) == HEAP_MAX
      ensures a in w.free
    {
      if a != h && a != r { assert End(v.len, a) == HEAP_MAX; TopUnique(v.len, a, h); }
    }
    forall a | a in w.free && a in w.len
      ensures End(w.len, a) !in w.free
    {
      if a != r {
        assert a in v.free && a in v.len && Coalesced(v);
        assert End(w.len, a) == End(v.len, a);
        MeetsBlock(v.len, a);
      }
    }
  }

  lemma MeetsBlock(len: map<int, int>, a: int)
    requires Tiled(len) && a in len
    ensures End(len, a) == HEAP_MAX || End(len, a) in len
  {}

  lemma TopUnique(len: map<int, int>, a: int, b: int)
    requires Tiled(len) && a in len && b in len && End(len, a) == HEAP_MAX
    ensures b <= a
  {
    AddressesNatural(len, b);
    assert Apart(len);
  }

  const SIZE_MODULUS: int := 0x1_0000_0000

  /** Rounding up to four bytes in 32-bit arithmetic. */
  function AlignSize(size: int): int
    requires 0 <= size < SIZE_MODULUS
  {
    (size + 3) % SIZE_MODULUS / 4 * 4
  }

  /** The room an allocation asks for, header included, in 32-bit arithmetic. */
  function Need(size: int): int
    requires 0 <= size < SIZE_MODULUS
  {
    (AlignSize(size) + HEADER) % SIZE_MODULUS
  }

  /** The sizes whose room is computed without wrapping around. */
  predicate NoWrap(size: int) {
    0 <= size <= 0xFFFF_FFF4 || 0xFFFF_FFFD <= size < SIZE_MODULUS
  }

  /** An allocation: the heap afterwards and the pointer to the data, or NULL. The second search, after a
      collection, also accepts an exact fit. */
  function Allocated(v: Heap, size: int, roots: set<int>): (Heap, int)
    requires 0 <= size < SIZE_MODULUS
  {
    var h := FirstFit(v.free, v.len, Need(size));
    if h in v.len then (Taken(v, h, AlignSize(size)), h + HEADER)
    else
      var w := Collected(v, v.used, roots);
      var h2 := FirstFit(w.free, w.len, Need(size) - 1);
      if h2 in w.len then (Taken(w, h2, AlignSize(size)), h2 + HEADER) else (w, NULL)
  }

  lemma NoWrapMeans(size: int)
    requires 0 <= size < SIZE_MODULUS
    ensures NoWrap(size) <==> Need(size) == AlignSize(size) + HEADER
    ensures NoWrap(size) ==> Need(size) - HEADER == AlignSize(size) >= 0 && AlignSize(size) % 4 == 0
  {}

  lemma FitsFromSearch(v: Heap, bound: int)
    requires Inv(v)
    ensures var h := FirstFit(v.free, v.len, bound);
            if h in v.len then h in v.free && v.len[h] > bound else forall a :: a in v.free ==>
                a in v.len && v.len[a] <= bound
  {
    forall a | a in v.free
      ensures a in v.len && a >= 0
    {
      AddressesNatural(v.len, a);
    }
    FirstFitFound(v.free, v.len, bound);
    if NULL in v.len { AddressesNatural(v.len, NULL); }
  }

  /** The last size whose aligned form and header together do not wrap around. */
  const LAST_ROUNDED: int := 0xFFFF_FFF4

  /** The block is as long as the request, rounded up to a multiple of four; except that the three greatest sizes get an
      empty block. */
  predicate HoldsRequest(length: int, size: int) {
    if size <= LAST_ROUNDED then size <= length < size + 4 && length % 4 == 0 else length == 0
  }

  /** Where rounding and the sum do not wrap, the aligned size is the next multiple of four; the sizes whose rounding
      itself wraps around are taken for 0. */
  lemma Rounding(size: int)
    requires 0 <= size < SIZE_MODULUS && NoWrap(size)
    ensures Need(size) == AlignSize(size) + 8 && HoldsRequest(AlignSize(size), size)
  {}

  /** What a successful allocation promises: the pointer is the data of a used block that holds the request, it
      is not a block that a root points to or one still kept in use, the rooted blocks are all still in use, and
      every other used block was in use with the same length. */
  ghost predicate Granted(v: Heap, size: int, roots: set<int>, w: Heap, p: int)
    requires 0 <= size < SIZE_MODULUS
  {
    var h := p - HEADER;
    && h >= 0 && h in w.used && h in w.len && HoldsRequest(w.len[h], size)
    && (h in v.used ==> p !in roots)
    && (forall a :: a in v.used && a + HEADER in roots ==> a in w.used)
    && (forall a :: a in w.used && a != h ==> a in v.used && a in v.len && a in w.len && w.len[a] == v.len[a])
  }

  lemma {:induction false} KeptMembers(l: seq<int>, roots: set<int>)
    ensures forall a :: a in Kept(l, roots) <==> a in l && a + HEADER in roots
  {
    if l != [] {
      KeptMembers(l[1..], roots);
      assert forall a :: a in l <==> a == l[0] || a in l[1..];
    }
  }

  /** An allocation returns NULL exactly when even after collection no free block has room for the aligned size and
      one more header, both computed in 32-bit arithmetic. It keeps the invariant exactly when that room does not wrap
      around or no block passes the searches, and then what it hands out is granted. */
  lemma AllocationKeepsInv(v: Heap, size: int, roots: set<int>)
    requires Inv(v) && 0 <= size < SIZE_MODULUS
    ensures var (w, p) := Allocated(v, size, roots);
            Inv(w) <==> NoWrap(size) || NothingFits(v, size, roots)
    ensures var (w, p) := Allocated(v, size, roots);
            p == NULL <==> NothingFits(v, size, roots)
    ensures var (w, p) := Allocated(v, size, roots);
            NoWrap(size) && p != NULL ==> Granted(v, size, roots, w, p)
  {
    hide Tiled, TopFree, Coalesced, Sorted, FirstFit, Taken, AlignSize, Need, NoWrap;
    NoWrapMeans(size);
    if NoWrap(size) { Rounding(size); }
    FitsFromSearch(v, Need(size));
    var h := FirstFit(v.free, v.len, Need(size));
    var c := Collected(v, v.used, roots);
    CollectedHeap(v, roots);
    FitsFromSearch(c, Need(size) - 1);
    if h in v.len {
      AddressesNatural(v.len, h);
      if NoWrap(size) { TakenFrom(v, h, AlignSize(size)); } else { WrappedIsBroken(v, h, size); }
    } else {
      var h2 := FirstFit(c.free, c.len, Need(size) - 1);
      if h2 in c.len {
        AddressesNatural(c.len, h2);
        if NoWrap(size) { TakenFrom(c, h2, AlignSize(size)); } else { WrappedIsBroken(c, h2, size); }
      }
    }
  }

  /** No free block is longer than the room asked for, and none after collection is as long. */
  ghost predicate NothingFits(v: Heap, size: int, roots: set<int>)
    requires 0 <= size < SIZE_MODULUS
  {
    && (forall a :: a in v.free ==> a in v.len && v.len[a] <= Need(size))
    && (var c := Collected(v, v.used, roots); forall a :: a in c.free ==> a in c.len && c.len[a] < Need(size))
  }

  /** A block taken for a size whose room wraps around claims more than the whole heap. */
  lemma WrappedIsBroken(v: Heap, h: int, size: int)
    requires h in v.len && h >= 0 && 0 <= size < SIZE_MODULUS && !NoWrap(size)
    ensures !Inv(Taken(v, h, AlignSize(size)))
  {
    hide Sorted, TopFree, Coalesced, Meeting, Apart;
    var w := Taken(v, h, AlignSize(size));
    assert AlignSize(size) > HEAP_MAX;
    assert h in w.len && End(w.len, h) > HEAP_MAX;
  }

  /** A free block with at least so much room, and none below it. */
  ghost predicate LowestFree(v: Heap, room: int, h: int) {
    h in v.free && HasRoom(v, h, room) && forall a :: a in v.free && HasRoom(v, a, room) ==> h <= a
  }

  predicate HasRoom(v: Heap, a: int, room: int) { a in v.len && v.len[a] >= room }

  ghost predicate SomeFree(v: Heap, room: int) { exists a :: a in v.free && HasRoom(v, a, room) }

  lemma {:induction false} FirstFitLowest(l: seq<int>, len: map<int, int>, bound: int)
    requires Sorted(l) && forall a :: a in l ==> a in len && a >= 0
    ensures var h := FirstFit(l, len, bound);
            forall a :: a in l && a in len && len[a] > bound ==> h != NULL && h <= a
    decreases |l|
  {
    hide Sorted;
    if l != [] {
      SortedTail(l);
      assert l[0] in l;
      if !(l[0] in len && len[l[0]] > bound) { FirstFitLowest(l[1..], len, bound); }
    }
  }

  /** The search finds the lowest free block that is long enough. */
  lemma SearchIsLowest(v: Heap, bound: int, room: int)
    requires Inv(v) && forall a :: a in v.len ==> (v.len[a] > bound <==> v.len[a] >= room)
    ensures var h := FirstFit(v.free, v.len, bound);
            if h in v.len then LowestFree(v, room, h) else !SomeFree(v, room)
  {
    hide Tiled, TopFree, Coalesced, Sorted, FirstFit;
    FitsFromSearch(v, bound);
    forall a | a in v.free
      ensures a in v.len && a >= 0
    {
      AddressesNatural(v.len, a);
    }
    FirstFitLowest(v.free, v.len, bound);
  }

  /** Lengths are multiples of four, so the comparisons with the rounded size amount to these. */
  lemma RoomOfRequest(v: Heap, size: int)
    requires Tiled(v.len) && 0 <= size <= LAST_ROUNDED
    ensures forall a :: a in v.len ==> (v.len[a] > Need(size) <==> v.len[a] >= size + 12)
    ensures forall a :: a in v.len ==> (v.len[a] > Need(size) - 1 <==> v.len[a] >= size + 8)
  {
    hide Meeting, Apart, AlignSize, Need;
    Rounding(size);
    forall a | a in v.len
      ensures v.len[a] > Need(size) <==> v.len[a] >= size + 12
      ensures v.len[a] > Need(size) - 1 <==> v.len[a] >= size + 8
    {
      assert Aligned(v.len);
    }
  }

  /** First fit: the lowest free block that leaves room for another header and a word is taken, and no block is given
      up for it; only if there is none, the blocks nothing points to are, and then the lowest that leaves room for
      another header is taken; and NULL is returned only if there is none again. */
  lemma AllocationIsFirstFit(v: Heap, size: int, roots: set<int>)
    requires Inv(v) && 0 <= size <= LAST_ROUNDED
    ensures var (w, p) := Allocated(v, size, roots);
            var c := Collected(v, v.used, roots);
            if SomeFree(v, size + 12) then
              LowestFree(v, size + 12, p - HEADER) && forall a :: a in w.used <==> a in v.used || a == p - HEADER
            else if SomeFree(c, size + 8) then
              LowestFree(c, size + 8, p - HEADER) && forall a :: a in w.used <==> a in c.used || a == p - HEADER
            else p == NULL && w == c
  {
    hide Tiled, TopFree, Coalesced, Sorted, FirstFit, Taken, AlignSize, Need, NoWrap, LowestFree, SomeFree;
    Unwrapped(size);
    NoWrapMeans(size);
    var c := Collected(v, v.used, roots);
    CollectedHeap(v, roots);
    RoomOfRequest(v, size);
    RoomOfRequest(c, size);
    SearchIsLowest(v, Need(size), size + 12);
    SearchIsLowest(c, Need(size) - 1, size + 8);
    FitsFromSearch(v, Need(size));
    FitsFromSearch(c, Need(size) - 1);
    LowestIsSome(v, size + 12);
    LowestIsSome(c, size + 8);
    var h, h2 := FirstFit(v.free, v.len, Need(size)), FirstFit(c.free, c.len, Need(size) - 1);
    if h in v.len { TakenFrom(v, h, AlignSize(size)); } else if h2 in c.len { TakenFrom(c, h2, AlignSize(size)); }
  }

  lemma Unwrapped(size: int)
    requires 0 <= size <= LAST_ROUNDED
    ensures NoWrap(size)
  {}

  lemma LowestIsSome(v: Heap, room: int)
    ensures forall h :: LowestFree(v, room, h) ==> SomeFree(v, room)
  {}

  /** After collection the used list holds exactly the blocks that some root points to. */
  lemma CollectedHeap(v: Heap, roots: set<int>)
    requires Inv(v)
    ensures var c := Collected(v, v.used, roots);
            Inv(c) && c.used == Kept(v.used, roots)
            && (forall a :: a in c.used <==> a in v.used && a + HEADER in roots)
            && (forall a :: a in c.used ==> a in v.len && a in c.len && c.len[a] == v.len[a])
  {
    hide Inv, Collected;
    assert [] + v.used == v.used;
    CollectionIsExact(v, [], v.used, roots);
    KeptMembers(v.used, roots);
    assert [] + Kept(v.used, roots) == Kept(v.used, roots);
  }

  lemma TakenFrom(v: Heap, h: int, size: int)
    requires Inv(v) && h in v.free && size >= 0 && size % 4 == 0 && h in v.len && size + HEADER <= v.len[h]
    ensures var w := Taken(v, h, size);
            Inv(w) && h in w.used && h in w.len && w.len[h] == size && h !in v.used && h >= 0
            && (forall a :: a in w.used <==> a == h || a in v.used)
            && (forall a :: a in v.used ==> a in v.len && a in w.len && w.len[a] == v.len[a])
  {
    hide Sorted, Tiled, TopFree, Coalesced, Insert, Remove;
    TakeKeepsInv(v, h, size);
    TakenListed(v, h, size);
    AddressesNatural(v.len, h);
  }

  /** When the room wraps around, a block that is too short is accepted and the remainder's header would be
      placed inside or before the block's own header; otherwise it lies behind it. */
  lemma RemainderBehindHeaderIff(h: int, size: int, length: int)
    requires 0 <= h && 0 <= size < SIZE_MODULUS && Need(size) <= length && h + HEADER + length <= HEAP_MAX
    ensures (h + HEADER + AlignSize(size)) % SIZE_MODULUS >= h + HEADER <==> NoWrap(size)
  {}

  /** In the empty heap a request for 0xFFFFFFF8 bytes finds the only block, and the invariant is lost. */
  lemma WrapAtStart(roots: set<int>)
    ensures var (w, p) := Allocated(Initial(), 0xFFFF_FFF8, roots); p == HEADER && !Inv(w)
  {
    hide Inv, Taken;
    var v := Initial();
    assert v.free[0] == 0 && v.len[0] > Need(0xFFFF_FFF8);
    assert FirstFit(v.free, v.len, Need(0xFFFF_FFF8)) == 0;
    WrappedIsBroken(v, 0, 0xFFFF_FFF8);
  }

  // ---- Runs ----

  datatype Call = Allocate(size: int, roots: set<int>) | Free(ptr: int) | Collect(roots: set<int>)

  function Initial(): Heap { Heap([0], [], map[0 := HEAP_MAX - HEADER]) }

  /** Sizes whose room does not wrap, or for which nothing fits, and pointers that were handed out and not yet
      released. */
  ghost predicate Allowed(v: Heap, c: Call) {
    match c
    case Allocate(size, roots) => 0 <= size < SIZE_MODULUS && (NoWrap(size) || NothingFits(v, size, roots))
    case Free(ptr) => ptr - HEADER in v.used && ptr - HEADER in v.len
    case Collect(_) => true
  }

  function After(v: Heap, c: Call): Heap
    requires Allowed(v, c)
  {
    match c
    case Allocate(size, roots) => Allocated(v, size, roots).0
    case Free(ptr) => Released(v, ptr - HEADER)
    case Collect(roots) => Collected(v, v.used, roots)
  }

  ghost predicate AllAllowed(v: Heap, calls: seq<Call>)
    decreases |calls|
  {
    calls == [] || (Allowed(v, calls[0]) && AllAllowed(After(v, calls[0]), calls[1..]))
  }

  function Run(v: Heap, calls: seq<Call>): Heap
    requires AllAllowed(v, calls)
    decreases |calls|
  {
    if calls == [] then v else Run(After(v, calls[0]), calls[1..])
  }

  lemma InitialInv()
    ensures Inv(Initial())
  {
    var v := Initial();
    assert v.free[0] == 0;
    assert forall a :: a in v.len <==> a == 0;
    assert End(v.len, 0) == HEAP_MAX;
  }

  lemma StepKeepsInv(v: Heap, c: Call)
    requires Inv(v) && Allowed(v, c)
    ensures Inv(After(v, c))
  {
    hide Inv, Released, Collected, Allocated, NoWrap, NothingFits;
    match c
    case Allocate(size, roots) => AllocationKeepsInv(v, size, roots);
    case Free(ptr) => ReleaseKeepsInv(v, ptr - HEADER);
    case Collect(roots) => CollectedHeap(v, roots);
  }

  lemma {:induction false} RunKeepsInv(v: Heap, calls: seq<Call>)
    requires Inv(v) && AllAllowed(v, calls)
    ensures Inv(Run(v, calls))
    decreases |calls|
  {
    hide Inv, Allowed, After;
    if calls != [] {
      StepKeepsInv(v, calls[0]);
      RunKeepsInv(After(v, calls[0]), calls[1..]);
    }
  }

  function Room(l: seq<int>, len: map<int, int>): int {
    if l == [] then 0 else (if l[0] in len then HEADER + len[l[0]] else 0) + Room(l[1..], len)
  }

  /** The members below a bound, headers and data together. */
  function RoomBelow(l: seq<int>, len: map<int, int>, bound: int): int {
    if l == [] then 0
        else (if l[0] in len && l[0] < bound then HEADER + len[l[0]] else 0) + RoomBelow(l[1..], len, bound)
  }

  lemma {:induction false} RoomStep(l: seq<int>, len: map<int, int>, a: int, b: int)
    requires Sorted(l) && a < b && a in len
    requires forall x :: x in l && x in len && x < b ==> x <= a
    ensures RoomBelow(l, len, b) == RoomBelow(l, len, a) + if a in l then HEADER + len[a] else 0
  {
    if l != [] {
      assert forall x :: x in l <==> x == l[0] || x in l[1..];
      RoomStep(l[1..], len, a, b);
    }
  }

  lemma {:induction false} RoomOfAll(l: seq<int>, len: map<int, int>, bound: int)
    requires forall x :: x in l ==> x < bound
    ensures RoomBelow(l, len, bound) == Room(l, len)
  {
    if l != [] {
      assert l[0] in l && forall x :: x in l[1..] ==> x in l;
      RoomOfAll(l[1..], len, bound);
    }
  }

  lemma {:induction false} RoomUpTo(v: Heap, from: int)
    requires Inv(v) && from in v.len
    requires RoomBelow(v.free, v.len, from) + RoomBelow(v.used, v.len, from) == from
    ensures RoomBelow(v.free, v.len, HEAP_MAX) + RoomBelow(v.used, v.len, HEAP_MAX) == HEAP_MAX
    decreases HEAP_MAX - from
  {
    hide TopFree, Coalesced, Sorted, RoomBelow;
    AddressesNatural(v.len, from);
    var end := End(v.len, from);
    forall x | x in v.len && x < end
      ensures x <= from
    {
      assert Apart(v.len);
    }
    RoomStep(v.free, v.len, from, end);
    RoomStep(v.used, v.len, from, end);
    if end != HEAP_MAX {
      MeetsBlock(v.len, from);
      RoomUpTo(v, end);
    }
  }

  lemma {:induction false} NothingBelowZero(l: seq<int>, len: map<int, int>)
    requires forall x :: x in l ==> x >= 0
    ensures RoomBelow(l, len, 0) == 0
  {
    if l != [] {
      assert l[0] in l && forall x :: x in l[1..] ==> x in l;
      NothingBelowZero(l[1..], len);
    }
  }

  /** The two lists together account for the whole heap. */
  lemma ListsAccountForHeap(v: Heap)
    requires Inv(v)
    ensures Room(v.free, v.len) + Room(v.used, v.len) == HEAP_MAX
  {
    hide TopFree, Coalesced, Sorted;
    forall x | x in v.free || x in v.used
      ensures 0 <= x < HEAP_MAX
    {
      AddressesNatural(v.len, x);
    }
    NothingBelowZero(v.free, v.len);
    NothingBelowZero(v.used, v.len);
    RoomUpTo(v, 0);
    RoomOfAll(v.free, v.len, HEAP_MAX);
    RoomOfAll(v.used, v.len, HEAP_MAX);
  }

  /** In every reachable state the lists are ordered and disjoint and account for the whole heap, its blocks
      tile it, no two free blocks touch, and a used block is never the highest. */
  lemma ReachableHeap(calls: seq<Call>)
    requires AllAllowed(Initial(), calls)
    ensures var v := Run(Initial(), calls);
            Listed(v) && Tiled(v.len) && Coalesced(v) && Room(v.free, v.len) + Room(v.used, v.len) == HEAP_MAX
            && v.free != [] && forall a :: a in v.used ==> a < v.free[|v.free| - 1]
  {
    hide Listed, Tiled, Coalesced, TopFree, Run, Room;
    InitialInv();
    RunKeepsInv(Initial(), calls);
    var v := Run(Initial(), calls);
    ListsAccountForHeap(v);
    LastFreeIsTop(v);
  }
}
