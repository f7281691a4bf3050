/**
 The library's quicksort: elements of any size in a byte buffer, three-way partitioning with four moving
 indices, and two loops that bring the equal elements from the ends to the middle.
 */
module Qsort {
  type Byte = x: int | 0 <= x < 256
  type Element = seq<Byte>
  type Order = (Element, Element) -> int

  // ---- Elements of a byte buffer ----

  lemma SlotBounds(i: nat, j: nat, size: nat)
    requires i < j
    ensures (i + 1) * size <= j * size && i * size <= (i + 1) * size == i * size + size
  {
    assert j * size == (i + 1) * size + (j - i - 1) * size;
  }

  function ElementAt(bytes: seq<Byte>, size: nat, n: nat, i: nat): (e: Element)
    requires |bytes| == n * size && i < n
    ensures |e| == size
  {
    SlotBounds(i, n, size);
    bytes[i * size..i * size + size]
  }

  /** The elements a buffer of `n` slots holds. */
  function Elements(bytes: seq<Byte>, size: nat, n: nat): (s: seq<Element>)
    requires |bytes| == n * size
    ensures |s| == n
  {
    seq(n, i requires 0 <= i < n => ElementAt(bytes, size, n, i))
  }

  function Swapped<T>(s: seq<T>, x: nat, y: nat): (t: seq<T>)
    requires x < |s| && y < |s|
    ensures |t| == |s| && t[x] == s[y] && t[y] == s[x] && forall i :: 0 <= i < |s| && i != x && i != y ==> t[i] == s[i]
  {
    s[x := s[y]][y := s[x]]
  }

  /** Bytes after the blocks of `k` bytes at `x` and `y` have changed places. */
  ghost predicate BlocksSwapped(before: seq<Byte>, after: seq<Byte>, x: nat, y: nat, k: nat) {
    && |after| == |before| && x + k <= |before| && y + k <= |before|
    && (forall m :: x <= m < x + k ==> after[m] == before[m - x + y])
    && (forall m :: y <= m < y + k ==> after[m] == before[m - y + x])
    && (forall m :: 0 <= m < |before| && !(x <= m < x + k) && !(y <= m < y + k) ==> after[m] == before[m])
  }

  lemma BlockOfSwapped(before: seq<Byte>, after: seq<Byte>, x: nat, y: nat, k: nat)
    requires BlocksSwapped(before, after, x, y, k)
    ensures after[x..x + k] == before[y..y + k] && after[y..y + k] == before[x..x + k]
  {
    var ax, ay := after[x..x + k], after[y..y + k];
    assert forall m :: 0 <= m < k ==> ax[m] == before[y..y + k][m];
    assert forall m :: 0 <= m < k ==> ay[m] == before[x..x + k][m];
  }

  lemma BlockBeside(before: seq<Byte>, after: seq<Byte>, x: nat, y: nat, k: nat, z: nat)
    requires BlocksSwapped(before, after, x, y, k) && z + k <= |before|
    requires (z + k <= x || x + k <= z) && (z + k <= y || y + k <= z)
    ensures after[z..z + k] == before[z..z + k]
  {}

  lemma ElementsSwapped(before: seq<Byte>, after: seq<Byte>, size: nat, n: nat, x: nat, y: nat)
    requires |before| == n * size && x < n && y < n && BlocksSwapped(before, after, x * size, y * size, size)
    ensures Elements(after, size, n) == Swapped(Elements(before, size, n), x, y)
  {
    hide BlocksSwapped;
    assert |after| == |before| by { SameSize(before, after, x * size, y * size, size); }
    BlockOfSwapped(before, after, x * size, y * size, size);
    forall i | 0 <= i < n && i != x && i != y
      ensures ElementAt(after, size, n, i) == ElementAt(before, size, n, i)
    {
      SlotBounds(i, n, size);
      if i < x { SlotBounds(i, x, size); } else { SlotBounds(x, i, size); }
      if i < y { SlotBounds(i, y, size); } else { SlotBounds(y, i, size); }
      BlockBeside(before, after, x * size, y * size, size, i * size);
    }
  }

  lemma SameSize(before: seq<Byte>, after: seq<Byte>, x: nat, y: nat, k: nat)
    requires BlocksSwapped(before, after, x, y, k)
    ensures |after| == |before|
  {}

  ghost function View(base: array<Byte>, size: nat, n: nat): (s: seq<Element>)
    reads base
    requires base.Length == n * size
    ensures |s| == n
  {
    Elements(base[..], size, n)
  }

  /** Exchanges two elements byte by byte. */
  method Exchange(base: array<Byte>, size: nat, ghost n: nat, a: nat, b: nat)
    requires base.Length == n * size && a < n && b < n
    modifies base
    ensures View(base, size, n) == Swapped(old(View(base, size, n)), a, b)
  {
    ghost var before := base[..];
    SlotBounds(a, n, size);
    SlotBounds(b, n, size);
    if a < b { SlotBounds(a, b, size); } else if b < a { SlotBounds(b, a, size); }
    ExchangeBytes(base, size, a * size, b * size);
    ElementsSwapped(before, base[..], size, n, a, b);
  }

  method ExchangeBytes(base: array<Byte>, size: nat, x0: nat, y0: nat)
    requires x0 + size <= base.Length && y0 + size <= base.Length
    requires x0 == y0 || x0 + size <= y0 || y0 + size <= x0
    modifies base
    ensures BlocksSwapped(old(base[..]), base[..], x0, y0, size)
  {
    var remaining, x, y := size, x0, y0;
    while remaining > 0
      invariant x == x0 + size - remaining && y == y0 + size - remaining && 0 <= remaining <= size
      invariant BlocksSwapped(old(base[..]), base[..], x0, y0, size - remaining)
    {
      ghost var now := base[..];
      var z := base[x];
      base[x] := base[y];
      base[y] := z;
      OneMoreByte(old(base[..]), now, base[..], x0, y0, size - remaining);
      remaining := remaining - 1;
      x := x + 1;
      y := y + 1;
    }
  }

  lemma OneMoreByte(before: seq<Byte>, now: seq<Byte>, after: seq<Byte>, x: nat, y: nat, k: nat)
    requires BlocksSwapped(before, now, x, y, k) && x + k < |before| && y + k < |before|
    requires x == y || x + k < y || y + k < x
    requires after == Swapped(now, x + k, y + k)
    ensures BlocksSwapped(before, after, x, y, k + 1)
  {}

  // ---- Orders and regions ----

  /** What a comparison function has to be. */
  ghost predicate TotalPreorder(cmp: Order) {
    && (forall x, y :: cmp(x, y) < 0 <==> cmp(y, x) > 0)
    && (forall x, y, z :: cmp(x, y) <= 0 && cmp(y, z) <= 0 ==> cmp(x, z) <= 0)
  }

  lemma Flip(cmp: Order, x: Element, y: Element)
    requires TotalPreorder(cmp)
    ensures (cmp(x, y) < 0 <==> cmp(y, x) > 0) && (cmp(x, y) > 0 <==> cmp(y, x) < 0)
            && (cmp(x, y) == 0 <==> cmp(y, x) == 0)
  {}

  lemma Trans(cmp: Order, x: Element, y: Element, z: Element)
    requires TotalPreorder(cmp) && cmp(x, y) <= 0 && cmp(y, z) <= 0
    ensures cmp(x, z) <= 0
  {}

  ghost predicate Less(cmp: Order, s: seq<Element>, lo: int, hi: int, v: Element) {
    forall m :: lo <= m < hi ==> 0 <= m < |s| && cmp(s[m], v) < 0
  }

  ghost predicate Greater(cmp: Order, s: seq<Element>, lo: int, hi: int, v: Element) {
    forall m :: lo <= m < hi ==> 0 <= m < |s| && cmp(s[m], v) > 0
  }

  ghost predicate Same(cmp: Order, s: seq<Element>, lo: int, hi: int, v: Element) {
    forall m :: lo <= m < hi ==> 0 <= m < |s| && cmp(s[m], v) == 0
  }

  ghost predicate AtMost(cmp: Order, s: seq<Element>, lo: int, hi: int, v: Element) {
    forall m :: lo <= m < hi ==> 0 <= m < |s| && cmp(s[m], v) <= 0
  }

  ghost predicate AtLeast(cmp: Order, s: seq<Element>, lo: int, hi: int, v: Element) {
    forall m :: lo <= m < hi ==> 0 <= m < |s| && cmp(s[m], v) >= 0
  }

  ghost predicate Sorted(cmp: Order, s: seq<Element>, lo: int, hi: int) {
    0 <= lo && hi <= |s| && forall a, b :: lo <= a < b < hi ==> cmp(s[a], s[b]) <= 0
  }

  /** `t` is `s` with the elements from `lo` up to `hi` in another order. */
  ghost predicate Permuted(s: seq<Element>, t: seq<Element>, lo: int, hi: int) {
    && |s| == |t| && multiset(s) == multiset(t)
    && forall m :: 0 <= m < |s| && !(lo <= m < hi) ==> t[m] == s[m]
  }

  lemma SwapPermutes(s: seq<Element>, x: nat, y: nat, lo: int, hi: int)
    requires x < |s| && y < |s| && lo <= x < hi && lo <= y < hi
    ensures Permuted(s, Swapped(s, x, y), lo, hi)
  {
    SwapKeepsBag(s, x, y);
  }

  lemma SwapKeepsBag(s: seq<Element>, x: nat, y: nat)
    requires x < |s| && y < |s|
    ensures multiset(Swapped(s, x, y)) == multiset(s)
  {}

  lemma PermutedTwice(s: seq<Element>, t: seq<Element>, u: seq<Element>, lo: int, hi: int)
    requires Permuted(s, t, lo, hi) && Permuted(t, u, lo, hi)
    ensures Permuted(s, u, lo, hi)
  {}

  lemma PermutedWider(s: seq<Element>, t: seq<Element>, lo: int, hi: int, lo': int, hi': int)
    requires Permuted(s, t, lo, hi) && lo' <= lo && hi <= hi'
    ensures Permuted(s, t, lo', hi')
  {}

  lemma BagInThree(s: seq<Element>, lo: nat, hi: nat)
    requires lo <= hi <= |s|
    ensures multiset(s) == multiset(s[..lo]) + multiset(s[lo..hi]) + multiset(s[hi..])
  {
    assert s == s[..lo] + s[lo..hi] + s[hi..];
  }

  lemma RangeBag(s: seq<Element>, t: seq<Element>, lo: nat, hi: nat)
    requires Permuted(s, t, lo, hi) && lo <= hi <= |s|
    ensures multiset(s[lo..hi]) == multiset(t[lo..hi])
  {
    BagInThree(s, lo, hi);
    BagInThree(t, lo, hi);
    assert s[..lo] == t[..lo] && s[hi..] == t[hi..];
    BagCancel(multiset(s[..lo]), multiset(s[lo..hi]), multiset(t[lo..hi]), multiset(s[hi..]));
  }

  lemma BagCancel(a: multiset<Element>, b: multiset<Element>, b': multiset<Element>, c: multiset<Element>)
    requires a + b + c == a + b' + c
    ensures b == b'
  {
    forall x: Element
      ensures b[x] == b'[x]
    {
      assert (a + b + c)[x] == a[x] + b[x] + c[x] && (a + b' + c)[x] == a[x] + b'[x] + c[x];
    }
  }

  /** An element of a reordered range was in that range before. */
  lemma PermutedElement(s: seq<Element>, t: seq<Element>, lo: nat, hi: nat, m: nat) returns (k: nat)
    requires Permuted(s, t, lo, hi) && lo <= m < hi <= |s|
    ensures lo <= k < hi && s[k] == t[m]
  {
    RangeBag(s, t, lo, hi);
    var a, b := s[lo..hi], t[lo..hi];
    assert b[m - lo] in multiset(b);
    assert t[m] in a;
    var d: nat :| d < |a| && a[d] == t[m];
    k := lo + d;
  }

  lemma AtMostKept(cmp: Order, s: seq<Element>, t: seq<Element>, lo: nat, hi: nat, v: Element)
    requires Permuted(s, t, lo, hi) && hi <= |s| && AtMost(cmp, s, lo, hi, v)
    ensures AtMost(cmp, t, lo, hi, v)
  {
    forall m | lo <= m < hi
      ensures cmp(t[m], v) <= 0
    {
      var k := PermutedElement(s, t, lo, hi, m);
    }
  }

  lemma AtLeastKept(cmp: Order, s: seq<Element>, t: seq<Element>, lo: nat, hi: nat, v: Element)
    requires Permuted(s, t, lo, hi) && hi <= |s| && AtLeast(cmp, s, lo, hi, v)
    ensures AtLeast(cmp, t, lo, hi, v)
  {
    forall m | lo <= m < hi
      ensures cmp(t[m], v) >= 0
    {
      var k := PermutedElement(s, t, lo, hi, m);
    }
  }

  // ---- Partitioning ----

  /** The four regions at the head of the partitioning loop: equal up to `p`, less up to `i`, not yet looked at
      up to `j`, greater up to `q`, equal up to the pivot at `r`. */
  ghost predicate Regions(cmp: Order, s: seq<Element>, l: int, r: int, i: int, j: int, p: int, q: int) {
    && 0 <= l < r < |s| && l - 1 <= p <= i < j <= q <= r && l < j
    && Same(cmp, s, l, p + 1, s[r]) && Less(cmp, s, p + 1, i + 1, s[r])
    && Greater(cmp, s, j, q, s[r]) && Same(cmp, s, q, r + 1, s[r])
  }

  /** The regions when the indices have met. */
  ghost predicate Split(cmp: Order, s: seq<Element>, l: int, r: int, i: int, p: int, q: int) {
    && 0 <= l < r < |s| && l - 1 <= p < i <= q <= r && l <= i
    && Same(cmp, s, l, p + 1, s[r]) && Less(cmp, s, p + 1, i, s[r])
    && AtLeast(cmp, s, i, r + 1, s[r]) && Same(cmp, s, q, r + 1, s[r])
  }

  /** Where the scan from the left stops. */
  ghost predicate StopsUp(cmp: Order, s: seq<Element>, r: int, i0: int, i: int) {
    0 <= r < |s| && -1 <= i0 < i <= r && Less(cmp, s, i0 + 1, i, s[r]) && (i == r || cmp(s[i], s[r]) >= 0)
  }

  /** Where the scan from the right stops. */
  ghost predicate StopsDown(cmp: Order, s: seq<Element>, l: int, r: int, j0: int, j: int) {
    0 <= l <= j < j0 <= r < |s| && Greater(cmp, s, j + 1, j0, s[r]) && (j == l || cmp(s[j], s[r]) <= 0)
  }

  lemma ScansMeet(cmp: Order, s: seq<Element>, l: int, r: int, i0: int, j0: int, p: int, q: int, i: int, j: int)
    requires Regions(cmp, s, l, r, i0, j0, p, q) && StopsUp(cmp, s, r, i0, i) && StopsDown(cmp, s, l, r, j0, j)
    requires i >= j && cmp(s[r], s[r]) == 0
    ensures Split(cmp, s, l, r, i, p, q)
  {
    var atUnseen := cmp(s[j0], s[r]);
    assert i <= j0;
  }

  /** After exchanging the two elements found. */
  ghost predicate Exchanged(cmp: Order, s: seq<Element>, l: int, r: int, i: int, j: int, p: int, q: int) {
    && 0 <= l < r < |s| && l - 1 <= p < i < j < q <= r && l <= i
    && Same(cmp, s, l, p + 1, s[r]) && Less(cmp, s, p + 1, i, s[r]) && cmp(s[i], s[r]) <= 0
    && cmp(s[j], s[r]) >= 0 && Greater(cmp, s, j + 1, q, s[r]) && Same(cmp, s, q, r + 1, s[r])
  }

  lemma ScansPart(cmp: Order, s: seq<Element>, l: int, r: int, i0: int, j0: int, p: int, q: int, i: int, j: int)
    requires Regions(cmp, s, l, r, i0, j0, p, q) && StopsUp(cmp, s, r, i0, i) && StopsDown(cmp, s, l, r, j0, j) && i < j
    ensures Exchanged(cmp, Swapped(s, i, j), l, r, i, j, p, q)
  {}

  /** After the left element has been dealt with. */
  ghost predicate LeftDone(cmp: Order, s: seq<Element>, l: int, r: int, i: int, j: int, p: int, q: int) {
    && 0 <= l < r < |s| && l - 1 <= p <= i < j < q <= r && l <= i
    && Same(cmp, s, l, p + 1, s[r]) && Less(cmp, s, p + 1, i + 1, s[r])
    && cmp(s[j], s[r]) >= 0 && Greater(cmp, s, j + 1, q, s[r]) && Same(cmp, s, q, r + 1, s[r])
  }

  lemma LeftStep(cmp: Order, s: seq<Element>, l: int, r: int, i: int, j: int, p: int, q: int)
    requires Exchanged(cmp, s, l, r, i, j, p, q)
    ensures if cmp(s[i], s[r]) == 0 then LeftDone(cmp, Swapped(s, p + 1, i), l, r, i, j, p + 1, q)
            else LeftDone(cmp, s, l, r, i, j, p, q)
  {}

  lemma RightStep(cmp: Order, s: seq<Element>, l: int, r: int, i: int, j: int, p: int, q: int)
    requires LeftDone(cmp, s, l, r, i, j, p, q)
    ensures if cmp(s[j], s[r]) == 0 then Regions(cmp, Swapped(s, j, q - 1), l, r, i, j, p, q - 1)
            else Regions(cmp, s, l, r, i, j, p, q)
  {}

  /** Calls the comparison function on two slots. */
  method Compare(base: array<Byte>, size: nat, ghost n: nat, cmp: Order, x: nat, y: nat) returns (c: int)
    requires base.Length == n * size && x < n && y < n
    ensures c == cmp(View(base, size, n)[x], View(base, size, n)[y])
  {
    SlotBounds(x, n, size);
    SlotBounds(y, n, size);
    c := cmp(base[x * size..x * size + size], base[y * size..y * size + size]);
  }

  method ScanUp(base: array<Byte>, size: nat, ghost n: nat, cmp: Order, r: nat, i0: int) returns (i: nat)
    requires base.Length == n * size && -1 <= i0 < r < n
    ensures StopsUp(cmp, View(base, size, n), r, i0, i)
  {
    i := i0 + 1;
    while i != r
      invariant i0 < i <= r && Less(cmp, View(base, size, n), i0 + 1, i, View(base, size, n)[r])
      decreases r - i
    {
      var c := Compare(base, size, n, cmp, i, r);
      if c >= 0 { break; }
      i := i + 1;
    }
  }

  method ScanDown(base: array<Byte>, size: nat, ghost n: nat, cmp: Order, l: nat, r: nat, j0: nat) returns (j: nat)
    requires base.Length == n * size && l < j0 <= r < n && TotalPreorder(cmp)
    ensures StopsDown(cmp, View(base, size, n), l, r, j0, j)
  {
    ghost var s := View(base, size, n);
    j := j0 - 1;
    while true
      invariant l <= j < j0 && Greater(cmp, s, j + 1, j0, s[r])
      decreases j
    {
      var c := Compare(base, size, n, cmp, r, j);
      Flip(cmp, s[r], s[j]);
      if c >= 0 || j == l { break; }
      j := j - 1;
    }
  }

  /** Partitions the range around its last element. */
  method Partition(base: array<Byte>, size: nat, ghost n: nat, cmp: Order, l: nat, r: nat)
    returns (i: nat, p: int, q: nat)
    requires base.Length == n * size && l < r < n && TotalPreorder(cmp)
    modifies base
    ensures Split(cmp, View(base, size, n), l, r, i, p, q)
    ensures Permuted(old(View(base, size, n)), View(base, size, n), l, r + 1)
  {
    hide TotalPreorder, Regions, Split, Permuted, StopsUp, StopsDown, View;
    ghost var before := View(base, size, n);
    AtFirst(cmp, before, l, r);
    var up, j := l - 1, r;
    p, q := l - 1, r;
    while true
      invariant Regions(cmp, View(base, size, n), l, r, up, j, p, q)
      invariant Permuted(before, View(base, size, n), l, r + 1)
      decreases j - up
    {
      RegionBounds(cmp, View(base, size, n), l, r, up, j, p, q);
      i := ScanUp(base, size, n, cmp, r, up);
      var down := ScanDown(base, size, n, cmp, l, r, j);
      if i >= down {
        ScansMeet(cmp, View(base, size, n), l, r, up, j, p, q, i, down);
        break;
      }
      ghost var s := View(base, size, n);
      p, q := ExchangePair(base, size, n, cmp, l, r, up, j, p, q, i, down);
      PermutedTwice(before, s, View(base, size, n), l, r + 1);
      up, j := i, down;
    }
  }

  lemma AtFirst(cmp: Order, s: seq<Element>, l: nat, r: nat)
    requires l < r < |s| && TotalPreorder(cmp)
    ensures Regions(cmp, s, l, r, l - 1, r, l - 1, r) && Permuted(s, s, l, r + 1)
  {
    Flip(cmp, s[r], s[r]);
  }

  lemma RegionBounds(cmp: Order, s: seq<Element>, l: int, r: int, i: int, j: int, p: int, q: int)
    requires Regions(cmp, s, l, r, i, j, p, q)
    ensures 0 <= l < r < |s| && l - 1 <= p <= i < j <= q <= r && l < j && cmp(s[r], s[r]) == 0
  {}

  /** Exchanges the two elements the scans stopped at, and moves those equal to the pivot to the ends. */
  method ExchangePair(base: array<Byte>, size: nat, ghost n: nat, cmp: Order, ghost l: nat, r: nat, ghost i0: int,
                      ghost j0: nat, p0: int, q0: nat, i: nat, j: nat) returns (p: int, q: nat)
    requires base.Length == n * size && TotalPreorder(cmp) && i < j
    requires Regions(cmp, View(base, size, n), l, r, i0, j0, p0, q0)
    requires StopsUp(cmp, View(base, size, n), r, i0, i) && StopsDown(cmp, View(base, size, n), l, r, j0, j)
    modifies base
    ensures Regions(cmp, View(base, size, n), l, r, i, j, p, q)
    ensures Permuted(old(View(base, size, n)), View(base, size, n), l, r + 1)
  {
    hide Permuted, Same, Less, Greater, TotalPreorder, View, Exchanged, LeftDone;
    ghost var s0 := View(base, size, n);
    ScansPart(cmp, s0, l, r, i0, j0, p0, q0, i, j);
    Exchange(base, size, n, i, j);
    SwapPermutes(s0, i, j, l, r + 1);
    ghost var s1 := View(base, size, n);
    p := MoveLeft(base, size, n, cmp, l, r, i, j, p0, q0);
    PermutedTwice(s0, s1, View(base, size, n), l, r + 1);
    ghost var s2 := View(base, size, n);
    q := MoveRight(base, size, n, cmp, l, r, i, j, p, q0);
    PermutedTwice(s0, s2, View(base, size, n), l, r + 1);
  }

  method MoveLeft(base: array<Byte>, size: nat, ghost n: nat, cmp: Order, ghost l: nat, r: nat, i: nat, ghost j: nat,
                  p0: int, ghost q: nat)
    returns (p: int)
    requires base.Length == n * size && Exchanged(cmp, View(base, size, n), l, r, i, j, p0, q)
    modifies base
    ensures LeftDone(cmp, View(base, size, n), l, r, i, j, p, q)
    ensures Permuted(old(View(base, size, n)), View(base, size, n), l, r + 1)
  {
    hide Same, Less, Greater;
    p := p0;
    var c := Compare(base, size, n, cmp, i, r);
    ghost var s := View(base, size, n);
    LeftStep(cmp, s, l, r, i, j, p, q);
    if c == 0 {
      p := p + 1;
      SwapPermutes(s, p, i, l, r + 1);
      Exchange(base, size, n, p, i);
    }
  }

  method MoveRight(base: array<Byte>, size: nat, ghost n: nat, cmp: Order, ghost l: nat, r: nat, ghost i: nat, j: nat,
                   ghost p: int, q0: nat)
    returns (q: nat)
    requires base.Length == n * size && LeftDone(cmp, View(base, size, n), l, r, i, j, p, q0) && TotalPreorder(cmp)
    modifies base
    ensures Regions(cmp, View(base, size, n), l, r, i, j, p, q)
    ensures Permuted(old(View(base, size, n)), View(base, size, n), l, r + 1)
  {
    hide Same, Less, Greater, TotalPreorder;
    q := q0;
    ghost var s := View(base, size, n);
    var c := Compare(base, size, n, cmp, r, j);
    Flip(cmp, s[r], s[j]);
    RightStep(cmp, s, l, r, i, j, p, q);
    if c == 0 {
      q := q - 1;
      SwapPermutes(s, j, q, l, r + 1);
      Exchange(base, size, n, j, q);
    }
  }

  // ---- Bringing the equal elements to the middle ----

  /** The pivot `v` in its place `i0`, equal elements still at both ends. */
  ghost predicate Placed(cmp: Order, s: seq<Element>, l: int, r: int, i0: int, p: int, q: int, v: Element) {
    && 0 <= l <= i0 <= q <= r < |s| && l < r && l - 1 <= p < i0
    && Same(cmp, s, l, p + 1, v) && AtMost(cmp, s, l, i0, v) && cmp(s[i0], v) == 0
    && AtLeast(cmp, s, i0, r + 1, v) && Same(cmp, s, q, r, v)
  }

  lemma PivotPlaced(cmp: Order, s: seq<Element>, l: int, r: int, i: int, p: int, q: int)
    requires Split(cmp, s, l, r, i, p, q)
    ensures Placed(cmp, Swapped(s, i, r), l, r, i, p, q, s[r])
  {}

  /** The loop that fills the middle from the left: slots up to `k` have been exchanged with slots from `j` on.
      The indices may have crossed; a slot left of `k` that received an equal element still holds one. */
  ghost predicate FillingLeft(cmp: Order, s: seq<Element>, l: int, i0: int, p: int, k: int, j: int, v: Element) {
    && 0 <= l <= k && p < i0 <= |s| && (k <= p || k == l) && j == i0 - 1 - (k - l)
    && Same(cmp, s, k, p + 1, v) && Same(cmp, s, j + 1, i0, v) && AtMost(cmp, s, l, i0, v)
    && forall m :: l <= m < k && m - l >= i0 - 1 - p ==> m < |s| && cmp(s[m], v) == 0
  }

  lemma FillLeftStep(cmp: Order, s: seq<Element>, l: int, i0: int, p: int, k: int, j: int, v: Element)
    requires FillingLeft(cmp, s, l, i0, p, k, j, v) && k < p
    ensures l <= j < i0 && k < i0 && FillingLeft(cmp, Swapped(s, k, j), l, i0, p, k + 1, j - 1, v)
  {
    assert cmp(s[k], v) == 0;
    if j < k { assert cmp(s[j], v) == 0; } else if j <= p { assert cmp(s[j], v) == 0; }
  }

  method GatherLeft(base: array<Byte>, size: nat, ghost n: nat, ghost cmp: Order, l: nat, ghost i0: nat, p: int,
                    j0: int, ghost v: Element)
    returns (j: int)
    requires base.Length == n * size && i0 < n && j0 == i0 - 1 && l <= i0
    requires FillingLeft(cmp, View(base, size, n), l, i0, p, l, j0, v)
    modifies base
    ensures l - 1 <= j < i0 && AtMost(cmp, View(base, size, n), l, j + 1, v)
            && Same(cmp, View(base, size, n), j + 1, i0, v)
    ensures Permuted(old(View(base, size, n)), View(base, size, n), l, i0)
  {
    hide Same, AtMost, Permuted, View, FillingLeft;
    ghost var before := View(base, size, n);
    SamePermuted(before, l, i0);
    var k := l;
    j := j0;
    while k < p
      invariant l <= k && FillingLeft(cmp, View(base, size, n), l, i0, p, k, j, v)
      invariant Permuted(before, View(base, size, n), l, i0)
    {
      ghost var s := View(base, size, n);
      FillLeftStep(cmp, s, l, i0, p, k, j, v);
      SwapPermutes(s, k, j, l, i0);
      Exchange(base, size, n, k, j);
      PermutedTwice(before, s, View(base, size, n), l, i0);
      k, j := k + 1, j - 1;
    }
    FilledLeft(cmp, View(base, size, n), l, i0, p, k, j, v);
  }

  lemma FilledLeft(cmp: Order, s: seq<Element>, l: int, i0: int, p: int, k: int, j: int, v: Element)
    requires FillingLeft(cmp, s, l, i0, p, k, j, v) && k >= p && l <= i0
    ensures l - 1 <= j < i0 && AtMost(cmp, s, l, j + 1, v) && Same(cmp, s, j + 1, i0, v)
  {}

  lemma SamePermuted(s: seq<Element>, lo: int, hi: int)
    ensures Permuted(s, s, lo, hi)
  {}

  /** The loop that fills the middle from the right. */
  ghost predicate FillingRight(cmp: Order, s: seq<Element>, r: int, i0: int, q: int, k: int, i: int, v: Element) {
    && 0 <= i0 <= q <= r < |s| && k < r && (k >= q || k == r - 1) && i == i0 + 1 + (r - 1 - k)
    && Same(cmp, s, q, k + 1, v) && Same(cmp, s, i0, i, v) && AtLeast(cmp, s, i0, r + 1, v)
    && forall m :: k < m < r && i0 + 1 + (r - 1 - m) >= q ==> m >= 0 && cmp(s[m], v) == 0
  }

  lemma FillRightStep(cmp: Order, s: seq<Element>, r: int, i0: int, q: int, k: int, i: int, v: Element)
    requires FillingRight(cmp, s, r, i0, q, k, i, v) && k > q
    ensures i0 < i <= r && q >= 0 && k > i0 && FillingRight(cmp, Swapped(s, i, k), r, i0, q, k - 1, i + 1, v)
  {
    assert cmp(s[k], v) == 0;
    if i > k { assert cmp(s[i], v) == 0; } else if i >= q { assert cmp(s[i], v) == 0; }
  }

  method GatherRight(base: array<Byte>, size: nat, ghost n: nat, ghost cmp: Order, r: nat, ghost i0: nat, q: nat,
                     i1: nat, ghost v: Element)
    returns (i: nat)
    requires base.Length == n * size && i1 == i0 + 1 && 0 < r < n
    requires FillingRight(cmp, View(base, size, n), r, i0, q, r - 1, i1, v)
    modifies base
    ensures i0 < i <= r + 1 && AtLeast(cmp, View(base, size, n), i, r + 1, v)
            && Same(cmp, View(base, size, n), i0, i, v)
    ensures Permuted(old(View(base, size, n)), View(base, size, n), i0 + 1, r + 1)
  {
    hide Same, AtLeast, Permuted, View, FillingRight;
    ghost var before := View(base, size, n);
    SamePermuted(before, i0 + 1, r + 1);
    var k := r - 1;
    i := i1;
    while k > q
      invariant -1 <= k < r && i0 < i && FillingRight(cmp, View(base, size, n), r, i0, q, k, i, v)
      invariant Permuted(before, View(base, size, n), i0 + 1, r + 1)
    {
      ghost var s := View(base, size, n);
      FillRightStep(cmp, s, r, i0, q, k, i, v);
      SwapPermutes(s, i, k, i0 + 1, r + 1);
      Exchange(base, size, n, i, k);
      PermutedTwice(before, s, View(base, size, n), i0 + 1, r + 1);
      k, i := k - 1, i + 1;
    }
    FilledRight(cmp, View(base, size, n), r, i0, q, k, i, v);
  }

  lemma FilledRight(cmp: Order, s: seq<Element>, r: int, i0: int, q: int, k: int, i: int, v: Element)
    requires FillingRight(cmp, s, r, i0, q, k, i, v) && k <= q
    ensures i0 < i <= r + 1 && AtLeast(cmp, s, i, r + 1, v) && Same(cmp, s, i0, i, v)
  {}

  // ---- Sorting ----

  /** The range in three parts: up to the pivot, equal to it, from the pivot on. */
  ghost predicate InThree(cmp: Order, s: seq<Element>, l: int, j: int, i: int, r: int, v: Element) {
    && 0 <= l <= j + 1 < i <= r + 1 <= |s|
    && AtMost(cmp, s, l, j + 1, v) && Same(cmp, s, j + 1, i, v) && AtLeast(cmp, s, i, r + 1, v)
  }

  lemma LeftSorted(cmp: Order, s: seq<Element>, t: seq<Element>, l: int, j: int, i: int, r: int, v: Element)
    requires InThree(cmp, s, l, j, i, r, v) && Permuted(s, t, l, j + 1)
    ensures InThree(cmp, t, l, j, i, r, v)
  {
    AtMostKept(cmp, s, t, l, j + 1, v);
  }

  lemma RightSorted(cmp: Order, s: seq<Element>, t: seq<Element>, l: int, j: int, i: int, r: int, v: Element)
    requires InThree(cmp, s, l, j, i, r, v) && Permuted(s, t, i, r + 1)
    ensures InThree(cmp, t, l, j, i, r, v)
    ensures Sorted(cmp, s, l, j + 1) ==> Sorted(cmp, t, l, j + 1)
  {
    AtLeastKept(cmp, s, t, i, r + 1, v);
  }

  lemma PartsSorted(cmp: Order, s: seq<Element>, l: int, j: int, i: int, r: int, v: Element)
    requires TotalPreorder(cmp) && InThree(cmp, s, l, j, i, r, v) && Sorted(cmp, s, l, j + 1)
             && Sorted(cmp, s, i, r + 1)
    ensures Sorted(cmp, s, l, r + 1)
  {
    hide TotalPreorder;
    forall a, b | l <= a < b < r + 1
      ensures cmp(s[a], s[b]) <= 0
    {
      if !(b <= j || a >= i) {
        AcrossPivot(cmp, s, l, j, i, r, v, a, b);
      }
    }
  }

  lemma AcrossPivot(cmp: Order, s: seq<Element>, l: int, j: int, i: int, r: int, v: Element, a: int, b: int)
    requires TotalPreorder(cmp) && InThree(cmp, s, l, j, i, r, v) && l <= a < b <= r && a < i && b > j
    ensures cmp(s[a], s[b]) <= 0
  {
    hide TotalPreorder;
    assert cmp(s[a], v) <= 0 && cmp(s[b], v) >= 0;
    Flip(cmp, s[b], v);
    Trans(cmp, s[a], v, s[b]);
  }

  /** Sorts the slots from `l` to `r`. */
  method Quicksort(base: array<Byte>, size: nat, ghost n: nat, cmp: Order, l: nat, r: int)
    requires base.Length == n * size && l <= r + 1 && r < n && TotalPreorder(cmp)
    modifies base
    ensures Sorted(cmp, View(base, size, n), l, r + 1)
    ensures Permuted(old(View(base, size, n)), View(base, size, n), l, r + 1)
    decreases r - l
  {
    hide TotalPreorder, Permuted, InThree, View, Sorted;
    ghost var s0 := View(base, size, n);
    if r <= l {
      TrivialRange(cmp, s0, l, r);
      return;
    }
    var j, i;
    ghost var v;
    j, i, v := Divide(base, size, n, cmp, l, r);
    ghost var s1 := View(base, size, n);
    ThreeBounds(cmp, s1, l, j, i, r, v);
    Quicksort(base, size, n, cmp, l, j);
    ghost var s2 := View(base, size, n);
    LeftSorted(cmp, s1, s2, l, j, i, r, v);
    Quicksort(base, size, n, cmp, i, r);
    ghost var s3 := View(base, size, n);
    RightSorted(cmp, s2, s3, l, j, i, r, v);
    PartsSorted(cmp, s3, l, j, i, r, v);
    PermutedWider(s1, s2, l, j + 1, l, r + 1);
    PermutedWider(s2, s3, i, r + 1, l, r + 1);
    PermutedTwice(s0, s1, s2, l, r + 1);
    PermutedTwice(s0, s2, s3, l, r + 1);
  }

  lemma TrivialRange(cmp: Order, s: seq<Element>, l: nat, r: int)
    requires l <= r + 1 <= |s| && r <= l
    ensures Sorted(cmp, s, l, r + 1) && Permuted(s, s, l, r + 1)
  {}

  lemma ThreeBounds(cmp: Order, s: seq<Element>, l: int, j: int, i: int, r: int, v: Element)
    requires InThree(cmp, s, l, j, i, r, v)
    ensures 0 <= l <= j + 1 < i <= r + 1 <= |s| && j < r
  {}

  /** Everything before the recursive calls: partition, pivot into place, equal elements to the middle. Both ranges
      left to sort exclude the pivot's slot. */
  method Divide(base: array<Byte>, size: nat, ghost n: nat, cmp: Order, l: nat, r: nat)
    returns (j: int, i: nat, ghost v: Element)
    requires base.Length == n * size && l < r < n && TotalPreorder(cmp)
    modifies base
    ensures InThree(cmp, View(base, size, n), l, j, i, r, v)
    ensures Permuted(old(View(base, size, n)), View(base, size, n), l, r + 1)
  {
    hide TotalPreorder, Permuted, InThree, View, Split, Placed, FillingLeft, FillingRight, Same, AtMost, AtLeast;
    ghost var s0 := View(base, size, n);
    var i0, p, q := Partition(base, size, n, cmp, l, r);
    ghost var s1 := View(base, size, n);
    v := s1[r];
    PivotPlaced(cmp, s1, l, r, i0, p, q);
    SplitBounds(cmp, s1, l, r, i0, p, q);
    assert i0 < n && r < n;
    Exchange(base, size, n, i0, r);
    SwapPermutes(s1, i0, r, l, r + 1);
    ghost var s2 := View(base, size, n);
    PermutedTwice(s0, s1, s2, l, r + 1);
    ReadyLeft(cmp, s2, l, r, i0, p, q, v);
    j := GatherLeft(base, size, n, cmp, l, i0, p, i0 - 1, v);
    ghost var s3 := View(base, size, n);
    PermutedWider(s2, s3, l, i0, l, r + 1);
    PermutedTwice(s0, s2, s3, l, r + 1);
    ReadyRight(cmp, s2, s3, l, r, i0, p, q, v);
    i := GatherRight(base, size, n, cmp, r, i0, q, i0 + 1, v);
    ghost var s4 := View(base, size, n);
    PermutedWider(s3, s4, i0 + 1, r + 1, l, r + 1);
    PermutedTwice(s0, s3, s4, l, r + 1);
    Gathered(cmp, s3, s4, l, r, i0, j, i, v);
  }

  lemma SplitBounds(cmp: Order, s: seq<Element>, l: int, r: int, i: int, p: int, q: int)
    requires Split(cmp, s, l, r, i, p, q)
    ensures 0 <= l <= i <= q <= r < |s| && l - 1 <= p < i
  {}

  lemma ReadyLeft(cmp: Order, s: seq<Element>, l: int, r: int, i0: int, p: int, q: int, v: Element)
    requires Placed(cmp, s, l, r, i0, p, q, v)
    ensures FillingLeft(cmp, s, l, i0, p, l, i0 - 1, v)
  {}

  lemma ReadyRight(cmp: Order, s: seq<Element>, t: seq<Element>, l: int, r: int, i0: int, p: int, q: int, v: Element)
    requires Placed(cmp, s, l, r, i0, p, q, v) && Permuted(s, t, l, i0)
    ensures FillingRight(cmp, t, r, i0, q, r - 1, i0 + 1, v)
  {}

  lemma Gathered(cmp: Order, s: seq<Element>, t: seq<Element>, l: int, r: int, i0: int, j: int, i: int, v: Element)
    requires 0 <= l <= i0 <= r < |s| && l - 1 <= j < i0 < i <= r + 1 && Permuted(s, t, i0 + 1, r + 1)
    requires AtMost(cmp, s, l, j + 1, v) && Same(cmp, s, j + 1, i0, v) && Same(cmp, t, i0, i, v)
             && AtLeast(cmp, t, i, r + 1, v)
    ensures InThree(cmp, t, l, j, i, r, v)
  {}

  const SIZE_MAX: nat := 0xFFFF_FFFF

  /** `qsort`: counts or sizes in the upper half of `size_t` are refused and leave the buffer alone; all other inputs
      are sorted, and hold the same elements as before. */
  method Sort(base: array<Byte>, nmemb: nat, size: nat, cmp: Order)
    requires base.Length == nmemb * size && TotalPreorder(cmp)
    modifies base
    ensures nmemb >= SIZE_MAX / 2 || size >= SIZE_MAX / 2 ==> base[..] == old(base[..])
    ensures nmemb < SIZE_MAX / 2 && size < SIZE_MAX / 2 ==> Sorted(cmp, View(base, size, nmemb), 0, nmemb)
    ensures multiset(View(base, size, nmemb)) == multiset(old(View(base, size, nmemb)))
  {
    hide TotalPreorder;
    if nmemb >= SIZE_MAX / 2 || size >= SIZE_MAX / 2 {
      return;
    }
    if nmemb > 1 {
      Quicksort(base, size, nmemb, cmp, 0, nmemb - 1);
    }
  }
}