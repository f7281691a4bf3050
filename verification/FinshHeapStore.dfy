/**
 The shell's heap in memory: headers and data live in one array, the lists are linked through the
 headers, and every operation relinks and resizes headers in place. The cell of a 32-bit word is the
 address of its first byte: a header at `h` keeps its length at `h` and its link at `h + 4`.
 */
module FinshHeapStore {
  import opened FinshHeap

  const LINK: int := 4

  datatype Variable = Variable(typed: bool, ptr: int)

  // ---- Linked lists in memory ----

  function ItemAt(l: seq<int>, i: nat): int { if i < |l| then l[i] else NULL }

  /** The link of the header at `a`. */
  function LinkOf(m: seq<int>, a: int): int {
    if 0 <= a && a + LINK < |m| then m[a + LINK] else NULL
  }

  ghost predicate Linked(m: seq<int>, head: int, l: seq<int>) {
    && head == ItemAt(l, 0)
    && (forall i :: 0 <= i < |l| ==> 0 <= l[i] && l[i] + LINK < |m|)
    && (forall i {:trigger LinkOf(m, l[i])} :: 0 <= i < |l| ==> LinkOf(m, l[i]) == ItemAt(l, i + 1))
  }

  /** Memory changed at most in the link cells of `l`'s members and of `h`. */
  ghost predicate OnlyLinks(before: seq<int>, after: seq<int>, l: seq<int>, h: int) {
    && |after| == |before|
    && forall c :: 0 <= c < |before| && c != h + LINK && c - LINK !in l ==> after[c] == before[c]
  }

  /** A new member between positions `k - 1` and `k`. */
  lemma LinkedInsert(before: seq<int>, after: seq<int>, head: int, l: seq<int>, h: int, k: nat)
    requires Linked(before, head, l) && |after| == |before| && k <= |l|
    requires 0 <= h && h + LINK < |before|
    requires LinkOf(after, h) == ItemAt(l, k)
    requires k > 0 ==> LinkOf(after, l[k - 1]) == h
    requires forall i {:trigger LinkOf(after, l[i])} :: 0 <= i < |l| && i != k - 1 ==>
               LinkOf(after, l[i]) == LinkOf(before, l[i])
    ensures Linked(after, if k == 0 then h else head, l[..k] + [h] + l[k..])
  {
    hide LinkOf;
    var l' := l[..k] + [h] + l[k..];
    forall i | 0 <= i < |l'|
      ensures 0 <= l'[i] && l'[i] + LINK < |after| && LinkOf(after, l'[i]) == ItemAt(l', i + 1)
    {
      if i < k {
        assert l'[i] == l[i];
        assert LinkOf(after, l[i]) == ItemAt(l', i + 1);
      } else if i == k {
        assert l'[i] == h;
      } else {
        assert l'[i] == l[i - 1];
        assert LinkOf(after, l[i - 1]) == ItemAt(l, i) == ItemAt(l', i + 1);
      }
    }
  }

  /** The members at positions `k` up to `j` are bypassed. */
  lemma LinkedSkip(before: seq<int>, after: seq<int>, head: int, l: seq<int>, k: nat, j: nat)
    requires Linked(before, head, l) && |after| == |before| && 0 < k <= j <= |l|
    requires LinkOf(after, l[k - 1]) == ItemAt(l, j)
    requires forall i {:trigger LinkOf(after, l[i])} :: 0 <= i < |l| && i != k - 1 && !(k <= i < j) ==>
               LinkOf(after, l[i]) == LinkOf(before, l[i])
    ensures Linked(after, head, l[..k] + l[j..])
  {
    hide LinkOf;
    var l' := l[..k] + l[j..];
    forall i | 0 <= i < |l'|
      ensures 0 <= l'[i] && l'[i] + LINK < |after| && LinkOf(after, l'[i]) == ItemAt(l', i + 1)
    {
      if i < k {
        assert l'[i] == l[i];
        assert LinkOf(after, l[i]) == ItemAt(l', i + 1);
      } else {
        assert l'[i] == l[i - k + j];
        assert LinkOf(after, l[i - k + j]) == ItemAt(l, i - k + j + 1) == ItemAt(l', i + 1);
      }
    }
  }

  /** The first member is dropped. */
  lemma LinkedTail(before: seq<int>, after: seq<int>, head: int, l: seq<int>)
    requires Linked(before, head, l) && |after| == |before| && l != []
    requires forall i {:trigger LinkOf(after, l[i])} :: 1 <= i < |l| ==> LinkOf(after, l[i]) == LinkOf(before, l[i])
    ensures Linked(after, LinkOf(before, head), l[1..])
  {
    hide LinkOf;
    assert LinkOf(before, l[0]) == ItemAt(l, 1);
    forall i | 0 <= i < |l[1..]|
      ensures 0 <= l[1..][i] && l[1..][i] + LINK < |after| && LinkOf(after, l[1..][i]) == ItemAt(l[1..], i + 1)
    {
      assert l[1..][i] == l[i + 1];
      assert LinkOf(after, l[i + 1]) == ItemAt(l, i + 2);
    }
  }

  /** A list none of whose link cells changed. */
  lemma LinkedElsewhere(before: seq<int>, after: seq<int>, head: int, l: seq<int>)
    requires Linked(before, head, l) && |after| == |before|
    requires forall i {:trigger LinkOf(after, l[i])} :: 0 <= i < |l| ==> LinkOf(after, l[i]) == LinkOf(before, l[i])
    ensures Linked(after, head, l)
  {
    hide LinkOf;
    forall i | 0 <= i < |l|
      ensures LinkOf(after, l[i]) == ItemAt(l, i + 1)
    {
      assert LinkOf(before, l[i]) == ItemAt(l, i + 1);
    }
  }

  /** One link cell was written. */
  lemma LinkWritten(before: seq<int>, a: int, x: int, l: seq<int>)
    requires 0 <= a && a + LINK < |before|
    ensures var after := before[a + LINK := x];
            LinkOf(after, a) == x
            && (forall b {:trigger LinkOf(after, b)} :: b != a ==> LinkOf(after, b) == LinkOf(before, b))
            && OnlyLinks(before, after, l, a)
  {}

  lemma OnlyLinksTwice(m0: seq<int>, m1: seq<int>, m2: seq<int>, l: seq<int>, a: int, b: int)
    requires OnlyLinks(m0, m1, l, a) && OnlyLinks(m1, m2, l, b) && b in l
    ensures OnlyLinks(m0, m2, l, a)
  {}

  lemma Position(l: seq<int>, i: nat, j: nat)
    requires Sorted(l) && i < |l| && j < |l|
    ensures l[i] == l[j] <==> i == j
  {}

  /** The insertion behind position `k`. */
  lemma Inserted(m0: seq<int>, m1: seq<int>, m2: seq<int>, head: int, l: seq<int>, header: int, k: nat)
    requires Linked(m0, head, l) && Sorted(l) && header !in l && 0 <= header && header + LINK < |m0|
    requires k < |l| && l[k] < header && (k + 1 < |l| ==> header < l[k + 1])
    requires k + 1 == |l| ==> LinkOf(m0, header) == NULL && m1 == m0
    requires k + 1 < |l| ==> m1 == m0[header + LINK := l[k + 1]]
    requires l[k] + LINK < |m1| == |m0| && m2 == m1[l[k] + LINK := header]
    ensures Linked(m2, head, Insert(l, header)) && OnlyLinks(m0, m2, l, header)
  {
    hide LinkOf, OnlyLinks, Sorted, Insert, Linked;
    assert 0 <= l[k] by { LinkedNatural(m0, head, l, k); }
    LinkWritten(m1, l[k], header, l);
    if k + 1 < |l| {
      LinkWritten(m0, header, l[k + 1], l);
    } else {
      assert OnlyLinks(m0, m1, l, header) by { SameOnlyLinks(m0, l, header); }
    }
    OnlyLinksTwice(m0, m1, m2, l, header, l[k]);
    forall i | 0 <= i < |l| && i != k
      ensures LinkOf(m2, l[i]) == LinkOf(m0, l[i])
    {
      Position(l, i, k);
      assert l[i] in l;
    }
    SortedAround(l, header, k);
    InsertAt(l, header, k + 1);
    LinkedInsert(m0, m2, head, l, header, k + 1);
  }

  lemma LinkedNatural(m: seq<int>, head: int, l: seq<int>, k: nat)
    requires Linked(m, head, l) && k < |l|
    ensures 0 <= l[k]
  {}

  lemma SortedAround(l: seq<int>, header: int, k: nat)
    requires Sorted(l) && k < |l| && l[k] < header && (k + 1 < |l| ==> header < l[k + 1])
    ensures forall i :: 0 <= i < k + 1 ==> l[i] < header
  {}

  lemma SameOnlyLinks(m: seq<int>, l: seq<int>, h: int)
    ensures OnlyLinks(m, m, l, h)
  {}

  lemma InsertedFirst(m0: seq<int>, m1: seq<int>, head: int, l: seq<int>, header: int)
    requires Linked(m0, head, l) && Sorted(l) && header !in l && 0 <= header && header + LINK < |m0|
    requires if head == NULL then m1 == m0 && m0[header + LINK] == NULL
             else header < head && m1 == m0[header + LINK := head]
    ensures Linked(m1, header, Insert(l, header)) && OnlyLinks(m0, m1, l, header)
  {
    hide LinkOf;
    assert m1 == m0[header + LINK := head];
    LinkWritten(m0, header, head, l);
    forall i | 0 <= i < |l|
      ensures LinkOf(m1, l[i]) == LinkOf(m0, l[i])
    {
      assert l[i] in l;
    }
    LinkedInsert(m0, m1, head, l, header, 0);
    assert l[..0] + [header] + l[0..] == [header] + l;
  }

  lemma RemovedFirst(m0: seq<int>, m1: seq<int>, head: int, l: seq<int>)
    requires Linked(m0, head, l) && Sorted(l) && l != [] && head + LINK < |m0| && m1 == m0[head + LINK := NULL]
    ensures Linked(m1, LinkOf(m0, head), Remove(l, head)) && OnlyLinks(m0, m1, l, head)
  {
    hide LinkOf;
    LinkWritten(m0, head, NULL, l);
    forall i | 1 <= i < |l|
      ensures LinkOf(m1, l[i]) == LinkOf(m0, l[i])
    {
      Position(l, 0, i);
    }
    LinkedTail(m0, m1, head, l);
  }

  lemma RemovedLater(m0: seq<int>, m1: seq<int>, head: int, l: seq<int>, k: nat)
    requires Linked(m0, head, l) && Sorted(l) && k + 1 < |l|
    requires l[k + 1] + LINK < |m0| && l[k] + LINK < |m0| && m1 == m0[l[k] + LINK := LinkOf(m0, l[k + 1])]
    ensures Linked(m1, head, Remove(l, l[k + 1])) && OnlyLinks(m0, m1, l, l[k + 1])
  {
    hide LinkOf;
    LinkWritten(m0, l[k], LinkOf(m0, l[k + 1]), l);
    assert l[k] in l && l[k + 1] in l;
    assert OnlyLinks(m0, m1, l, l[k + 1]);
    forall i | 0 <= i < |l| && i != k
      ensures LinkOf(m1, l[i]) == LinkOf(m0, l[i])
    {
      Position(l, i, k);
    }
    RemoveAt(l, k + 1);
    LinkedSkip(m0, m1, head, l, k + 1, k + 2);
  }

  lemma HeadKnown(m: seq<int>, head: int, l: seq<int>)
    requires Linked(m, head, l)
    ensures head == NULL <==> l == []
    ensures l != [] ==> head == l[0] && l[0] in l && 0 <= head && head + LINK < |m|
  {}

  lemma MemberInMemory(m: seq<int>, head: int, l: seq<int>, k: nat)
    requires Linked(m, head, l) && k < |l|
    ensures 0 <= l[k] && l[k] + LINK < |m|
  {}

  lemma LastBelow(l: seq<int>, header: int, k: nat)
    requires Sorted(l) && k < |l| && l[k] < header
    ensures k + 1 == |l| ==> l[|l| - 1] < header
  {}

  // ---- The heap in memory ----

  ghost predicate Lengths(m: seq<int>, len: map<int, int>) {
    forall a :: a in len ==> 0 <= a < |m| && m[a] == len[a]
  }

  /** Memory and list heads represent a heap. */
  ghost predicate Realizes(m: seq<int>, freeList: int, allocateList: int, v: Heap) {
    && |m| == HEAP_MAX && Linked(m, freeList, v.free) && Linked(m, allocateList, v.used) && Lengths(m, v.len)
  }

  /** The data of every block of `len` is the same in both memories. */
  ghost predicate SameData(before: seq<int>, after: seq<int>, len: map<int, int>) {
    |after| == |before|
    && forall a, c :: a in len && a + HEADER <= c < End(len, a) && 0 <= c < |before| ==> after[c] == before[c]
  }

  /** Headers are eight cells apart, and no header cell is a data cell. */
  lemma HeaderCells(len: map<int, int>, a: int, b: int)
    requires Tiled(len) && a in len && b in len
    ensures a != b ==> a + HEADER <= b || b + HEADER <= a
    ensures 0 <= a && a + HEADER <= HEAP_MAX
  {
    AddressesNatural(len, a);
    AddressesNatural(len, b);
    assert Apart(len);
  }

  lemma DataCells(len: map<int, int>, a: int, c: int, b: int)
    requires Tiled(len) && a in len && b in len && a + HEADER <= c < End(len, a)
    ensures c != b && c != b + LINK && 0 <= c < HEAP_MAX
  {
    AddressesNatural(len, a);
    AddressesNatural(len, b);
    assert Apart(len);
  }

  lemma LinksKeepRest(len: map<int, int>, m: seq<int>, m': seq<int>, l: seq<int>, h: int)
    requires Tiled(len) && Lengths(m, len) && OnlyLinks(m, m', l, h) && |m| == HEAP_MAX
    requires h in len && forall x :: x in l ==> x in len
    ensures Lengths(m', len) && SameData(m, m', len)
  {
    forall a | a in len
      ensures 0 <= a < |m'| && m'[a] == len[a]
    {
      HeaderCells(len, a, h);
      if a - LINK in l { HeaderCells(len, a, a - LINK); }
    }
    forall a, c | a in len && a + HEADER <= c < End(len, a) && 0 <= c < |m|
      ensures m'[c] == m[c]
    {
      DataCells(len, a, c, h);
      if c - LINK in l { DataCells(len, a, c, c - LINK); }
    }
  }

  lemma LinksKeepOther(m: seq<int>, m': seq<int>, l: seq<int>, h: int, head: int, other: seq<int>)
    requires OnlyLinks(m, m', l, h) && Linked(m, head, other)
    requires forall x :: x in other ==> x !in l && x != h
    ensures Linked(m', head, other)
  {
    forall i | 0 <= i < |other|
      ensures LinkOf(m', other[i]) == LinkOf(m, other[i])
    {
      assert other[i] in other;
    }
    LinkedElsewhere(m, m', head, other);
  }

  /** One header was resized and relinked past the members between positions `s` and `j`. */
  lemma Relinked(m: seq<int>, m': seq<int>, freeList: int, allocateList: int, v: Heap, s: nat, j: nat,
                 len': map<int, int>)
    requires Realizes(m, freeList, allocateList, v) && Listed(v) && Tiled(v.len)
    requires s < j <= |v.free| && v.free[s] in len' && 0 <= v.free[s] && v.free[s] + LINK < |m|
    requires m' == m[v.free[s] := len'[v.free[s]]][v.free[s] + LINK := ItemAt(v.free, j)]
    requires forall a :: a in len' ==> a in v.len && (a == v.free[s] || len'[a] == v.len[a])
    ensures Realizes(m', freeList, allocateList, Heap(v.free[..s + 1] + v.free[j..], v.used, len'))
    ensures SameData(m, m', v.len)
  {
    hide Tiled, Sorted, LinkOf;
    var l := v.free;
    var q := l[s];
    assert q in l && q in v.len;
    RelinkedLists(m, m', freeList, allocateList, v, s, j, len'[q]);
    forall a | a in len'
      ensures 0 <= a < |m'| && m'[a] == len'[a]
    {
      HeaderCells(v.len, a, q);
    }
    forall a, c | a in v.len && a + HEADER <= c < End(v.len, a) && 0 <= c < |m|
      ensures m'[c] == m[c]
    {
      DataCells(v.len, a, c, q);
    }
  }

  lemma RelinkedLists(m: seq<int>, m': seq<int>, freeList: int, allocateList: int, v: Heap, s: nat, j: nat, x: int)
    requires Realizes(m, freeList, allocateList, v) && Listed(v) && Tiled(v.len)
    requires s < j <= |v.free| && 0 <= v.free[s] && v.free[s] + LINK < |m|
    requires m' == m[v.free[s] := x][v.free[s] + LINK := ItemAt(v.free, j)]
    ensures Linked(m', freeList, v.free[..s + 1] + v.free[j..]) && Linked(m', allocateList, v.used)
  {
    hide Tiled, Lengths;
    var l := v.free;
    var q := l[s];
    assert q in l && q in v.len;
    assert LinkOf(m', q) == ItemAt(l, j);
    forall b | b in v.len && b != q
      ensures LinkOf(m', b) == LinkOf(m, b)
    {
      HeaderCells(v.len, b, q);
    }
    forall i | 0 <= i < |l| && i != s
      ensures LinkOf(m', l[i]) == LinkOf(m, l[i])
    {
      Position(l, i, s);
      assert l[i] in l;
    }
    forall i | 0 <= i < |v.used|
      ensures LinkOf(m', v.used[i]) == LinkOf(m, v.used[i])
    {
      assert v.used[i] in v.used;
    }
    LinkedSkip(m, m', freeList, l, s + 1, j);
    LinkedElsewhere(m, m', allocateList, v.used);
  }

  /** The outcome of merging, by the positions of the neighbours. */
  lemma MergedCases(v: Heap, h: int, k: nat)
    requires Almost(v, h) && k < |v.free| && v.free[k] == h && h in v.len
    requires (k > 0 ==> v.free[k - 1] in v.len) && (k + 1 < |v.free| ==> v.free[k + 1] in v.len)
    ensures var l := v.free;
            var next, prev := k + 1 < |l| && End(v.len, h) == l[k + 1], k > 0 && End(v.len, l[k - 1]) == h;
            Merged(v, h) ==
            if prev && next then Heap(l[..k] + l[k + 2..], v.used, Join(Join(v.len, h, l[k + 1]), l[k - 1], h))
            else if prev then Heap(l[..k] + l[k + 1..], v.used, Join(v.len, l[k - 1], h))
            else if next then Heap(l[..k + 1] + l[k + 2..], v.used, Join(v.len, h, l[k + 1]))
            else v
  {
    hide Tiled, TopFree, CoalescedBut, NextOf, PrevOf, Remove;
    var l := v.free;
    NextAt(l, k);
    PrevAt(l, k);
    RemoveAt(l, k);
    NullIsNoBlock(v.len);
    if k + 1 < |l| && End(v.len, h) == l[k + 1] {
      RemoveAt(l, k + 1);
      var l1 := l[..k + 1] + l[k + 2..];
      Position(l, k, k + 1);
      AfterSkip(l, k);
      PrevAt(l1, k);
      RemoveAt(l1, k);
      assert l1[..k] + l1[k + 1..] == l[..k] + l[k + 2..];
      if k > 0 { Position(l, k - 1, k); Position(l, k - 1, k + 1); assert l1[k - 1] == l[k - 1]; }
    }
  }

  lemma NullIsNoBlock(len: map<int, int>)
    requires Tiled(len)
    ensures NULL !in len
  {
    if NULL in len { AddressesNatural(len, NULL); }
  }

  lemma AfterSkip(l: seq<int>, k: nat)
    requires Sorted(l) && k + 1 < |l|
    ensures Sorted(l[..k + 1] + l[k + 2..])
  {
    var l1 := l[..k + 1] + l[k + 2..];
    forall i, j | 0 <= i < j < |l1|
      ensures l1[i] < l1[j]
    {
      assert l1[i] == if i <= k then l[i] else l[i + 1];
      assert l1[j] == if j <= k then l[j] else l[j + 1];
    }
  }

  lemma SameMemory(m: seq<int>, len: map<int, int>)
    ensures SameData(m, m, len)
  {}

  /** What the memory says about the member at position `k` and its neighbours. */
  lemma HeaderFacts(m: seq<int>, head: int, v: Heap, k: nat)
    requires |m| == HEAP_MAX && Linked(m, head, v.free) && Lengths(m, v.len) && Listed(v) && Tiled(v.len)
             && k < |v.free|
    ensures var l := v.free;
            l[k] in v.len && 0 <= l[k] && l[k] + HEADER <= HEAP_MAX && m[l[k]] == v.len[l[k]]
            && m[l[k] + LINK] == ItemAt(l, k + 1)
            && (k > 0 ==>
                 l[k - 1] in v.len && 0 <= l[k - 1] && l[k - 1] + HEADER <= l[k] && m[l[k - 1]] == v.len[l[k - 1]])
            && (k + 1 < |l| ==> l[k + 1] in v.len && l[k] + HEADER <= l[k + 1] && l[k + 1] + HEADER <= HEAP_MAX)
            && (k + 1 < |l| ==> m[l[k + 1]] == v.len[l[k + 1]] && m[l[k + 1] + LINK] == ItemAt(l, k + 2))
  {
    hide Tiled;
    var l := v.free;
    assert l[k] in l && LinkOf(m, l[k]) == ItemAt(l, k + 1);
    HeaderCells(v.len, l[k], l[k]);
    if k > 0 {
      assert l[k - 1] in l;
      HeaderCells(v.len, l[k - 1], l[k]);
      Position(l, k - 1, k);
      assert l[k - 1] < l[k];
    }
    if k + 1 < |l| {
      assert l[k + 1] in l && LinkOf(m, l[k + 1]) == ItemAt(l, k + 2);
      HeaderCells(v.len, l[k + 1], l[k]);
      assert l[k] < l[k + 1];
    }
  }

  /** The memory that the code of merging leaves realizes the merged heap. */
  lemma MergeOutcome(m: seq<int>, m': seq<int>, freeList: int, allocateList: int, v: Heap, k: nat, prev: int, next: int)
    requires Realizes(m, freeList, allocateList, v) && k < |v.free| && Almost(v, v.free[k])
    requires prev == (if k > 0 then v.free[k - 1] else NULL) && next == ItemAt(v.free, k + 1)
    requires 0 <= v.free[k] && v.free[k] + HEADER <= |m| && -1 <= prev && prev + HEADER <= |m| && -1 <= next
             && next + HEADER <= |m|
    requires var h := v.free[k];
             var joinsPrev := prev != NULL && prev + m[prev] + HEADER == h;
             var joinsNext := next != NULL && h + m[h] + HEADER == next;
             m' == if joinsPrev && joinsNext
                   then m[prev := m[prev] + m[h] + m[next] + 2 * HEADER][prev + LINK := m[next + LINK]]
                   else if joinsPrev then m[prev := m[prev] + m[h] + HEADER][prev + LINK := m[h + LINK]]
                   else if joinsNext then m[h := m[h] + m[next] + HEADER][h + LINK := m[next + LINK]]
                   else m
    ensures v.free[k] in v.len && Realizes(m', freeList, allocateList, Merged(v, v.free[k])) && SameData(m, m', v.len)
  {
    hide Sorted, Tiled, TopFree, CoalescedBut, Merged, LinkOf, SameData, Linked, Lengths, Join;
    var h := v.free[k];
    HeaderFacts(m, freeList, v, k);
    MergedCases(v, h, k);
    if next != NULL && h + m[h] + HEADER == next { JoinedLengths(v.len, h, next); }
    if prev != NULL && prev + m[prev] + HEADER == h {
      assert v.free[..k - 1 + 1] == v.free[..k];
      JoinedLengths(v.len, prev, h);
      if next != NULL && h + m[h] + HEADER == next {
        JoinedLengths(Join(v.len, h, next), prev, h);
        Relinked(m, m', freeList, allocateList, v, k - 1, k + 2, Join(Join(v.len, h, next), prev, h));
      } else {
        Relinked(m, m', freeList, allocateList, v, k - 1, k + 1, Join(v.len, prev, h));
      }
    } else if next != NULL && h + m[h] + HEADER == next {
      Relinked(m, m', freeList, allocateList, v, k, k + 2, Join(v.len, h, next));
    } else {
      SameMemory(m, v.len);
    }
  }

  lemma JoinedLengths(len: map<int, int>, a: int, b: int)
    requires a in len && b in len && a != b
    ensures var len' := Join(len, a, b);
            && a in len' && len'[a] == len[a] + HEADER + len[b]
            && (forall x :: x in len' <==> x in len && x != b)
            && forall x :: x in len' && x != a ==> len'[x] == len[x]
  {}

  lemma SameDataThrice(m0: seq<int>, m1: seq<int>, m2: seq<int>, m3: seq<int>, len: map<int, int>)
    requires SameData(m0, m1, len) && SameData(m1, m2, len) && SameData(m2, m3, len)
    ensures SameData(m0, m3, len)
  {}

  /** Every block in use afterwards was in use before with the same length, and its data are the same. */
  ghost predicate KeepsBlocks(m: seq<int>, m': seq<int>, v: Heap, w: Heap) {
    && |m'| == |m|
    && (forall a :: a in w.used ==> a in v.used && a in v.len && a in w.len && w.len[a] == v.len[a])
    && (forall a, c :: a in w.used && a in v.len && a + HEADER <= c < End(v.len, a) && 0 <= c < |m| ==> m'[c] == m[c])
  }

  lemma KeepsAll(m: seq<int>, v: Heap)
    requires Inv(v)
    ensures KeepsBlocks(m, m, v, v)
  {}

  lemma KeepsStep(m0: seq<int>, m1: seq<int>, m2: seq<int>, v0: Heap, v1: Heap, h: int)
    requires KeepsBlocks(m0, m1, v0, v1) && Inv(v1) && h in v1.used && h in v1.len && SameData(m1, m2, v1.len)
    ensures KeepsBlocks(m0, m2, v0, Released(v1, h))
  {
    hide Inv, Released, Sorted;
    ReleaseKeepsInv(v1, h);
    UsedAfterRelease(v1, h);
  }

  lemma UsedAfterRelease(v: Heap, h: int)
    requires Inv(v) && h in v.used && h in v.len && Released(v, h).used == Remove(v.used, h)
    ensures forall a :: a in Released(v, h).used ==> a in v.used && a in v.len
    ensures Inv(Released(v, h)) && forall a :: a in Released(v, h).used ==> a in Released(v, h).len
  {
    hide Released, Tiled, TopFree, Coalesced;
    RemoveKeepsOrder(v.used, h);
    ReleaseKeepsInv(v, h);
  }

  lemma ListStart(m: seq<int>, freeList: int, allocateList: int, v: Heap)
    requires Realizes(m, freeList, allocateList, v)
    ensures allocateList == ItemAt(v.used, 0)
  {}

  lemma UsedHeader(m: seq<int>, freeList: int, allocateList: int, v: Heap, done: seq<int>, left: seq<int>)
    requires Realizes(m, freeList, allocateList, v) && Inv(v) && v.used == done + left && ItemAt(left, 0) != NULL
    ensures left != [] && left[0] in v.used && left[0] in v.len
    ensures 0 <= left[0] && left[0] + LINK < |m| && m[left[0] + LINK] == ItemAt(left[1..], 0)
  {
    hide Tiled, TopFree, Coalesced, Sorted, Lengths;
    var k := |done|;
    assert v.used[k] == left[0] && v.used[k] in v.used;
    assert LinkOf(m, v.used[k]) == ItemAt(v.used, k + 1);
    MemberInMemory(m, allocateList, v.used, k);
  }

  lemma ListExhausted(m: seq<int>, freeList: int, allocateList: int, v: Heap, done: seq<int>, left: seq<int>)
    requires Realizes(m, freeList, allocateList, v) && v.used == done + left && ItemAt(left, 0) == NULL
    ensures left == []
  {
    hide Lengths;
    if |done| < |v.used| { MemberInMemory(m, allocateList, v.used, |done|); }
  }

  lemma CollectedUnfolds(v: Heap, l: seq<int>, roots: set<int>)
    requires l != [] && l[0] in v.len
    ensures Collected(v, l, roots) == Collected(if l[0] + HEADER in roots then v else Released(v, l[0]), l[1..], roots)
  {
    hide Released;
  }

  lemma CollectedNothing(v: Heap, roots: set<int>)
    ensures Collected(v, [], roots) == v
  {}

  lemma RemoveFirst(v: Heap, done: seq<int>, left: seq<int>)
    requires Inv(v) && v.used == done + left && left != [] && left[0] in v.len
    ensures Released(v, left[0]).used == done + left[1..]
  {
    hide Tiled, TopFree, Coalesced, Sorted, Released;
    assert left[0] in v.used;
    ReleaseKeepsInv(v, left[0]);
    RemoveFirstOfTail(done, left);
  }

  lemma ListFacts(m: seq<int>, freeList: int, v: Heap, k: nat)
    requires |m| == HEAP_MAX && Linked(m, freeList, v.free) && Lengths(m, v.len) && Inv(v) && k <= |v.free|
    ensures freeList == ItemAt(v.free, 0)
    ensures k < |v.free| ==> v.free[k] in v.len && 0 <= v.free[k] && v.free[k] + LINK < |m|
                             && m[v.free[k]] == v.len[v.free[k]] && m[v.free[k] + LINK] == ItemAt(v.free, k + 1)
  {
    hide Tiled, TopFree, Coalesced;
    if k < |v.free| { HeaderFacts(m, freeList, v, k); }
  }

  lemma FitUnfolds(l: seq<int>, len: map<int, int>, bound: int)
    requires l != [] && l[0] in len && len[l[0]] <= bound
    ensures FirstFit(l, len, bound) == FirstFit(l[1..], len, bound)
  {}

  lemma FitEnds(l: seq<int>, len: map<int, int>, bound: int)
    ensures l == [] ==> FirstFit(l, len, bound) == NULL
    ensures l != [] && l[0] in len && len[l[0]] > bound ==> FirstFit(l, len, bound) == l[0]
  {}

  /** The data of every used block are the same in both memories. */
  ghost predicate KeepsUsed(m: seq<int>, m': seq<int>, v: Heap) {
    && |m'| == |m|
    && forall a, c :: a in v.used && a in v.len && a + HEADER <= c < End(v.len, a) && 0 <= c < |m| ==> m'[c] == m[c]
  }

  lemma TakenFacts(v: Heap, h: int, size: int)
    requires Inv(v) && h in v.free && h in v.len && 0 <= size && size % 4 == 0 && size + HEADER <= v.len[h]
    ensures var r := h + HEADER + size;
            h >= 0 && r + HEADER <= HEAP_MAX && h + HEADER <= r && r !in v.len && h !in v.used && r !in v.used
                && r !in v.free
    ensures var len' := Split(v.len, h, size);
            Tiled(len') && h in len' && h + HEADER + size in len' && (forall a :: a in v.len ==> a in len')
            && (forall a :: a in v.used ==> a in v.len && len'[a] == v.len[a]) && len'[h] == size
            && (forall a :: a in v.free || a in v.used ==> a in v.len) && Sorted(v.free) && Sorted(v.used)
            && (forall a :: a in v.used ==> a !in v.free)
  {
    hide TopFree, Coalesced, Sorted, Tiled;
    SplitKeepsTiling(v.len, h, size);
    AddressesNatural(Split(v.len, h, size), h + HEADER + size);
    AddressesNatural(v.len, h);
  }

  /** After splitting, the remainder stands behind the block in the free list. */
  lemma AfterSplit(m: seq<int>, m': seq<int>, freeList: int, allocateList: int, v: Heap, h: int, size: int)
    returns (l: seq<int>)
    requires Realizes(m, freeList, allocateList, v) && Inv(v) && h in v.free && h in v.len
    requires 0 <= size && size % 4 == 0 && size + HEADER <= v.len[h]
    requires 0 <= h && h + HEADER + size + HEADER <= |m|
    requires var r := h + HEADER + size;
             m' == m[r := m[h] - HEADER - size][h := size][r + LINK := m[h + LINK]][h + LINK := r]
    ensures Linked(m', freeList, l) && Linked(m', allocateList, v.used) && Lengths(m', Split(v.len, h, size))
    ensures Sorted(l) && h in l && Remove(l, h) == Insert(Remove(v.free, h), h + HEADER + size)
    ensures forall x :: x in l <==> x in v.free || x == h + HEADER + size
    ensures KeepsUsed(m, m', v)
  {
    hide Sorted, Tiled, TopFree, Coalesced, Linked, Lengths, LinkOf, Insert, Remove, KeepsUsed;
    var r := h + HEADER + size;
    TakenFacts(v, h, size);
    var k :| 0 <= k < |v.free| && v.free[k] == h;
    l := v.free[..k + 1] + [r] + v.free[k + 1..];
    SplitOrder(v, h, size, k);
    SplitLists(m, m', freeList, allocateList, v, h, size, k);
    SplitLengths(m, m', v, h, size);
    assert forall x :: x in v.free ==> x in l;
    assert l[k] == h && l[k + 1] == r;
  }

  lemma SplitOrder(v: Heap, h: int, size: int, k: nat)
    requires Inv(v) && k < |v.free| && v.free[k] == h && h in v.len
    requires 0 <= size && size % 4 == 0 && size + HEADER <= v.len[h]
    ensures var r := h + HEADER + size;
            var l := v.free[..k + 1] + [r] + v.free[k + 1..];
            Sorted(l) && Remove(l, h) == Insert(Remove(v.free, h), r)
  {
    hide Tiled, TopFree, Coalesced, Insert, Remove, Sorted;
    var r, f := h + HEADER + size, v.free;
    var l := f[..k + 1] + [r] + f[k + 1..];
    assert h in v.free;
    forall i | 0 <= i < |f|
      ensures (i <= k ==> f[i] < r) && (i > k ==> r < f[i])
    {
      assert f[i] in f;
      HeaderCells(v.len, f[i], h);
      Ascending(f, i, k);
      Ascending(f, k, i);
      if i > k { BehindBlock(v.len, h, f[i]); }
    }
    InsertAt(f, r, k + 1);
    assert r !in f;
    InsertKeepsOrder(f, r);
    SplitRemoved(f, r, k);
  }

  lemma Ascending(l: seq<int>, i: nat, j: nat)
    requires Sorted(l) && i < |l| && j < |l|
    ensures l[i] < l[j] <==> i < j
  {}

  lemma SplitRemoved(f: seq<int>, r: int, k: nat)
    requires Sorted(f) && k < |f|
    requires forall i :: 0 <= i < |f| ==> (i <= k ==> f[i] < r) && (i > k ==> r < f[i])
    requires Sorted(f[..k + 1] + [r] + f[k + 1..])
    ensures Remove(f[..k + 1] + [r] + f[k + 1..], f[k]) == Insert(Remove(f, f[k]), r)
  {
    hide Insert, Remove, Sorted;
    var l, g := f[..k + 1] + [r] + f[k + 1..], f[..k] + f[k + 1..];
    assert l[k] == f[k];
    RemoveAt(l, k);
    RemoveAt(f, k);
    RemoveKeepsOrder(f, f[k]);
    forall i | 0 <= i < |g|
      ensures (i < k ==> g[i] < r) && (i >= k ==> r < g[i])
    {
      assert g[i] == if i < k then f[i] else f[i + 1];
    }
    InsertAt(g, r, k);
    assert l[..k] + l[k + 1..] == g[..k] + [r] + g[k..];
  }

  lemma BehindBlock(len: map<int, int>, a: int, b: int)
    requires Tiled(len) && a in len && b in len && a < b
    ensures End(len, a) <= b
  {
    assert Apart(len);
  }

  lemma SplitLists(m: seq<int>, m': seq<int>, freeList: int, allocateList: int, v: Heap, h: int, size: int, k: nat)
    requires Realizes(m, freeList, allocateList, v) && Inv(v) && k < |v.free| && v.free[k] == h && h in v.len
    requires 0 <= size && size % 4 == 0 && size + HEADER <= v.len[h]
    requires 0 <= h && h + HEADER + size + HEADER <= |m|
    requires var r := h + HEADER + size;
             m' == m[r := m[h] - HEADER - size][h := size][r + LINK := m[h + LINK]][h + LINK := r]
    ensures Linked(m', freeList, v.free[..k + 1] + [h + HEADER + size] + v.free[k + 1..])
            && Linked(m', allocateList, v.used)
  {
    hide Tiled, TopFree, Coalesced, Lengths, Sorted;
    var r, f := h + HEADER + size, v.free;
    assert h in f;
    TakenFacts(v, h, size);
    var len' := Split(v.len, h, size);
    assert LinkOf(m, f[k]) == ItemAt(f, k + 1);
    assert LinkOf(m', r) == LinkOf(m, h) && LinkOf(m', h) == r;
    forall b | b in v.len && b != h
      ensures LinkOf(m', b) == LinkOf(m, b)
    {
      HeaderCells(len', b, h);
      HeaderCells(len', b, r);
    }
    forall i | 0 <= i < |f| && i != k
      ensures LinkOf(m', f[i]) == LinkOf(m, f[i])
    {
      Position(f, i, k);
      assert f[i] in f;
    }
    forall i | 0 <= i < |v.used|
      ensures LinkOf(m', v.used[i]) == LinkOf(m, v.used[i])
    {
      assert v.used[i] in v.used;
    }
    LinkedInsert(m, m', freeList, f, r, k + 1);
    LinkedElsewhere(m, m', allocateList, v.used);
  }

  lemma SplitLengths(m: seq<int>, m': seq<int>, v: Heap, h: int, size: int)
    requires Lengths(m, v.len) && Inv(v) && h in v.free && h in v.len && |m| == HEAP_MAX
    requires 0 <= size && size % 4 == 0 && size + HEADER <= v.len[h]
    requires 0 <= h && h + HEADER + size + HEADER <= |m|
    requires var r := h + HEADER + size;
             m' == m[r := m[h] - HEADER - size][h := size][r + LINK := m[h + LINK]][h + LINK := r]
    ensures Lengths(m', Split(v.len, h, size)) && KeepsUsed(m, m', v)
  {
    hide Tiled, TopFree, Coalesced, Sorted;
    var r := h + HEADER + size;
    TakenFacts(v, h, size);
    var len' := Split(v.len, h, size);
    forall a | a in len'
      ensures 0 <= a < |m'| && m'[a] == len'[a]
    {
      HeaderCells(len', a, h);
      HeaderCells(len', a, r);
    }
    forall a, c | a in v.used && a in v.len && a + HEADER <= c < End(v.len, a) && 0 <= c < |m|
      ensures m'[c] == m[c]
    {
      DataCells(len', a, c, h);
      DataCells(len', a, c, r);
    }
  }

  /** Clearing the link of a header that is in neither list. */
  lemma NullLink(m: seq<int>, m': seq<int>, freeList: int, allocateList: int, len: map<int, int>, free: seq<int>,
                 used: seq<int>, h: int)
    requires Linked(m, freeList, free) && Linked(m, allocateList, used) && Lengths(m, len) && Tiled(len) && h in len
             && |m| == HEAP_MAX
    requires h !in free && h !in used && 0 <= h && h + LINK < |m| && m' == m[h + LINK := NULL]
    ensures Linked(m', freeList, free) && Linked(m', allocateList, used) && Lengths(m', len) && SameData(m, m', len)
  {
    hide Linked, Lengths, Tiled, SameData, LinkOf;
    LinkWritten(m, h, NULL, []);
    LinksKeepOther(m, m', [], h, freeList, free);
    LinksKeepOther(m, m', [], h, allocateList, used);
    LinksKeepRest(len, m, m', [], h);
  }

  /** Clearing a block's data touches no header and no other block's data. */
  lemma Cleared(m: seq<int>, m': seq<int>, freeList: int, allocateList: int, v: Heap, h: int, size: int)
    requires Realizes(m, freeList, allocateList, v) && Inv(v) && h in v.len && v.len[h] == size && |m'| == |m|
    requires forall c :: 0 <= c < |m| ==> m'[c] == if h + HEADER <= c < h + HEADER + size then 0 else m[c]
    ensures Realizes(m', freeList, allocateList, v)
    ensures forall a, c :: a in v.len && a != h && a + HEADER <= c < End(v.len, a) && 0 <= c < |m| ==> m'[c] == m[c]
  {
    hide Tiled, TopFree, Coalesced, Sorted;
    forall b | b in v.len
      ensures 0 <= b && b + LINK < HEAP_MAX && m'[b] == m[b] && LinkOf(m', b) == LinkOf(m, b)
    {
      HeaderCells(v.len, b, b);
      if h + HEADER <= b < End(v.len, h) { DataCells(v.len, h, b, b); }
      if h + HEADER <= b + LINK < End(v.len, h) { DataCells(v.len, h, b + LINK, b); }
    }
    forall i | 0 <= i < |v.free|
      ensures LinkOf(m', v.free[i]) == LinkOf(m, v.free[i])
    {
      assert v.free[i] in v.free;
    }
    forall i | 0 <= i < |v.used|
      ensures LinkOf(m', v.used[i]) == LinkOf(m, v.used[i])
    {
      assert v.used[i] in v.used;
    }
    LinkedElsewhere(m, m', freeList, v.free);
    LinkedElsewhere(m, m', allocateList, v.used);
    forall a, c | a in v.len && a != h && a + HEADER <= c < End(v.len, a) && 0 <= c < |m|
      ensures m'[c] == m[c]
    {
      if a < h { BehindBlock(v.len, a, h); } else { BehindBlock(v.len, h, a); }
    }
  }

  lemma UsedKept(m0: seq<int>, m1: seq<int>, m2: seq<int>, m3: seq<int>, m4: seq<int>, m5: seq<int>, v: Heap, h: int,
                 size: int)
    requires Inv(v) && h in v.free && h in v.len && 0 <= size && size % 4 == 0 && size + HEADER <= v.len[h]
    requires KeepsUsed(m0, m1, v)
    requires var len' := Split(v.len, h, size);
             SameData(m1, m2, len') && SameData(m2, m3, len') && SameData(m3, m4, len')
    requires var len' := Split(v.len, h, size);
             |m5| == |m4| && forall a, c :: a in len' && a != h && a + HEADER <= c < End(len', a) && 0 <= c < |m4| ==>
                 m5[c] == m4[c]
    ensures KeepsUsed(m0, m5, v)
  {
    hide Inv, Split, Tiled, Sorted;
    var len' := Split(v.len, h, size);
    TakenFacts(v, h, size);
    SameDataThrice(m1, m2, m3, m4, len');
    forall a, c | a in v.used && a in v.len && a + HEADER <= c < End(v.len, a) && 0 <= c < |m0|
      ensures m5[c] == m0[c]
    {
      assert a in len' && a != h && End(len', a) == End(v.len, a);
      assert m4[c] == m1[c];
    }
  }

  lemma BlockOrNull(v: Heap, header: int, bound: int)
    requires Inv(v) && header == FirstFit(v.free, v.len, bound)
    ensures header == NULL <==> header !in v.len
    ensures header != NULL ==> header in v.free && v.len[header] > bound
  {
    FitsFromSearch(v, bound);
    NullIsNoBlock(v.len);
    FirstFitFound(v.free, v.len, bound) by { assert Aligned(v.len); }
  }

  lemma KeptData(m: seq<int>, m': seq<int>, v: Heap, w: Heap)
    requires KeepsBlocks(m, m', v, w)
    ensures forall a, c :: a in w.used && a in v.len && a + HEADER <= c < End(v.len, a) && 0 <= c < |m| ==>
              |m'| == |m| && m'[c] == m[c]
  {}

  lemma TakenData(m0: seq<int>, m1: seq<int>, m2: seq<int>, v: Heap, w: Heap, h: int, size: int)
    requires KeepsBlocks(m0, m1, v, w) && KeepsUsed(m1, m2, w) && Inv(w)
    requires h in w.free && h in w.len && size >= 0 && size % 4 == 0 && size + HEADER <= w.len[h]
    ensures |m2| == |m0|
    ensures forall a, c :: a in Taken(w, h, size).used && a != h && a in v.len
                           && a + HEADER <= c < End(v.len, a) && 0 <= c < |m0| ==>
              m2[c] == m0[c]
  {
    hide Inv, Taken;
    TakenListed(w, h, size);
    forall a, c | a in Taken(w, h, size).used && a != h && a in v.len && a + HEADER <= c < End(v.len, a)
        && 0 <= c < |m0|
      ensures m2[c] == m0[c]
    {
      assert a in w.used;
      assert m1[c] == m0[c];
    }
  }

  lemma AllocatedIs(v: Heap, w: Heap, size: int, roots: set<int>, h: int)
    requires 0 <= size < SIZE_MODULUS
    requires (w == v && h == FirstFit(v.free, v.len, Need(size)) && h in v.len)
             || (FirstFit(v.free, v.len, Need(size)) !in v.len && w == Collected(v, v.used, roots)
                 && h == FirstFit(w.free, w.len, Need(size) - 1) && (h == NULL || h in w.len))
    ensures Allocated(v, size, roots) == if h in w.len then (Taken(w, h, AlignSize(size)), h + HEADER) else (w, NULL)
  {
    hide FirstFit, Taken, Collected, AlignSize, Need;
  }

  /** The pointer is the data of a used block that holds the request, and the whole block is clear. */
  ghost predicate HandedOut(m: seq<int>, v: Heap, ptr: int, size: int) {
    && ptr - HEADER in v.used && ptr - HEADER in v.len && HoldsRequest(v.len[ptr - HEADER], size)
    && 0 <= ptr && End(v.len, ptr - HEADER) <= |m|
    && forall c :: ptr <= c < End(v.len, ptr - HEADER) ==> m[c] == 0
  }

  class HeapStore {
    const mem: array<int>
    const variables: array<Variable>
    var freeList: int
    var allocateList: int
    /** The heap that the memory represents. */
    ghost var view: Heap

    ghost predicate Valid()
      reads this, mem
    {
      Realizes(mem[..], freeList, allocateList, view) && Inv(view)
    }

    /** The pointers that typed variables hold. */
    ghost function Roots(): set<int>
      reads variables
    {
      set i | 0 <= i < variables.Length && variables[i].typed :: variables[i].ptr
    }

    constructor (variables: array<Variable>)
      ensures this.variables == variables && fresh(mem)
      ensures Valid() && view == Initial()
    {
      this.variables := variables;
      mem := new int[HEAP_MAX](_ => 0);
      freeList, allocateList := 0, NULL;
      view := Initial();
      new;
      mem[0] := HEAP_MAX - HEADER;
      mem[0 + LINK] := NULL;
      InitialInv();
      assert LinkOf(mem[..], 0) == NULL;
    }

    // ---- Lists ----

    /** The last member below `header`. */
    method FindInsertPoint(head: int, header: int, ghost l: seq<int>) returns (node: int, ghost k: nat)
      requires Linked(mem[..], head, l) && Sorted(l) && l != [] && l[0] < header && header !in l
      ensures k < |l| && node == l[k] < header && (k + 1 < |l| ==> header < l[k + 1])
      ensures LinkOf(mem[..], node) == ItemAt(l, k + 1)
    {
      hide Sorted;
      node, k := head, 0;
      assert LinkOf(mem[..], l[k]) == ItemAt(l, k + 1);
      while !(mem[node + LINK] > header) && mem[node + LINK] != NULL
        invariant 0 <= k < |l| && node == l[k] < header
        invariant LinkOf(mem[..], l[k]) == ItemAt(l, k + 1)
        decreases |l| - k
      {
        node := mem[node + LINK];
        k := k + 1;
        assert l[k] in l;
        assert LinkOf(mem[..], l[k]) == ItemAt(l, k + 1);
      }
    }

    method BlockInsert(head: int, header: int, ghost l: seq<int>) returns (head': int)
      requires Linked(mem[..], head, l) && Sorted(l) && header !in l
      requires 0 <= header && header + LINK < mem.Length
      requires (l == [] || l[|l| - 1] < header) ==> mem[header + LINK] == NULL
      modifies mem
      ensures Linked(mem[..], head', Insert(l, header))
      ensures OnlyLinks(old(mem[..]), mem[..], l, header)
    {
      hide OnlyLinks, Sorted, Linked, Insert;
      ghost var m0 := mem[..];
      HeadKnown(m0, head, l);
      if head == NULL || head > header {
        if head != NULL { mem[header + LINK] := head; }
        head' := header;
        InsertedFirst(m0, mem[..], head, l, header);
      } else {
        head' := head;
        var node, k := FindInsertPoint(head, header, l);
        LastBelow(l, header, k);
        MemberInMemory(m0, head, l, k);
        if k + 1 < |l| { MemberInMemory(m0, head, l, k + 1); }
        if mem[node + LINK] != NULL {
          mem[header + LINK] := mem[node + LINK];
        }
        ghost var m1 := mem[..];
        mem[node + LINK] := header;
        Inserted(m0, m1, mem[..], head, l, header, k);
      }
    }

    /** The member in front of `header`. */
    method FindPrevious(head: int, header: int, ghost l: seq<int>) returns (node: int, ghost k: nat)
      requires Linked(mem[..], head, l) && Sorted(l) && header in l && head != header
      ensures k + 1 < |l| && node == l[k] && l[k + 1] == header
    {
      hide Sorted;
      ghost var at :| 0 <= at < |l| && l[at] == header;
      node, k := head, 0;
      assert LinkOf(mem[..], l[k]) == ItemAt(l, k + 1);
      while mem[node + LINK] != header
        invariant 0 <= k < at && node == l[k]
        invariant LinkOf(mem[..], l[k]) == ItemAt(l, k + 1)
        decreases at - k
      {
        node := mem[node + LINK];
        k := k + 1;
        assert LinkOf(mem[..], l[k]) == ItemAt(l, k + 1);
      }
    }

    method BlockRemove(head: int, header: int, ghost l: seq<int>) returns (head': int)
      requires Linked(mem[..], head, l) && Sorted(l) && header in l
      modifies mem
      ensures Linked(mem[..], head', Remove(l, header))
      ensures OnlyLinks(old(mem[..]), mem[..], l, header)
      ensures forall c :: 0 <= c < mem.Length && c - LINK !in l ==> mem[c] == old(mem[c])
    {
      hide Sorted, Linked, Remove, OnlyLinks;
      ghost var m0 := mem[..];
      HeadKnown(m0, head, l);
      if head == header {
        head' := mem[header + LINK];
        mem[header + LINK] := NULL;
        RemovedFirst(m0, mem[..], head, l);
      } else {
        head' := head;
        var node, k := FindPrevious(head, header, l);
        MemberInMemory(m0, head, l, k);
        MemberInMemory(m0, head, l, k + 1);
        mem[node + LINK] := mem[header + LINK];
        RemovedLater(m0, mem[..], head, l, k);
      }
    }

    // ---- Merging ----

    method BlockMerge(header: int, ghost v: Heap)
      requires Realizes(mem[..], freeList, allocateList, v) && Almost(v, header) && header in v.len
      modifies mem
      ensures Realizes(mem[..], freeList, allocateList, Merged(v, header))
      ensures SameData(old(mem[..]), mem[..], v.len)
    {
      hide Sorted, Tiled, TopFree, CoalescedBut, Merged, LinkOf, SameData, Join;
      ghost var l := v.free;
      ghost var k: nat := 0;
      var prev := NULL;
      if freeList != header {
        prev, k := FindPrevious(freeList, header, l);
        k := k + 1;
      }
      HeaderFacts(mem[..], freeList, v, k);
      MergeAround(header, prev, v, k);
    }

    /** Join `header` with the neighbours it touches. */
    method MergeAround(header: int, prev: int, ghost v: Heap, ghost k: nat)
      requires Realizes(mem[..], freeList, allocateList, v) && Almost(v, header)
      requires k < |v.free| && v.free[k] == header && prev == (if k > 0 then v.free[k - 1] else NULL)
      modifies mem
      ensures Realizes(mem[..], freeList, allocateList, Merged(v, header))
      ensures SameData(old(mem[..]), mem[..], v.len)
    {
      hide Sorted, Tiled, TopFree, CoalescedBut, Merged, LinkOf, SameData, Join, Listed, Linked;
      ghost var m := mem[..];
      HeaderFacts(m, freeList, v, k);
      var next := mem[header + LINK];
      if prev != NULL && prev + mem[prev] + HEADER == header {
        if next != NULL && header + mem[header] + HEADER == next {
          mem[prev] := mem[prev] + mem[header] + mem[next] + 2 * HEADER;
          mem[prev + LINK] := mem[next + LINK];
        } else {
          mem[prev] := mem[prev] + mem[header] + HEADER;
          mem[prev + LINK] := mem[header + LINK];
        }
      } else if next != NULL && header + mem[header] + HEADER == next {
        mem[header] := mem[header] + mem[next] + HEADER;
        mem[header + LINK] := mem[next + LINK];
      }
      MergeOutcome(m, mem[..], freeList, allocateList, v, k, prev, next);
    }

    // ---- Release and collection ----

    method Free(ptr: int)
      requires Valid() && ptr - HEADER in view.used
      modifies mem, `freeList, `allocateList, `view
      ensures Valid() && ptr - HEADER in old(view).len && view == Released(old(view), ptr - HEADER)
      ensures SameData(old(mem[..]), mem[..], old(view).len)
    {
      hide Sorted, Tiled, TopFree, CoalescedBut, Coalesced, Merged, LinkOf, SameData, Insert, Remove, Linked, Lengths,
          OnlyLinks;
      var header := ptr - HEADER;
      ghost var v := view;
      LastFreeIsTop(v);
      HeaderCells(v.len, header, header);
      ghost var m0 := mem[..];
      allocateList := BlockRemove(allocateList, header, v.used);
      ghost var m1 := mem[..];
      LinksKeepOther(m0, m1, v.used, header, freeList, v.free);
      LinksKeepRest(v.len, m0, m1, v.used, header);
      freeList := BlockInsert(freeList, header, v.free);
      ghost var m2 := mem[..];
      RemoveKeepsOrder(v.used, header);
      LinksKeepOther(m1, m2, v.free, header, allocateList, Remove(v.used, header));
      LinksKeepRest(v.len, m1, m2, v.free, header);
      MovedAlmost(v, header);
      BlockMerge(header, Moved(v, header));
      SameDataThrice(m0, m1, m2, mem[..], v.len);
      ReleaseKeepsInv(v, header);
      view := Released(v, header);
    }

    method IsRooted(ptr: int) returns (found: bool)
      ensures found <==> ptr in Roots()
    {
      var i := 0;
      while i < variables.Length
        invariant 0 <= i <= variables.Length
        invariant forall j :: 0 <= j < i ==> !(variables[j].typed && variables[j].ptr == ptr)
      {
        if variables[i].typed && variables[i].ptr == ptr {
          return true;
        }
        i := i + 1;
      }
      return false;
    }

    /** Release every used block that no typed variable points to. */
    method Collect()
      requires Valid()
      modifies mem, `freeList, `allocateList, `view
      ensures Valid() && view == Collected(old(view), old(view).used, Roots())
      ensures KeepsBlocks(old(mem[..]), mem[..], old(view), view)
    {
      hide Inv, Realizes, KeepsBlocks, Collected, Released;
      ghost var m0, v0, roots := mem[..], view, Roots();
      var header := allocateList;
      ghost var done: seq<int>, left := [], view.used;
      KeepsAll(m0, v0);
      assert [] + view.used == view.used;
      ListStart(m0, freeList, allocateList, view);
      while header != NULL
        invariant Valid() && view.used == done + left && header == ItemAt(left, 0)
        invariant Collected(view, left, roots) == Collected(v0, v0.used, roots)
        invariant KeepsBlocks(m0, mem[..], v0, view)
        invariant Roots() == roots
        decreases |left|
      {
        var rooted := IsRooted(header + HEADER);
        UsedHeader(mem[..], freeList, allocateList, view, done, left);
        CollectedUnfolds(view, left, roots);
        var temp := header;
        header := mem[header + LINK];
        if rooted {
          done := done + [left[0]];
        } else {
          ghost var m1, v1 := mem[..], view;
          Free(temp + HEADER);
          RemoveFirst(v1, done, left);
          KeepsStep(m0, m1, mem[..], v0, v1, temp);
        }
        left := left[1..];
      }
      ListExhausted(mem[..], freeList, allocateList, view, done, left);
      CollectedNothing(view, roots);
    }

    // ---- Allocation ----

    /** The first free block longer than `bound`. */
    method Search(bound: int) returns (header: int)
      requires Valid()
      ensures header == FirstFit(view.free, view.len, bound)
    {
      hide Inv, FirstFit;
      header := freeList;
      ghost var k := 0;
      ListFacts(mem[..], freeList, view, k);
      assert view.free[0..] == view.free;
      while header != NULL && mem[header] <= bound
        invariant 0 <= k <= |view.free| && header == ItemAt(view.free, k)
        invariant header != NULL ==> 0 <= header && header + LINK < mem.Length
        invariant FirstFit(view.free, view.len, bound) == FirstFit(view.free[k..], view.len, bound)
        decreases |view.free| - k
      {
        ListFacts(mem[..], freeList, view, k);
        FitUnfolds(view.free[k..], view.len, bound);
        header := mem[header + LINK];
        assert view.free[k..][1..] == view.free[k + 1..];
        k := k + 1;
        ListFacts(mem[..], freeList, view, k);
      }
      ListFacts(mem[..], freeList, view, k);
      if header == NULL { assert view.free[k..] == []; }
      FitEnds(view.free[k..], view.len, bound);
    }

    method BlockSplit(header: int, size: int)
      requires 0 <= header && header + LINK < mem.Length && 0 <= size && header + HEADER + size + LINK < mem.Length
      modifies mem
      ensures var r := header + HEADER + size; var m := old(mem[..]);
              mem[..] ==
                m[r := m[header] - HEADER - size][header := size][r + LINK := m[header + LINK]][header + LINK := r]
    {
      var next := header + HEADER + size;
      mem[next] := mem[header] - HEADER - size;
      mem[header] := size;
      mem[next + LINK] := mem[header + LINK];
      mem[header + LINK] := next;
    }

    method Zero(start: int, size: int)
      requires 0 <= start && 0 <= size && start + size <= mem.Length
      modifies mem
      ensures forall c :: 0 <= c < mem.Length ==> mem[c] == if start <= c < start + size then 0 else old(mem[c])
    {
      forall c | start <= c < start + size { mem[c] := 0; }
    }

    /** Split `header`, move its front to the used list and clear its data. */
    method TakeBlock(header: int, size: int)
      requires Valid() && header in view.free && header in view.len
      requires 0 <= size && size % 4 == 0 && size + HEADER <= view.len[header]
      modifies mem, `freeList, `allocateList, `view
      ensures header in old(view).len && Valid() && view == Taken(old(view), header, size)
      ensures KeepsUsed(old(mem[..]), mem[..], old(view))
      ensures 0 <= header && header + HEADER + size <= mem.Length
      ensures forall c :: header + HEADER <= c < header + HEADER + size ==> mem[c] == 0
    {
      hide Sorted, Tiled, TopFree, Coalesced, LinkOf, SameData, Insert, Remove, Linked, Lengths, OnlyLinks, Split,
          KeepsUsed, Listed;
      ghost var v, r, m0 := view, header + HEADER + size, mem[..];
      ghost var len' := Split(v.len, header, size);
      TakeKeepsInv(v, header, size);
      TakenFacts(v, header, size);
      BlockSplit(header, size);
      ghost var m1 := mem[..];
      ghost var split: seq<int>;
      split := AfterSplit(m0, m1, freeList, allocateList, v, header, size);
      freeList := BlockRemove(freeList, header, split);
      ghost var m2 := mem[..];
      LinksKeepRest(len', m1, m2, split, header);
      LinksKeepOther(m1, m2, split, header, allocateList, v.used);
      RemoveKeepsOrder(split, header);
      mem[header + LINK] := NULL;
      ghost var m3 := mem[..];
      NullLink(m2, m3, freeList, allocateList, len', Remove(split, header), v.used, header);
      allocateList := BlockInsert(allocateList, header, v.used);
      ghost var m4 := mem[..];
      LinksKeepRest(len', m3, m4, v.used, header);
      LinksKeepOther(m3, m4, v.used, header, freeList, Remove(split, header));
      Zero(header + HEADER, size);
      view := Taken(v, header, size);
      Cleared(m4, mem[..], freeList, allocateList, view, header, size);
      UsedKept(m0, m1, m2, m3, m4, mem[..], v, header, size);
    }

    /** First fit, then collect and fit again. The block handed out is cleared; the data of every other block
        that stays in use are unchanged. */
    method Allocate(size: int) returns (ptr: int)
      requires Valid() && 0 <= size < SIZE_MODULUS && (NoWrap(size) || NothingFits(view, size, Roots()))
      modifies mem, `freeList, `allocateList, `view
      ensures Valid() && (view, ptr) == Allocated(old(view), size, Roots())
      ensures forall a, c :: a in view.used && a != ptr - HEADER && a in old(view).len
                              && a + HEADER <= c < End(old(view).len, a) && 0 <= c < mem.Length ==>
                mem[c] == old(mem[c])
      ensures ptr != NULL ==> HandedOut(mem[..], view, ptr, size)
    {
      hide Inv, Realizes, FirstFit, Taken, Collected, AlignSize, Need, NoWrap, KeepsBlocks, KeepsUsed, HoldsRequest;
      AllocationKeepsInv(view, size, Roots());
      NoWrapMeans(size);
      ghost var v, m0, roots := view, mem[..], Roots();
      FitsFromSearch(v, Need(size));
      var header := Search(Need(size));
      BlockOrNull(v, header, Need(size));
      if header == NULL {
        Collect();
        ghost var c := view;
        FitsFromSearch(c, Need(size) - 1);
        header := Search(Need(size) - 1);
        BlockOrNull(c, header, Need(size) - 1);
        if header == NULL {
          KeptData(m0, mem[..], v, c);
          AllocatedIs(v, c, size, roots, header);
          return NULL;
        }
      }
      ghost var w, m1 := view, mem[..];
      if w == v { KeepsAll(m0, v); }
      AllocatedIs(v, w, size, roots, header);
      TakenFrom(w, header, AlignSize(size));
      TakeBlock(header, AlignSize(size));
      ptr := header + HEADER;
      TakenData(m0, m1, mem[..], v, w, header, AlignSize(size));
    }
  }
}
