/** Runs of the kernel heap that show which blocks `kmalloc` picks and which it finds again. */
module HeapRuns {
  import opened BitMath
  import opened Buddy
  import opened FreeLists
  import opened ListOrder
  import opened Heap
  import opened HeapLaws

  // ----- frees that merge nothing

  /** A freed block whose buddy is in use becomes a maximal free span by itself. */
  lemma FreedAlone(m: Tiling, arenas: set<Span>, a: nat)
    requires Tiled(m, arenas) && a in Live(m) && BuddyOf(a, m[a].level) in Live(m)
    ensures MaximalFree(arenas, Live(m) - {a}, a, m[a].level)
  {
    var l, live := m[a].level, Live(m) - {a};
    var b := BuddyOf(a, l);
    assert Housed(m, arenas, a);
    BuddyFacts(a, l);
    forall c | c in live
      ensures Apart(a, l, c, live[c])
    {
      assert Separate(m, a, c);
    }
    assert b in live;
    if FreeSpan(arenas, live, ParentOf(a, l), l + 1) {
      assert false;
    }
  }

  /** Such a free only puts the block in front of its list. */
  lemma ReturnedAlone(h: Store, heads: seq<nat>, before: seq<seq<nat>>, after: seq<seq<nat>>, a: nat)
    requires ListsOk(h, heads, before, {}) && NoOverlap(BlocksOf(h)) && a in h && !h[a].isFree
    requires h[a].level < LEVEL_COUNT && Returned(before, after, a, h[a].level)
    ensures after == before[h[a].level := [a] + before[h[a].level]]
  {
    NothingInside(h, heads, before, {}, a);
    forall k | 0 <= k < |before|
      ensures after[k] == if k == h[a].level then [a] + before[k] else before[k]
    {
      assert before[k] == Beyond(before[k], a, h[a].level);
    }
  }

  method FreeAlone(heap: Allocator, p: nat, outside: nat -> Header, level: nat)
    requires heap.Valid() && OutsideOk(heap.arenas, heap.highestLevel, outside)
    requires p > META_SIZE && p - META_SIZE in heap.LiveBlocks() && heap.LiveBlocks()[p - META_SIZE] == level
    requires BuddyOf(p - META_SIZE, level) in heap.LiveBlocks()
    modifies heap`headers, heap`lists, heap.memBlocks
    ensures heap.Valid() && heap.LiveBlocks() == old(heap.LiveBlocks()) - {p - META_SIZE}
    ensures level < LEVEL_COUNT
    ensures heap.lists == old(heap.lists)[level := [p - META_SIZE] + old(heap.lists)[level]]
  {
    ghost var a: nat := p - META_SIZE;
    ghost var h, heads, lists := heap.headers, heap.memBlocks[..], heap.lists;
    FreedAlone(heap.Blocks(), heap.arenas, a);
    heap.BlockLevel(a);
    FreeInto(heap, p, outside, Span(a, level));
    ReturnedAlone(h, heads, lists, heap.lists, a);
  }

  /** Two blocks of one level that are freed without merging. */
  method FreeBoth(heap: Allocator, p: nat, q: nat, outside: nat -> Header, level: nat)
    requires heap.Valid() && OutsideOk(heap.arenas, heap.highestLevel, outside)
    requires p > META_SIZE && q > META_SIZE && p != q
    requires TwoAlone(heap.LiveBlocks(), p - META_SIZE, q - META_SIZE, level)
    modifies heap`headers, heap`lists, heap.memBlocks
    ensures heap.Valid() && heap.LiveBlocks() == old(heap.LiveBlocks()) - {p - META_SIZE, q - META_SIZE}
    ensures level <= heap.highestLevel
    ensures heap.lists == old(heap.lists)[level := [q - META_SIZE, p - META_SIZE] + old(heap.lists)[level]]
  {
    ghost var a: nat, b: nat, lists := p - META_SIZE, q - META_SIZE, heap.lists;
    heap.BlockLevel(a);
    WithoutFirst(heap.LiveBlocks(), a, b, level);
    FreeAlone(heap, p, outside, level);
    FreeAlone(heap, q, outside, level);
    FrontTwice(lists, level, a, b);
  }

  lemma WithoutFirst(live: map<nat, nat>, a: nat, b: nat, level: nat)
    requires TwoAlone(live, a, b, level) && a != b
    ensures var rest := live - {a};
            && b in rest && rest[b] == level && BuddyOf(b, level) in rest
            && rest - {b} == live - {a, b}
  {
  }

  lemma FrontTwice(lists: seq<seq<nat>>, level: nat, a: nat, b: nat)
    requires level < |lists|
    ensures var once := lists[level := [a] + lists[level]];
            once[level := [b] + once[level]] == lists[level := [b, a] + lists[level]]
  {
    assert [b] + ([a] + lists[level]) == [b, a] + lists[level];
  }

  /** And taken from the front again. */
  lemma FrontTaken(lists: seq<seq<nat>>, level: nat, a: nat, b: nat)
    requires level < |lists|
    ensures var both := lists[level := [b, a] + lists[level]];
            && both[level][0] == b
            && var one := both[level := both[level][1..]];
            && one[level] != [] && one[level][0] == a && one[level := one[level][1..]] == lists
  {
    assert ([b, a] + lists[level])[1..] == [a] + lists[level];
    assert ([a] + lists[level])[1..] == lists[level];
  }

  ghost predicate TwoAlone(live: map<nat, nat>, a: nat, b: nat, level: nat) {
    && a in live && live[a] == level && b in live && live[b] == level
    && BuddyOf(a, level) in live && BuddyOf(b, level) in live && BuddyOf(b, level) != a
  }

  lemma BackAgain(live: map<nat, nat>, a: nat, b: nat, level: nat)
    requires a in live && live[a] == level && b in live && live[b] == level
    ensures (live - {a, b})[b := level][a := level] == live
  {
  }

  /** Two requests in a row. */
  method TakeTwo(heap: Allocator, bytes: nat, grant: nat -> nat, outside: nat -> Header, level: nat,
                 ghost lists: seq<seq<nat>>, ghost a: nat, ghost b: nat) returns (r: Outcome, s: Outcome)
    requires heap.Valid() && level <= heap.highestLevel
    requires |lists| == LEVEL_COUNT && heap.lists == lists[level := [b, a] + lists[level]]
    requires 0 < bytes && bytes + META_SIZE <= 0x8000_0000 && TargetLevel(bytes + META_SIZE) == level
    modifies heap, heap.memBlocks
    ensures r == Payload(b + META_SIZE) && s == Payload(a + META_SIZE)
    ensures heap.Valid() && heap.lists == lists
    ensures heap.LiveBlocks() == old(heap.LiveBlocks())[b := level][a := level]
  {
    FrontTaken(lists, level, a, b);
    r := TakeFirst(heap, bytes, grant, outside, level);
    s := TakeFirst(heap, bytes, grant, outside, level);
  }

  /** LAST IN, FIRST OUT.  Of two such blocks the next request of that size gets the second one, and
      the one after that the first; then everything is as before. */
  method LastFreedIsFirst(heap: Allocator, p: nat, q: nat, bytes: nat, grant: nat -> nat, outside: nat -> Header,
                          level: nat) returns (r: Outcome, s: Outcome)
    requires heap.Valid() && OutsideOk(heap.arenas, heap.highestLevel, outside)
    requires p > META_SIZE && q > META_SIZE && p != q
    requires TwoAlone(heap.LiveBlocks(), p - META_SIZE, q - META_SIZE, level)
    requires 0 < bytes && bytes + META_SIZE <= 0x8000_0000 && TargetLevel(bytes + META_SIZE) == level
    modifies heap, heap.memBlocks
    ensures r == Payload(q) && s == Payload(p)
    ensures heap.Valid() && heap.LiveBlocks() == old(heap.LiveBlocks()) && heap.lists == old(heap.lists)
  {
    BackAgain(heap.LiveBlocks(), p - META_SIZE, q - META_SIZE, level);
    ghost var lists := heap.lists;
    FreeBoth(heap, p, q, outside, level);
    r, s := TakeTwo(heap, bytes, grant, outside, level, lists, p - META_SIZE, q - META_SIZE);
  }

  // ----- the first requests

  /** Only one block, the page of the boot. */
  ghost predicate OnePage(lists: seq<seq<nat>>, page: nat) {
    && |lists| == LEVEL_COUNT
    && forall l {:trigger lists[l]} :: 0 <= l < LEVEL_COUNT ==> lists[l] == if l == PAGE_LEVEL then [page] else []
  }

  lemma OneBlockOneList(heap: Allocator, page: nat)
    requires heap.Valid() && heap.Blocks() == map[page := Block(PAGE_LEVEL, true)]
    ensures OnePage(heap.lists, page) && page > 0
  {
    assert page in heap.Blocks();
    forall l | 0 <= l < LEVEL_COUNT
      ensures heap.lists[l] == if l == PAGE_LEVEL then [page] else []
    {
      var s := heap.lists[l];
      assert ListOk(heap.headers, heap.memBlocks[..][l], l, s, {});
      assert forall a :: a in s ==> a in heap.Blocks() && heap.Blocks()[a].level == l;
      if l == PAGE_LEVEL {
        assert page in s;
        OnlyMember(s, page);
      } else if s != [] {
        SomeMember(s);
        assert false;
      }
    }
  }

  lemma SomeMember(s: seq<nat>)
    requires s != []
    ensures exists x :: x in s
  {
    assert s[0] in s;
  }

  lemma OnlyMember(s: seq<nat>, a: nat)
    requires NoDuplicates(s) && a in s && forall x :: x in s ==> x == a
    ensures s == [a]
  {
    var tail := s[1..];
    TailMembers(s);
    assert s[0] in s;
    if tail != [] {
      SomeMember(tail);
      assert false;
    }
  }

  lemma SmallestLevel(bytes: nat)
    requires 0 < bytes <= 16
    ensures TargetLevel(bytes + META_SIZE) == MIN_LEVEL
  {
    Sizes();
    TargetLevelIsTight(bytes + META_SIZE, MIN_LEVEL);
  }

  lemma Sizes()
    ensures Size(MIN_LEVEL) == 32 && Size(PAGE_LEVEL) == 0x20_0000 && Size(PAGE_LEVEL - 1) == 0x10_0000
  {
    Pow2Of32();
    assert Pow2(4) == 16;
    assert Pow2(5) == 32;
    SizeDoubles(PAGE_LEVEL - 1);
  }

  /** The lists after the first and after the second request. */
  lemma TwoTaken(l0: seq<seq<nat>>, l1: seq<seq<nat>>, l2: seq<seq<nat>>, page: nat)
    requires OnePage(l0, page) && Taken(l0, l1, PAGE_LEVEL, MIN_LEVEL) && page > 0
    requires l1[MIN_LEVEL] != [] && Taken(l1, l2, MIN_LEVEL, MIN_LEVEL)
    ensures l1[MIN_LEVEL] == [page + 0x20_0000 - 64]
    ensures l2[MIN_LEVEL] == [] && l2[PAGE_LEVEL - 1] == [page] && l2[PAGE_LEVEL] == []
    ensures ServedFrom(l2, PAGE_LEVEL, MIN_LEVEL, PAGE_LEVEL - 1)
  {
    Sizes();
  }

  /** From the boot page four small requests get the last four pieces of 32 bytes of the page, but not
      in the order of their addresses: once the smallest list is empty, it is the largest free block
      that is split. */
  method FourSmallRequests(heap: Allocator, page: nat, bytes: nat, grant: nat -> nat, outside: nat -> Header)
      returns (r: seq<Outcome>)
    requires heap.Valid() && heap.highestLevel == PAGE_LEVEL
    requires heap.Blocks() == map[page := Block(PAGE_LEVEL, true)] && 0 < bytes <= 16
    modifies heap, heap.memBlocks
    ensures heap.Valid()
    ensures r == [Payload(page + 0x20_0000 - 32 + META_SIZE), Payload(page + 0x20_0000 - 64 + META_SIZE),
                  Payload(page + 0x10_0000 - 32 + META_SIZE), Payload(page + 0x10_0000 - 64 + META_SIZE)]
  {
    OneBlockOneList(heap, page);
    SmallestLevel(bytes);
    Sizes();
    ghost var l0 := heap.lists;
    assert ServedFrom(l0, PAGE_LEVEL, MIN_LEVEL, PAGE_LEVEL);
    var r0 := TakeFrom(heap, bytes, grant, outside, MIN_LEVEL, PAGE_LEVEL);
    ghost var l1 := heap.lists;
    var r1 := TakeFirst(heap, bytes, grant, outside, MIN_LEVEL);
    ghost var l2 := heap.lists;
    TwoTaken(l0, l1, l2, page);
    var r2 := TakeFrom(heap, bytes, grant, outside, MIN_LEVEL, PAGE_LEVEL - 1);
    var r3 := TakeFirst(heap, bytes, grant, outside, MIN_LEVEL);
    r := [r0, r1, r2, r3];
  }
}
