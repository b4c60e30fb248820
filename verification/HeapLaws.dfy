/** Laws of the kernel heap that span several calls of `kmalloc` and `kfree`. */
module HeapLaws {
  import opened BitMath
  import opened Buddy
  import opened BuddySteps
  import opened FreeLists
  import opened ListOrder
  import opened Heap

  /** In every state of every run the free blocks are the maximal free spans of the bytes outside
      live blocks. */
  lemma HeapIsCanonical(heap: Allocator, a: nat, l: nat)
    requires heap.Valid()
    ensures (a in heap.headers && heap.headers[a].isFree && heap.headers[a].level == l)
            <==> MaximalFree(heap.arenas, heap.LiveBlocks(), a, l)
  {
    CanonicalForm(heap.Blocks(), heap.arenas, a, l);
  }

  /** Every list is acyclic, and a block is on the list of its level exactly when it is free. */
  lemma ListsHoldFreeBlocks(heap: Allocator, a: nat, k: nat)
    requires heap.Valid() && k < LEVEL_COUNT
    ensures NoDuplicates(heap.lists[k]) && Linked(heap.headers, heap.memBlocks[k], heap.lists[k])
    ensures a in heap.lists[k] <==>
              a in heap.headers && heap.headers[a].isFree && heap.headers[a].level == k
    ensures forall l :: k < l < LEVEL_COUNT && a in heap.lists[k] ==> a !in heap.lists[l]
  {
    assert ListOk(heap.headers, heap.memBlocks[..][k], k, heap.lists[k], {});
    forall l | k < l < LEVEL_COUNT && a in heap.lists[k]
      ensures a !in heap.lists[l]
    {
      ListsDisjoint(heap.headers, heap.memBlocks[..], heap.lists, {}, k, l, a);
    }
  }

  /** The payload of a live block is 16-aligned and no byte of it lies in another block, live or
      free, nor in any header. */
  lemma PayloadIsExclusive(heap: Allocator, a: nat, bytes: nat, c: nat)
    requires heap.Valid() && a in heap.LiveBlocks() && c in heap.headers
    requires META_SIZE + bytes <= Size(heap.LiveBlocks()[a])
    ensures (a + META_SIZE) % 16 == 0
    ensures c != a ==> a + META_SIZE + bytes <= c || c + Size(heap.headers[c].level) <= a + META_SIZE
    ensures a + META_SIZE + bytes <= c || c + META_SIZE <= a + META_SIZE
  {
    var m := heap.Blocks();
    assert Separate(m, a, c);
    BlockIsSixteenAligned(a, m[a].level);
    BlockIsSixteenAligned(c, m[c].level);
  }

  lemma BlockIsSixteenAligned(a: nat, l: nat)
    requires Aligned(a, l) && l >= MIN_LEVEL
    ensures a % 16 == 0 && Size(l) >= 32
  {
    assert Pow2(4) == 16;
    assert Pow2(5) == 32;
    LowZerosIsMultiple(a, l + BASE_LEVEL);
    Pow2Divides(a, 4, l + BASE_LEVEL);
    Pow2Monotone(5, l + BASE_LEVEL);
  }

  /** At the top of an arena the merge test of `kfree` passes exactly when memory outside the heap
      looks like a free block of that level: then, and only then, merging leaves the arena. */
  lemma MergeLeavesArenaIff(heap: Allocator, s: Span, outside: nat -> Header)
    requires heap.Valid() && s in heap.arenas && s.level < heap.highestLevel
    ensures var b := Xor(s.base, Size(s.level));
            var found := heap.ReadHeader(b, outside);
            (found.isFree && found.level == s.level) <==>
            (b !in heap.headers && outside(b).isFree && outside(b).level == s.level)
  {
    XorFindsBuddy(s.base, s.level);
    BuddyOfArena(heap.Blocks(), heap.arenas, s);
    assert forall b :: b in heap.headers ==> heap.Blocks()[b].level == heap.headers[b].level;
  }

  lemma FreshKey(arenas: set<Span>, live: map<nat, nat>, a: nat, l: nat)
    requires FreeSpan(arenas, live, a, l)
    ensures a !in live && live[a := l] - {a} == live
  {
    assert a in live ==> Apart(a, l, a, live[a]);
  }

  /** Freeing the block that has just been allocated brings back the blocks of before. */
  method FreeLatest(heap: Allocator, p: nat, level: nat, ghost before: Tiling, outside: nat -> Header)
    requires heap.Valid() && OutsideOk(heap.arenas, heap.highestLevel, outside)
    requires Tiled(before, heap.arenas) && Coalesced(before, {})
    requires p > META_SIZE && FreeSpan(heap.arenas, Live(before), p - META_SIZE, level)
    requires heap.LiveBlocks() == Live(before)[p - META_SIZE := level]
    modifies heap, heap.memBlocks
    ensures heap.Valid() && heap.Blocks() == before
    ensures heap.arenas == old(heap.arenas) && heap.highestLevel == old(heap.highestLevel)
  {
    FreshKey(heap.arenas, Live(before), p - META_SIZE, level);
    heap.Kfree(p, outside);
    LiveBlocksDetermineTiling(heap.Blocks(), before, heap.arenas);
  }

  /** The block behind a payload pointer is live, is none of `others`, and holds `bytes` bytes. */
  ghost predicate OwnsBlock(live: map<nat, nat>, others: map<nat, nat>, p: nat, bytes: nat) {
    && p > META_SIZE && p - META_SIZE in live && p - META_SIZE !in others
    && live == others[p - META_SIZE := live[p - META_SIZE]]
    && META_SIZE + bytes <= Size(live[p - META_SIZE])
  }

  /** No span that could hold `bytes` bytes and a header is free. */
  ghost predicate NoRoom(arenas: set<Span>, live: map<nat, nat>, bytes: nat)
    requires bytes > 0
  {
    var level := TargetLevel(bytes + META_SIZE);
    forall a :: !FreeSpan(arenas, live, a, level)
  }

  /** What an answer means for the caller. */
  lemma AnswerMeans(arenas: set<Span>, before: map<nat, nat>, after: map<nat, nat>, bytes: nat, r: Outcome)
    requires bytes > 0 && Answers(arenas, before, after, TargetLevel(bytes + META_SIZE), r)
    ensures r.Null? ==> after == before && NoRoom(arenas, after, bytes)
    ensures r.Payload? ==> OwnsBlock(after, before, r.addr, bytes)
  {
    TargetLevelIsTight(bytes + META_SIZE, 0);
    if r.Payload? {
      FreshKey(arenas, before, r.addr - META_SIZE, TargetLevel(bytes + META_SIZE));
    }
  }

  /** The bytes outside do not look like a free block at the levels that a call for `total` bytes with
      its header can reach; the buddy addresses above them are never read. */
  ghost predicate OutsideOkAfter(arenas: set<Span>, highest: nat, total: nat, grant: nat -> nat,
                                 outside: nat -> Header)
  {
    forall hi {:trigger Granted(arenas, grant, highest, hi)} ::
      highest <= hi < LEVEL_COUNT && (hi == highest || Size(hi - 1) < total) ==>
      OutsideOk(Granted(arenas, grant, highest, hi), hi, outside)
  }

  lemma OutsideStaysOk(arenas: set<Span>, highest: nat, total: nat, grant: nat -> nat,
                       outside: nat -> Header, hi: nat)
    ensures OutsideOkAfter(arenas, highest, total, grant, outside) && highest <= hi < LEVEL_COUNT
            && (hi == highest || Size(hi - 1) < total) ==>
              OutsideOk(Granted(arenas, grant, highest, hi), hi, outside)
  {
  }

  /** Without growth that is the condition on the heap as it is. */
  lemma OutsideOkWithoutGrowth(arenas: set<Span>, highest: nat, total: nat, grant: nat -> nat,
                               outside: nat -> Header)
    requires total <= Size(highest) && highest < LEVEL_COUNT
    ensures OutsideOkAfter(arenas, highest, total, grant, outside) <==> OutsideOk(arenas, highest, outside)
  {
    assert Granted(arenas, grant, highest, highest) == arenas;
    forall hi {:trigger Granted(arenas, grant, highest, hi)} | highest < hi
      ensures Size(hi - 1) >= total
    {
      SizeMonotone(highest, hi - 1);
    }
  }

  /** `kmalloc` on a heap in order, without the choice of the block. */
  method Ask(heap: Allocator, bytes: nat, grant: nat -> nat, outside: nat -> Header) returns (r: Outcome)
    requires heap.Valid() && bytes < U64
    requires bytes + META_SIZE > heap.highestBlockSize ==>
               GrantsOk(heap.arenas, heap.highestLevel, grant)
    modifies heap, heap.memBlocks
    ensures heap.Valid() && old(heap.highestLevel) <= heap.highestLevel
    ensures heap.arenas == Granted(old(heap.arenas), grant, old(heap.highestLevel), heap.highestLevel)
    ensures 0 < bytes && bytes + META_SIZE <= 0x8000_0000 ==>
              Answers(heap.arenas, old(heap.LiveBlocks()), heap.LiveBlocks(), TargetLevel(bytes + META_SIZE), r)
    ensures !r.Payload? ==> heap.LiveBlocks() == old(heap.LiveBlocks())
    ensures r.Payload? ==>
              0 < bytes && bytes + META_SIZE <= 0x8000_0000
              && (heap.highestLevel == old(heap.highestLevel) || Size(heap.highestLevel - 1) < bytes + META_SIZE)
  {
    heap.ValidIsSized();
    r := heap.Kmalloc(bytes, grant, outside);
  }

  /** `kmalloc` for a request that needs no growth. */
  method AskWithin(heap: Allocator, bytes: nat, grant: nat -> nat, outside: nat -> Header) returns (r: Outcome)
    requires heap.Valid() && 0 < bytes && bytes + META_SIZE <= heap.highestBlockSize
    requires bytes + META_SIZE <= 0x8000_0000
    modifies heap, heap.memBlocks
    ensures heap.Valid() && heap.highestLevel == old(heap.highestLevel) && heap.arenas == old(heap.arenas)
    ensures !r.OutOfRange?
    ensures Answers(heap.arenas, old(heap.LiveBlocks()), heap.LiveBlocks(), TargetLevel(bytes + META_SIZE), r)
    ensures r.Null? ==> heap.Blocks() == old(heap.Blocks())
  {
    heap.ValidIsSized();
    r := heap.Kmalloc(bytes, grant, outside);
  }

  /** `kmalloc` for a caller who only wants to know that the block is new and large enough. */
  method Obtain(heap: Allocator, bytes: nat, grant: nat -> nat, outside: nat -> Header) returns (p: nat)
    requires heap.Valid() && bytes < U64
    requires bytes + META_SIZE > heap.highestBlockSize ==>
               GrantsOk(heap.arenas, heap.highestLevel, grant)
    modifies heap, heap.memBlocks
    ensures heap.Valid()
    ensures p == 0 ==> heap.LiveBlocks() == old(heap.LiveBlocks())
    ensures p == 0 && 0 < bytes && bytes + META_SIZE <= 0x8000_0000 ==>
              NoRoom(heap.arenas, heap.LiveBlocks(), bytes)
    ensures p != 0 ==> OwnsBlock(heap.LiveBlocks(), old(heap.LiveBlocks()), p, bytes)
    ensures p != 0 && old(OutsideOkAfter(heap.arenas, heap.highestLevel, bytes + META_SIZE, grant, outside)) ==>
              OutsideOk(heap.arenas, heap.highestLevel, outside)
  {
    ghost var live, low, arenas := heap.LiveBlocks(), heap.highestLevel, heap.arenas;
    var r := Ask(heap, bytes, grant, outside);
    p := if r.Payload? then r.addr else 0;
    if 0 < bytes && bytes + META_SIZE <= 0x8000_0000 {
      AnswerMeans(heap.arenas, live, heap.LiveBlocks(), bytes, r);
    }
    if r.Payload? {
      OutsideStaysOk(arenas, low, bytes + META_SIZE, grant, outside, heap.highestLevel);
    }
  }

  /** `kfree` of the only block that is not one of `others`. */
  method Release(heap: Allocator, p: nat, outside: nat -> Header, ghost others: map<nat, nat>, ghost bytes: nat)
    requires heap.Valid() && OutsideOk(heap.arenas, heap.highestLevel, outside)
    requires OwnsBlock(heap.LiveBlocks(), others, p, bytes)
    modifies heap, heap.memBlocks
    ensures heap.Valid() && heap.LiveBlocks() == others
  {
    assert heap.LiveBlocks() - {p - META_SIZE} == others;
    heap.Kfree(p, outside);
  }

  lemma OlderAndNewer(live: map<nat, nat>, before: map<nat, nat>, others: map<nat, nat>, older: nat, newer: nat,
                      oldBytes: nat, newBytes: nat)
    requires OwnsBlock(before, others, older, oldBytes) && OwnsBlock(live, before, newer, newBytes)
    ensures older != newer && older - META_SIZE in live
    ensures OwnsBlock(live - {older - META_SIZE}, others, newer, newBytes)
  {
    var a, b := older - META_SIZE, newer - META_SIZE;
    assert live - {a} == others[b := live[b]];
  }

  /** Two blocks were obtained one after the other; the older one is freed. */
  method ReleaseOlder(heap: Allocator, older: nat, newer: nat, outside: nat -> Header,
                      ghost before: map<nat, nat>, ghost others: map<nat, nat>,
                      ghost oldBytes: nat, ghost newBytes: nat)
    requires heap.Valid() && OutsideOk(heap.arenas, heap.highestLevel, outside)
    requires OwnsBlock(before, others, older, oldBytes)
    requires OwnsBlock(heap.LiveBlocks(), before, newer, newBytes)
    modifies heap, heap.memBlocks
    ensures heap.Valid() && OwnsBlock(heap.LiveBlocks(), others, newer, newBytes)
  {
    OlderAndNewer(heap.LiveBlocks(), before, others, older, newer, oldBytes, newBytes);
    heap.Kfree(older, outside);
  }

  /** The blocks after growth: one free block more for every granted arena. */
  ghost function WithArenas(m: Tiling, grant: nat -> nat, lo: nat, hi: nat): Tiling {
    if hi <= lo then m
    else
      var m' := WithArenas(m, grant, lo, hi - 1);
      if grant(hi) == 0 then m' else m'[grant(hi) := Block(hi, true)]
  }

  lemma {:induction false} ArenasKeepTiling(m: Tiling, arenas: set<Span>, grant: nat -> nat, lo: nat, hi: nat)
    requires Tiled(m, arenas) && Coalesced(m, {}) && lo <= hi < LEVEL_COUNT
    requires lo < hi ==> GrantsOk(arenas, lo, grant)
    ensures var m' := WithArenas(m, grant, lo, hi);
            Tiled(m', Granted(arenas, grant, lo, hi)) && Coalesced(m', {}) && Live(m') == Live(m)
  {
    if lo < hi {
      ArenasKeepTiling(m, arenas, grant, lo, hi - 1);
      if grant(hi) != 0 {
        NextGrant(arenas, grant, lo, hi - 1, hi);
        var m', a := WithArenas(m, grant, lo, hi - 1), Granted(arenas, grant, lo, hi - 1);
        ArenaKeepsTiling(m', a, Span(grant(hi), hi));
        ArenaKeepsCoalesced(m', a, Span(grant(hi), hi));
      }
    }
  }

  /** `kfree` undoes `kmalloc`: the blocks are exactly those of before the two calls, with one free
      block more for every arena that was granted. */
  method MallocThenFree(heap: Allocator, bytes: nat, grant: nat -> nat, outside: nat -> Header)
    requires heap.Valid() && bytes < U64
    requires bytes + META_SIZE > heap.highestBlockSize ==>
               GrantsOk(heap.arenas, heap.highestLevel, grant)
    requires OutsideOkAfter(heap.arenas, heap.highestLevel, bytes + META_SIZE, grant, outside)
    modifies heap, heap.memBlocks
    ensures heap.Valid() && old(heap.highestLevel) <= heap.highestLevel
    ensures bytes + META_SIZE <= old(heap.highestBlockSize) ==>
              heap.highestLevel == old(heap.highestLevel)
    ensures heap.Blocks() == WithArenas(old(heap.Blocks()), grant, old(heap.highestLevel), heap.highestLevel)
  {
    heap.ValidIsSized();
    ghost var blocks, arenas, low := heap.Blocks(), heap.arenas, heap.highestLevel;
    var r := heap.Kmalloc(bytes, grant, outside);
    ghost var before := WithArenas(blocks, grant, low, heap.highestLevel);
    ArenasKeepTiling(blocks, arenas, grant, low, heap.highestLevel);
    if r.Payload? {
      FreeLatest(heap, r.addr, TargetLevel(bytes + META_SIZE), before, outside);
    } else {
      LiveBlocksDetermineTiling(heap.Blocks(), before, heap.arenas);
    }
  }

  /** A byte lies in one maximal free span at most. */
  lemma MaximalSpanIsUnique(arenas: set<Span>, live: map<nat, nat>, s: Span, t: Span, x: nat)
    requires MaximalFree(arenas, live, s.base, s.level) && Covers(s.base, s.level, x)
    requires MaximalFree(arenas, live, t.base, t.level) && Covers(t.base, t.level, x)
    ensures s == t
  {
    if s.level <= t.level {
      Nested(s.base, s.level, t.base, t.level);
      if s.level < t.level {
        ParentIsFreeSpan(arenas, live, s.base, s.level, t.base, t.level);
      }
    } else {
      Nested(t.base, t.level, s.base, s.level);
      ParentIsFreeSpan(arenas, live, t.base, t.level, s.base, s.level);
    }
  }

  /** The live blocks and the order of the lists determine everything that the heap keeps, but for the
      links in the headers of live blocks, which no call follows. */
  lemma StateIsDetermined(heap: Allocator, other: Allocator, a: nat)
    requires heap.Valid() && other.Valid() && heap.arenas == other.arenas
    requires heap.LiveBlocks() == other.LiveBlocks() && heap.lists == other.lists
    ensures heap.memBlocks[..] == other.memBlocks[..]
    ensures a in heap.headers <==> a in other.headers
    ensures a in heap.headers ==>
              && heap.headers[a].(next := 0) == other.headers[a].(next := 0)
              && (heap.headers[a].isFree ==> heap.headers[a] == other.headers[a])
  {
    var m, h, g := heap.Blocks(), heap.headers, other.headers;
    LiveBlocksDetermineTiling(m, other.Blocks(), heap.arenas);
    forall l | 0 <= l < LEVEL_COUNT
      ensures heap.memBlocks[l] == other.memBlocks[l]
    {
      assert ListOk(h, heap.memBlocks[..][l], l, heap.lists[l], {});
      assert ListOk(g, other.memBlocks[..][l], l, heap.lists[l], {});
    }
    assert a in m <==> a in h;
    assert a in other.Blocks() <==> a in g;
    if a in h {
      assert m[a] == other.Blocks()[a];
      if h[a].isFree {
        heap.BlockLevel(a);
        var l := h[a].level;
        assert ListOk(h, heap.memBlocks[..][l], l, heap.lists[l], {});
        assert ListOk(g, other.memBlocks[..][l], l, heap.lists[l], {});
      }
    }
  }

  lemma FreedSpan(arenas: set<Span>, live: map<nat, nat>, block: nat, level: nat,
                  before: seq<seq<nat>>, after: seq<seq<nat>>, s: Span)
    requires Freed(arenas, live, block, level, before, after)
    requires MaximalFree(arenas, live, s.base, s.level) && Within(block, level, s.base, s.level)
    ensures Returned(before, after, s.base, s.level)
  {
    var a, l :| MaximalFree(arenas, live, a, l) && Within(block, level, a, l) && Returned(before, after, a, l);
    MaximalSpanIsUnique(arenas, live, s, Span(a, l), block);
  }

  lemma FirstOfList(heap: Allocator, before: seq<seq<nat>>, s: Span)
    requires heap.Valid() && Returned(before, heap.lists, s.base, s.level)
    requires InArena(heap.arenas, s.base, s.level)
    ensures s.level <= heap.highestLevel && heap.lists[s.level][0] == s.base == heap.memBlocks[s.level]
  {
    var t :| t in heap.arenas && Within(s.base, s.level, t.base, t.level);
    LevelBelow(t, s.base, s.level);
    assert ListOk(heap.headers, heap.memBlocks[..][s.level], s.level, heap.lists[s.level], {});
    assert heap.lists[s.level][0] == s.base;
  }

  /** `kfree`, for a caller who knows the maximal free span that the block will be part of. */
  method FreeInto(heap: Allocator, p: nat, outside: nat -> Header, ghost s: Span)
    requires heap.Valid() && OutsideOk(heap.arenas, heap.highestLevel, outside)
    requires p > META_SIZE && p - META_SIZE in heap.LiveBlocks()
    requires MaximalFree(heap.arenas, heap.LiveBlocks() - {p - META_SIZE}, s.base, s.level)
    requires Within(p - META_SIZE, heap.LiveBlocks()[p - META_SIZE], s.base, s.level)
    modifies heap`headers, heap`lists, heap.memBlocks
    ensures heap.Valid() && heap.LiveBlocks() == old(heap.LiveBlocks()) - {p - META_SIZE}
    ensures Returned(old(heap.lists), heap.lists, s.base, s.level)
    ensures s.level <= heap.highestLevel && heap.memBlocks[s.level] == s.base
  {
    ghost var a: nat, l, lists := p - META_SIZE, heap.LiveBlocks()[p - META_SIZE], heap.lists;
    heap.Kfree(p, outside);
    FreedSpan(heap.arenas, heap.LiveBlocks(), a, l, lists, heap.lists, s);
    FirstOfList(heap, lists, s);
  }

  /** `kmalloc` for a request that is served from the list of level k: it gets the last piece of the
      first block of that list. */
  method TakeFrom(heap: Allocator, bytes: nat, grant: nat -> nat, outside: nat -> Header, level: nat, ghost k: nat)
      returns (r: Outcome)
    requires heap.Valid() && ServedFrom(heap.lists, heap.highestLevel, level, k)
    requires 0 < bytes && bytes + META_SIZE <= 0x8000_0000 && TargetLevel(bytes + META_SIZE) == level
    modifies heap, heap.memBlocks
    ensures heap.Valid() && heap.highestLevel == old(heap.highestLevel) && heap.arenas == old(heap.arenas)
    ensures r == Payload(LastPieceOf(old(heap.lists)[k][0], k, level) + META_SIZE)
    ensures heap.LiveBlocks() == old(heap.LiveBlocks())[r.addr - META_SIZE := level]
    ensures Taken(old(heap.lists), heap.lists, k, level)
  {
    TargetLevelIsTight(bytes + META_SIZE, heap.highestLevel);
    heap.ValidIsSized();
    EmptyLists(heap.headers, heap.memBlocks[..], heap.lists, {});
    FirstOfEach(heap, k);
    ghost var lists, heads, highest := heap.lists, heap.memBlocks[..], heap.highestLevel;
    r := heap.Kmalloc(bytes, grant, outside);
    OnePiece(lists, heads, highest, level, k, r);
    OneSource(lists, heap.lists, highest, level, k);
  }

  lemma FirstOfEach(heap: Allocator, k: nat)
    requires heap.Valid() && k < LEVEL_COUNT && heap.lists[k] != []
    ensures heap.memBlocks[k] == heap.lists[k][0]
  {
    assert ListOk(heap.headers, heap.memBlocks[..][k], k, heap.lists[k], {});
  }

  lemma OnePiece(lists: seq<seq<nat>>, heads: seq<nat>, highest: nat, level: nat, k: nat, r: Outcome)
    requires |lists| == |heads| == LEVEL_COUNT > highest && ServedFrom(lists, highest, level, k)
    requires forall l :: 0 <= l < LEVEL_COUNT ==> (heads[l] == 0 <==> lists[l] == [])
    requires heads[k] == lists[k][0] && Handed(heads, highest, level, r)
    ensures r == Payload(LastPieceOf(lists[k][0], k, level) + META_SIZE)
  {
    if heads[level] == 0 {
      var j: nat :| Topmost(heads, highest, j) && r.addr - META_SIZE + Size(level) == heads[j] + Size(j);
      assert j == k;
    }
  }

  lemma OneSource(before: seq<seq<nat>>, after: seq<seq<nat>>, highest: nat, level: nat, k: nat)
    requires highest < |before| && ServedFrom(before, highest, level, k)
    requires Requeued(before, after, highest, level, true)
    ensures Taken(before, after, k, level)
  {
    var j :| ServedFrom(before, highest, level, j) && Taken(before, after, j, level);
    assert j == k;
  }

  /** `kmalloc` for a request whose list is not empty. */
  method TakeFirst(heap: Allocator, bytes: nat, grant: nat -> nat, outside: nat -> Header, level: nat)
      returns (r: Outcome)
    requires heap.Valid() && level <= heap.highestLevel && heap.lists[level] != []
    requires 0 < bytes && bytes + META_SIZE <= 0x8000_0000 && TargetLevel(bytes + META_SIZE) == level
    modifies heap, heap.memBlocks
    ensures heap.Valid() && r == Payload(old(heap.lists)[level][0] + META_SIZE)
    ensures heap.LiveBlocks() == old(heap.LiveBlocks())[old(heap.lists)[level][0] := level]
    ensures heap.lists == old(heap.lists)[level := old(heap.lists)[level][1..]]
    ensures heap.highestLevel == old(heap.highestLevel) && heap.arenas == old(heap.arenas)
  {
    r := TakeFrom(heap, bytes, grant, outside, level, level);
  }

  lemma ReturnedAndTaken(before: seq<seq<nat>>, lists: seq<seq<nat>>, s: Span)
    requires Returned(before, lists, s.base, s.level) && s.level < |lists|
    ensures lists[s.level] != [] && Cleared(before, lists[s.level := lists[s.level][1..]], s.base, s.level)
  {
  }

  /** The span that a free makes up is what the next request of that size gets; the lists are then
      those of before the two calls without the blocks in that span. */
  method FreeThenMalloc(heap: Allocator, p: nat, bytes: nat, grant: nat -> nat, outside: nat -> Header,
                        ghost s: Span) returns (r: Outcome)
    requires heap.Valid() && OutsideOk(heap.arenas, heap.highestLevel, outside)
    requires p > META_SIZE && p - META_SIZE in heap.LiveBlocks()
    requires MaximalFree(heap.arenas, heap.LiveBlocks() - {p - META_SIZE}, s.base, s.level)
    requires Within(p - META_SIZE, heap.LiveBlocks()[p - META_SIZE], s.base, s.level)
    requires 0 < bytes && bytes + META_SIZE <= 0x8000_0000 && TargetLevel(bytes + META_SIZE) == s.level
    modifies heap, heap.memBlocks
    ensures heap.Valid() && r == Payload(s.base + META_SIZE)
    ensures heap.LiveBlocks() == (old(heap.LiveBlocks()) - {p - META_SIZE})[s.base := s.level]
    ensures Cleared(old(heap.lists), heap.lists, s.base, s.level)
  {
    ghost var lists := heap.lists;
    FreeInto(heap, p, outside, s);
    ReturnedAndTaken(lists, heap.lists, s);
    r := TakeFirst(heap, bytes, grant, outside, TargetLevel(bytes + META_SIZE));
  }

  /** Freeing all live blocks, in any order, leaves one free block for every arena. */
  method FreeAll(heap: Allocator, order: seq<nat>, outside: nat -> Header)
    requires heap.Valid() && OutsideOk(heap.arenas, heap.highestLevel, outside)
    requires forall a :: a in heap.LiveBlocks() <==> a in order
    requires NoDuplicates(order)
    modifies heap, heap.memBlocks
    ensures heap.Valid() && heap.arenas == old(heap.arenas) && heap.LiveBlocks() == map[]
    ensures forall s :: s in heap.arenas ==>
              s.base in heap.Blocks() && heap.Blocks()[s.base] == Block(s.level, true)
    ensures forall a :: a in heap.Blocks() ==> exists s :: s in heap.arenas && s.base == a
  {
    var i := 0;
    while i < |order|
      invariant 0 <= i <= |order|
      invariant heap.Valid() && heap.arenas == old(heap.arenas)
      invariant heap.highestLevel == old(heap.highestLevel)
      invariant forall a :: a in heap.LiveBlocks() <==> a in order[i..]
    {
      assert order[i] in order[i..];
      heap.Kfree(order[i] + META_SIZE, outside);
      TailMembers(order[i..]);
      assert order[i..][1..] == order[i + 1..];
      i := i + 1;
    }
    assert heap.LiveBlocks() == map[];
    OnlyArenas(heap.Blocks(), heap.arenas);
  }

  lemma OnlyArenas(m: Tiling, arenas: set<Span>)
    requires Tiled(m, arenas) && Coalesced(m, {}) && Live(m) == map[]
    ensures forall s :: s in arenas ==> s.base in m && m[s.base] == Block(s.level, true)
    ensures forall a :: a in m ==> exists s :: s in arenas && s.base == a
  {
    forall s | s in arenas
      ensures s.base in m && m[s.base] == Block(s.level, true)
    {
      NothingLive(m, arenas, s);
    }
    forall a | a in m
      ensures exists s :: s in arenas && s.base == a
    {
      assert Housed(m, arenas, a);
      var s :| s in arenas && Within(a, m[a].level, s.base, s.level);
      assert Separate(m, a, s.base);
    }
  }
}
