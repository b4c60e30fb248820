/** The growth loop of `kmalloc` (src/mem/mem.c) on the frames that `paging_alloc_pages`
    (src/mem/paging.c) hands out, as it is written and as it is intended. */
module HeapOnFrames {
  import opened BitMath
  import opened Buddy
  import opened BuddySteps
  import opened FreeLists
  import opened Frames
  import opened Heap
  import opened Regions

  /** The number of pages of an arena. */
  function PageCount(level: nat): nat {
    Size(level) / PAGE_SIZE
  }

  lemma ArenaIsPages(l: nat)
    requires l >= PAGE_LEVEL
    ensures Size(l) == PAGE_SIZE * PageCount(l) && PageCount(l) >= 1
    ensures Size(PAGE_LEVEL) == PAGE_SIZE && PageCount(PAGE_LEVEL) == 1
  {
    var n := Pow2(l - PAGE_LEVEL);
    Pow2Of32();
    Pow2Add(l - PAGE_LEVEL, PAGE_LEVEL + BASE_LEVEL);
    DivModUnique(Size(l), PAGE_SIZE, n, 0);
    DivModUnique(PAGE_SIZE, PAGE_SIZE, 1, 0);
  }

  // ----- as written

  /** The page at `base` lies in an arena. */
  ghost predicate PageInArena(arenas: set<Span>, base: nat) {
    InArena(arenas, base, PAGE_LEVEL)
  }

  ghost predicate FrameInArena(arenas: set<Span>, base: nat, f: seq<bool>, p: nat) {
    p < |f| && !f[p] ==> PageInArena(arenas, base + PAGE_SIZE * p)
  }

  /** Every present frame in use lies in an arena; `base` is the virtual address of frame 0. */
  ghost predicate UsedFramesAreArenas(arenas: set<Span>, base: nat, f: seq<bool>, present: nat) {
    present <= |f| && forall p: nat {:trigger FrameInArena(arenas, base, f, p)} :: p < present ==>
                        FrameInArena(arenas, base, f, p)
  }

  /** A span that starts at a frame in use is no new arena. */
  lemma UsedFrameIsNoArena(arenas: set<Span>, base: nat, f: seq<bool>, present: nat, c: nat, l: nat)
    requires UsedFramesAreArenas(arenas, base, f, present) && c < present && !f[c]
    ensures PageInArena(arenas, base + PAGE_SIZE * c)
    ensures !NewArena(arenas, Span(base + PAGE_SIZE * c, l))
  {
    var s := Span(base + PAGE_SIZE * c, l);
    assert FrameInArena(arenas, base, f, c);
    var t :| t in arenas && Within(s.base, PAGE_LEVEL, t.base, t.level);
    assert ArenasApart(s, t) <==> s == t;
  }

  /** What holds from boot on as written: frame 0 is in use, free frames are present ones, and every
      present frame in use lies in an arena. */
  ghost predicate InUse(frames: FrameAllocator, arenas: set<Span>)
    reads frames, frames.pages
  {
    frames.Shape() && FramesInUse(arenas, frames.AddressOf(0), frames.Frames(), frames.presentCount)
  }

  ghost predicate FramesInUse(arenas: set<Span>, base: nat, f: seq<bool>, present: nat) {
    && 0 < present <= |f| && base > 0 && !f[0] && (forall p :: 0 <= p < |f| && f[p] ==> p < present)
    && UsedFramesAreArenas(arenas, base, f, present)
  }

  /** Frames that have been handed out for an arena lie in it. */
  lemma GrantedFramesAreArenas(arenas: set<Span>, base: nat, f: seq<bool>, present: nat, c: nat, l: nat)
    requires FramesInUse(arenas, base, f, present) && l >= PAGE_LEVEL && c + PageCount(l) <= |f|
    ensures FramesInUse(arenas + {Span(base + PAGE_SIZE * c, l)}, base,
                        Filled(f, c, c + PageCount(l), false), present)
  {
    ArenaIsPages(l);
    var s := Span(base + PAGE_SIZE * c, l);
    var g, arenas' := Filled(f, c, c + PageCount(l), false), arenas + {s};
    assert s in arenas';
    forall p: nat | p < present
      ensures FrameInArena(arenas', base, g, p)
    {
      assert FrameInArena(arenas, base, f, p);
      if c <= p < c + PageCount(l) {
        assert Within(base + PAGE_SIZE * p, PAGE_LEVEL, s.base, s.level);
      } else if !f[p] {
        var t :| t in arenas && Within(base + PAGE_SIZE * p, PAGE_LEVEL, t.base, t.level);
        assert t in arenas';
      }
    }
  }

  /** Once frame 0 is in use, what the scan as written finds starts at a present frame in use. */
  lemma FoundFrameIsUsed(arenas: set<Span>, base: nat, f: seq<bool>, present: nat, c: nat, count: nat)
    requires FramesInUse(arenas, base, f, present) && FoundAsWritten(f, c, count) && count > 0
    ensures c < present && !f[c]
  {
    var p :| c <= p < |f| && f[p];
  }

  /** So it is no new arena; but all that is in use lies in arenas again. */
  lemma FoundIsNoArena(arenas: set<Span>, base: nat, f: seq<bool>, present: nat, c: nat, l: nat)
    requires FramesInUse(arenas, base, f, present) && l >= PAGE_LEVEL && FoundAsWritten(f, c, PageCount(l))
    ensures var a := base + PAGE_SIZE * c;
            && PageInArena(arenas, a) && !NewArena(arenas, Span(a, l))
            && FramesInUse(WithGrant(arenas, a, l), base, Filled(f, c, c + PageCount(l), false), present)
  {
    ArenaIsPages(l);
    FoundFrameIsUsed(arenas, base, f, present, c, PageCount(l));
    UsedFrameIsNoArena(arenas, base, f, present, c, l);
    GrantedFramesAreArenas(arenas, base, f, present, c, l);
  }

  /** The bitmap before and after a request as written, whose range starts at frame c. */
  ghost predicate GrantedFrom(before: seq<nat>, after: seq<nat>, c: nat, count: nat) {
    GrantStart(before, c, count) && FramesOf(after) == Filled(FramesOf(before), c, c + count, false)
  }

  /** The page request of one round as written: it fails exactly when the words that are not 0 have
      no run that is long enough; what it returns starts with a page of an arena. */
  method RequestAsWritten(frames: FrameAllocator, level: nat, ghost arenas: set<Span>)
      returns (base: nat, ghost c: nat)
    requires InUse(frames, arenas) && level > PAGE_LEVEL
    modifies frames.pages
    ensures InUse(frames, WithGrant(arenas, base, level))
    ensures base == 0 <==> NoRun(old(frames.Packed()), PageCount(level))
    ensures base == 0 ==> frames.pages[..] == old(frames.pages[..])
    ensures base != 0 ==> PageInArena(arenas, base) && !NewArena(arenas, Span(base, level))
    ensures base != 0 ==> GrantedFrom(old(frames.pages[..]), frames.pages[..], c, PageCount(level))
                          && base == frames.AddressOf(0) + PAGE_SIZE * c
  {
    ghost var f, zero := frames.Frames(), frames.AddressOf(0);
    ArenaIsPages(level);
    base, c := RequestPages(frames, PageCount(level));
    if base != 0 {
      FoundIsNoArena(arenas, zero, f, frames.presentCount, c, level);
    }
  }

  /** `paging_alloc_pages` as written, for one page at least. */
  method RequestPages(frames: FrameAllocator, count: nat) returns (base: nat, ghost c: nat)
    requires frames.Shape() && frames.AddressOf(0) > 0 && count > 0
    modifies frames.pages
    ensures base == 0 <==> NoRun(old(frames.Packed()), count)
    ensures base == 0 ==> frames.pages[..] == old(frames.pages[..])
    ensures base != 0 ==>
              && base == frames.AddressOf(0) + PAGE_SIZE * c
              && FoundAsWritten(FramesOf(old(frames.pages[..])), c, count)
              && GrantedFrom(old(frames.pages[..]), frames.pages[..], c, count)
  {
    var r;
    r, c := frames.AllocPagesAsWritten(count);
    base := if r.NoPages? then 0 else r.addr;
    assert frames.AddressOf(c) == frames.AddressOf(0) + PAGE_SIZE * c;
  }

  /** Arenas that overlap or are not aligned stay so. */
  lemma BadArenasStay(arenas: set<Span>, base: nat, level: nat)
    ensures ArenasOk(WithGrant(arenas, base, level)) ==> ArenasOk(arenas)
  {
    if ArenasOk(WithGrant(arenas, base, level)) {
      forall s, t | s in arenas && t in arenas
        ensures ArenasApart(s, t)
      {
        assert s in WithGrant(arenas, base, level) && t in WithGrant(arenas, base, level);
      }
    }
  }

  /** One round of growth as written, on a heap of any state: what boot has established holds again.
      A heap in order stays in order if and only if the request fails. */
  method GrowRoundAsWritten(heap: Allocator, frames: FrameAllocator) returns (base: nat, ghost c: nat)
    requires heap.Sized() && heap.highestLevel + 1 < LEVEL_COUNT && heap.memBlocks != frames.pages
    requires InUse(frames, heap.arenas)
    modifies heap, heap.memBlocks, frames.pages
    ensures heap.Sized() && heap.highestLevel == old(heap.highestLevel) + 1
    ensures InUse(frames, heap.arenas)
    ensures heap.arenas == WithGrant(old(heap.arenas), base, heap.highestLevel)
    ensures base == 0 <==> NoRun(old(frames.Packed()), PageCount(heap.highestLevel))
    ensures base == 0 ==> frames.pages[..] == old(frames.pages[..])
    ensures base != 0 ==> PageInArena(old(heap.arenas), base)
    ensures base != 0 ==>
              GrantedFrom(old(frames.pages[..]), frames.pages[..], c, PageCount(heap.highestLevel))
              && base == frames.AddressOf(0) + PAGE_SIZE * c
    ensures old(heap.Valid()) ==> (heap.Valid() <==> base == 0)
    ensures old(heap.Valid()) && heap.Valid() ==> heap.LiveBlocks() == old(heap.LiveBlocks())
    ensures old(heap.Valid()) && base != 0 ==> !ArenasOk(heap.arenas)
    ensures !old(ArenasOk(heap.arenas)) ==> !ArenasOk(heap.arenas)
  {
    ghost var arenas, level := heap.arenas, heap.highestLevel + 1;
    base, c := RequestAsWritten(frames, heap.highestLevel + 1, heap.arenas);
    BadArenasStay(arenas, base, level);
    if heap.Valid() && base != 0 {
      PageTwice(arenas, base, level);
    }
    heap.GrowOnce(base);
  }

  /** One round, for a caller to whom it does not matter which page the request returns. */
  method AnyRoundAsWritten(heap: Allocator, frames: FrameAllocator) returns (base: nat)
    requires heap.Sized() && heap.highestLevel + 1 < LEVEL_COUNT && heap.memBlocks != frames.pages
    requires InUse(frames, heap.arenas)
    modifies heap, heap.memBlocks, frames.pages
    ensures heap.Sized() && heap.highestLevel == old(heap.highestLevel) + 1
    ensures InUse(frames, heap.arenas)
    ensures base == 0 <==> NoRun(old(frames.Packed()), PageCount(heap.highestLevel))
    ensures base == 0 ==> frames.pages[..] == old(frames.pages[..]) && heap.arenas == old(heap.arenas)
    ensures old(heap.Valid()) ==> (heap.Valid() <==> base == 0)
    ensures old(heap.Valid()) && heap.Valid() ==> heap.LiveBlocks() == old(heap.LiveBlocks())
    ensures old(heap.Valid()) && base != 0 ==> !ArenasOk(heap.arenas)
    ensures !old(ArenasOk(heap.arenas)) ==> !ArenasOk(heap.arenas)
  {
    ghost var c;
    base, c := GrowRoundAsWritten(heap, frames);
  }

  /** A span of a new level that starts inside an arena does not go with it. */
  lemma PageTwice(arenas: set<Span>, base: nat, level: nat)
    requires PageInArena(arenas, base) && forall s :: s in arenas ==> s.level < level
    ensures !ArenasOk(arenas + {Span(base, level)})
  {
    var s := Span(base, level);
    var t :| t in arenas && Within(base, PAGE_LEVEL, t.base, t.level);
    assert s in arenas + {s} && t in arenas + {s} && !ArenasApart(s, t);
  }

  /** THE GROWTH LOOP AS WRITTEN.  A heap in order stays in order if and only if there is nothing to
      grow, or no level left, or the very first page request finds no run in the words that are not
      0; in that case the heap does not grow at all. */
  method GrowAsWritten(heap: Allocator, frames: FrameAllocator, total: nat) returns (fits: bool)
    requires heap.Valid() && heap.memBlocks != frames.pages && InUse(frames, heap.arenas)
    modifies heap, heap.memBlocks, frames.pages
    ensures heap.Sized() && InUse(frames, heap.arenas)
    ensures fits ==> total <= heap.highestBlockSize
    ensures !fits ==> heap.highestLevel == LEVEL_COUNT - 1
                      || NoRun(frames.Packed(), PageCount(heap.highestLevel))
    ensures heap.Valid() <==>
              || total <= old(heap.highestBlockSize) || old(heap.highestLevel) == LEVEL_COUNT - 1
              || NoRun(old(frames.Packed()), PageCount(old(heap.highestLevel) + 1))
    ensures heap.Valid() ==>
              heap.arenas == old(heap.arenas) && heap.LiveBlocks() == old(heap.LiveBlocks())
              && (fits <==> total <= old(heap.highestBlockSize))
  {
    heap.ValidIsSized();
    ghost var low, live, arenas := heap.highestLevel, heap.LiveBlocks(), heap.arenas;
    fits := true;
    while total > heap.highestBlockSize
      invariant heap.Sized() && InUse(frames, heap.arenas) && low <= heap.highestLevel
      invariant heap.highestLevel == low ==>
                  heap.Valid() && heap.arenas == arenas && heap.LiveBlocks() == live
                  && frames.Packed() == old(frames.Packed())
      invariant heap.highestLevel > low ==>
                  && !ArenasOk(heap.arenas) && total > Size(low) && low < LEVEL_COUNT - 1
                  && !NoRun(old(frames.Packed()), PageCount(low + 1))
      decreases LEVEL_COUNT - heap.highestLevel
    {
      if heap.highestLevel + 1 >= LEVEL_COUNT {
        fits := false;
        break;
      }
      var base := AnyRoundAsWritten(heap, frames);
      if base == 0 {
        fits := false;
        break;
      }
    }
  }

  /** `kalloc_init` on fresh frames takes frame 0. */
  method Boot(frames: FrameAllocator) returns (heap: Allocator)
    requires frames.Shape() && frames.presentCount >= 1
    requires forall p :: 0 <= p < MAX_PAGES ==> (frames.Frames()[p] <==> p < frames.presentCount)
    requires frames.AddressOf(0) > 0 && Aligned(frames.AddressOf(0), PAGE_LEVEL)
    modifies frames.pages
    ensures fresh(heap) && fresh(heap.memBlocks) && heap.Valid() && heap.highestLevel == PAGE_LEVEL
    ensures heap.arenas == {Span(frames.AddressOf(0), PAGE_LEVEL)}
    ensures heap.memBlocks[PAGE_LEVEL] == frames.AddressOf(0)
    ensures forall p :: 0 <= p < MAX_PAGES ==> (frames.Frames()[p] <==> 0 < p < frames.presentCount)
    ensures InUse(frames, heap.arenas)
  {
    ghost var c;
    heap := new Allocator();
    assert RunAt(frames.Frames(), 0, 1);
    var page;
    page, c := frames.AllocPagesAsWritten(1);
    var status := heap.KallocInit(if page.NoPages? then 0 else page.addr);
    ArenaIsPages(PAGE_LEVEL);
    assert Span(frames.AddressOf(0), PAGE_LEVEL) in heap.arenas;
    assert PageInArena(heap.arenas, frames.AddressOf(0) + PAGE_SIZE * 0);
  }

  /** A RUN that gets there: after the boot page, the first request that needs growth is given the
      boot page again, although that is still the first block on the free list of its level. */
  method BootThenGrow(frames: FrameAllocator, bytes: nat, outside: nat -> Header)
      returns (heap: Allocator, r: Outcome)
    requires frames.Shape() && frames.presentCount >= 3
    requires forall p :: 0 <= p < MAX_PAGES ==> (frames.Frames()[p] <==> p < frames.presentCount)
    requires frames.AddressOf(0) > 0 && Aligned(frames.AddressOf(0), PAGE_LEVEL)
    requires Size(PAGE_LEVEL) < bytes + META_SIZE <= Size(PAGE_LEVEL + 1)
    modifies frames.pages
    ensures r == Payload(frames.AddressOf(0) + META_SIZE)
    ensures heap.memBlocks.Length == LEVEL_COUNT && heap.memBlocks[PAGE_LEVEL] == frames.AddressOf(0)
    ensures !heap.Valid()
  {
    heap := Boot(frames);
    var base := PagesBehindFront(frames, 1, 2);
    var grant := (l: nat) => base;
    BootPageTwice(heap.arenas, base, grant, 1);
    r := GrowTo(heap, bytes, 1, grant, outside);
  }

  /** The next larger request makes two rounds.  The first is given frame 0 again, and the second
      frame 1, which the first has just been given. */
  method BootThenGrowTwice(frames: FrameAllocator, bytes: nat, outside: nat -> Header)
      returns (heap: Allocator, r: Outcome)
    requires frames.Shape() && frames.presentCount >= 6
    requires forall p :: 0 <= p < MAX_PAGES ==> (frames.Frames()[p] <==> p < frames.presentCount)
    requires frames.AddressOf(0) > 0 && Aligned(frames.AddressOf(0), PAGE_LEVEL)
    requires Size(PAGE_LEVEL + 1) < bytes + META_SIZE <= Size(PAGE_LEVEL + 2)
    modifies frames.pages
    ensures r == Payload(frames.AddressOf(1) + META_SIZE)
    ensures heap.memBlocks.Length == LEVEL_COUNT && heap.memBlocks[PAGE_LEVEL] == frames.AddressOf(0)
    ensures !heap.Valid()
  {
    heap := Boot(frames);
    var first := PagesBehindFront(frames, 1, 2);
    var second := PagesBehindFront(frames, 2, 4);
    var grant := (l: nat) => if l == PAGE_LEVEL + 1 then first else second;
    BootPageTwice(heap.arenas, first, grant, 2);
    r := GrowTo(heap, bytes, 2, grant, outside);
  }

  /** A request as written when the frames from m on are free and m is in the first word. */
  method PagesBehindFront(frames: FrameAllocator, m: nat, count: nat) returns (base: nat)
    requires frames.Shape() && 0 < m && 0 < count && m + count <= 64 && m + count <= frames.presentCount
    requires FreeFrom(frames.Frames(), m, frames.presentCount)
    modifies frames.pages
    ensures base == frames.AddressOf(m - 1)
    ensures FreeFrom(frames.Frames(), m + count - 1, frames.presentCount)
  {
    ghost var words := frames.pages[..];
    RankZero(words);
    assert RunAt(frames.Frames(), m, count);
    FirstFreeIn(words, 0, m, count);
    var r, c := frames.AllocPagesAsWritten(count);
    GrantStartsTooLow(words, 0, m, c, count);
    base := r.addr;
  }

  /** A request that takes k rounds of growth, the page requests being answered by `grant`. */
  method GrowTo(heap: Allocator, bytes: nat, k: nat, grant: nat -> nat, outside: nat -> Header) returns (r: Outcome)
    requires heap.Valid() && heap.highestLevel == PAGE_LEVEL && 1 <= k <= 10
    requires forall l :: PAGE_LEVEL < l ==> grant(l) != 0
    requires Size(PAGE_LEVEL + k - 1) < bytes + META_SIZE <= Size(PAGE_LEVEL + k)
    modifies heap, heap.memBlocks
    ensures r == Payload(grant(PAGE_LEVEL + k) + META_SIZE)
    ensures heap.memBlocks.Length == LEVEL_COUNT
    ensures heap.memBlocks[PAGE_LEVEL] == old(heap.memBlocks[PAGE_LEVEL])
    ensures heap.arenas == Granted(old(heap.arenas), grant, PAGE_LEVEL, PAGE_LEVEL + k)
  {
    heap.ValidIsSized();
    RequestFits(bytes + META_SIZE, k);
    ghost var heads, arenas := heap.memBlocks[..], heap.arenas;
    r := heap.Kmalloc(bytes, grant, outside);
    assert heap.highestLevel > PAGE_LEVEL && r.Payload?;
    assert heap.highestLevel == PAGE_LEVEL + k;
    assert heap.memBlocks[..][PAGE_LEVEL] == heads[PAGE_LEVEL];
  }

  lemma RequestFits(total: nat, k: nat)
    requires Size(PAGE_LEVEL + k - 1) < total <= Size(PAGE_LEVEL + k) && 1 <= k <= 10
    ensures 0x20_0000 < total <= 0x8000_0000 < U64
    ensures forall l :: total <= Size(l) <==> PAGE_LEVEL + k <= l
  {
    Pow2Of32();
    SizeMonotone(PAGE_LEVEL, PAGE_LEVEL + k - 1);
    SizeMonotone(PAGE_LEVEL + k, PAGE_LEVEL + 10);
    forall l
      ensures total <= Size(l) <==> PAGE_LEVEL + k <= l
    {
      if PAGE_LEVEL + k <= l {
        SizeMonotone(PAGE_LEVEL + k, l);
      } else {
        SizeMonotone(l, PAGE_LEVEL + k - 1);
      }
    }
  }

  /** A first round that is answered by the boot page leaves arenas that overlap. */
  lemma BootPageTwice(arenas: set<Span>, zero: nat, grant: nat -> nat, k: nat)
    requires Span(zero, PAGE_LEVEL) in arenas && k >= 1 && grant(PAGE_LEVEL + 1) == zero != 0
    ensures !ArenasOk(Granted(arenas, grant, PAGE_LEVEL, PAGE_LEVEL + k))
  {
    var l := PAGE_LEVEL + k;
    if k == 1 {
      assert Granted(arenas, grant, PAGE_LEVEL, PAGE_LEVEL) == arenas;
      assert !ArenasApart(Span(zero, PAGE_LEVEL), Span(zero, l));
    } else {
      BootPageTwice(arenas, zero, grant, k - 1);
      BadArenasStay(Granted(arenas, grant, PAGE_LEVEL, l - 1), grant(l), l);
    }
  }

  // ----- as intended

  /** Exactly the frames from m up to n are free. */
  ghost predicate FreeFrom(f: seq<bool>, m: nat, n: nat) {
    forall p :: 0 <= p < |f| ==> (f[p] <==> m <= p < n)
  }

  /** The page request of `kalloc_init` on fresh frames, as intended. */
  method FirstPage(frames: FrameAllocator) returns (page: nat)
    requires frames.Valid() && frames.presentCount >= 1 && frames.outstanding == map[]
    modifies frames`outstanding, frames.pages
    ensures frames.Valid() && page == frames.AddressOf(0)
    ensures FreeFramesAreApart({Span(page, PAGE_LEVEL)}, page, frames.Frames())
    ensures FreeFrom(frames.Frames(), 1, frames.presentCount)
  {
    ghost var f, zero := frames.Frames(), frames.AddressOf(0);
    ArenaIsPages(PAGE_LEVEL);
    assert f[0] && RunAt(f, 0, 1);
    page := 0;
    var r, c := frames.AllocPages(1);
    if r.Pages? {
      page := r.addr;
    }
    RestStaysApart({}, zero, f, 0, PAGE_LEVEL);
    assert {} + {Span(zero, PAGE_LEVEL)} == {Span(zero, PAGE_LEVEL)};
  }

  method BootAsIntended(frames: FrameAllocator) returns (heap: Allocator)
    requires frames.Valid() && frames.presentCount >= 1 && frames.outstanding == map[]
    requires frames.AddressOf(0) > 0 && Aligned(frames.AddressOf(0), PAGE_LEVEL)
    modifies frames`outstanding, frames.pages
    ensures fresh(heap) && fresh(heap.memBlocks) && heap.Valid() && Coupled(heap, frames)
    ensures heap.arenas == {Span(frames.AddressOf(0), PAGE_LEVEL)} && heap.highestLevel == PAGE_LEVEL
    ensures FreeFrom(frames.Frames(), 1, frames.presentCount)
  {
    var page := FirstPage(frames);
    heap := new Allocator();
    var status := heap.KallocInit(page);
    heap.ValidIsSized();
  }

  /** No free frame has a byte in common with an arena. */
  ghost predicate FreeFramesAreApart(arenas: set<Span>, base: nat, f: seq<bool>) {
    forall p, s {:trigger f[p], s in arenas} :: 0 <= p < |f| && f[p] && s in arenas ==>
      Apart(base + PAGE_SIZE * p, PAGE_LEVEL, s.base, s.level)
  }

  lemma {:induction false} FreeRunIsApart(arenas: set<Span>, base: nat, f: seq<bool>, c: nat, n: nat, s: Span)
    requires FreeFramesAreApart(arenas, base, f) && RunAt(f, c, n) && n > 0 && s in arenas
    ensures base + PAGE_SIZE * (c + n) <= s.base || s.base + Size(s.level) <= base + PAGE_SIZE * c
  {
    ArenaIsPages(PAGE_LEVEL);
    assert f[c + n - 1];
    if n > 1 {
      FreeRunIsApart(arenas, base, f, c, n - 1, s);
    }
  }

  /** A free run of as many pages as an arena of a new level has is a new arena if and only if its
      address is aligned to its size. */
  lemma NewArenaIffAligned(arenas: set<Span>, base: nat, f: seq<bool>, c: nat, l: nat)
    requires FreeFramesAreApart(arenas, base, f) && base > 0
    requires l > PAGE_LEVEL && RunAt(f, c, PageCount(l)) && forall s :: s in arenas ==> s.level < l
    ensures NewArena(arenas, Span(base + PAGE_SIZE * c, l)) <==> Aligned(base + PAGE_SIZE * c, l)
  {
    var s := Span(base + PAGE_SIZE * c, l);
    ArenaIsPages(l);
    forall t | t in arenas
      ensures s != t && ArenasApart(s, t)
    {
      FreeRunIsApart(arenas, base, f, c, PageCount(l), t);
    }
  }

  /** Frames that have been handed out as an arena leave the other free frames apart from it. */
  lemma RestStaysApart(arenas: set<Span>, base: nat, f: seq<bool>, c: nat, l: nat)
    requires FreeFramesAreApart(arenas, base, f) && l >= PAGE_LEVEL && c + PageCount(l) <= |f|
    ensures FreeFramesAreApart(arenas + {Span(base + PAGE_SIZE * c, l)}, base,
                               Filled(f, c, c + PageCount(l), false))
  {
    ArenaIsPages(l);
  }

  ghost predicate AllAligned(arenas: set<Span>) {
    forall s :: s in arenas ==> Aligned(s.base, s.level)
  }

  lemma AlignedWithGrant(arenas: set<Span>, base: nat, level: nat)
    ensures AllAligned(WithGrant(arenas, base, level)) <==>
              AllAligned(arenas) && (base == 0 || Aligned(base, level))
  {
    if base != 0 {
      assert Span(base, level) in WithGrant(arenas, base, level);
    }
  }

  /** What ties the heap to the intended frame allocator: free frames are apart from arenas, and the
      heap is in order exactly when all arenas are aligned to their sizes. */
  ghost predicate Coupled(heap: Allocator, frames: FrameAllocator)
    reads heap, heap.memBlocks, frames, frames.pages
  {
    && heap.Sized() && frames.Valid() && heap.memBlocks != frames.pages && frames.AddressOf(0) > 0
    && FreeFramesAreApart(heap.arenas, frames.AddressOf(0), frames.Frames())
    && LevelsUpTo(heap.arenas, heap.highestLevel)
    && (heap.Valid() <==> AllAligned(heap.arenas))
  }

  /** The page request of one round: it fails exactly when no run is long enough; what it returns is
      the first fit, and a new arena exactly when it is aligned. */
  method RequestArena(frames: FrameAllocator, level: nat, ghost arenas: set<Span>)
      returns (base: nat, ghost c: nat)
    requires frames.Valid() && frames.AddressOf(0) > 0 && level > PAGE_LEVEL
    requires FreeFramesAreApart(arenas, frames.AddressOf(0), frames.Frames())
    requires LevelsUpTo(arenas, level - 1)
    modifies frames`outstanding, frames.pages
    ensures frames.Valid()
    ensures FreeFramesAreApart(WithGrant(arenas, base, level), frames.AddressOf(0), frames.Frames())
    ensures base == 0 <==> NoRun(old(frames.Frames()), PageCount(level))
    ensures base == 0 ==> frames.Frames() == old(frames.Frames())
    ensures base != 0 ==> (NewArena(arenas, Span(base, level)) <==> Aligned(base, level))
    ensures base != 0 ==>
              && base == frames.AddressOf(0) + PAGE_SIZE * c
              && FirstFit(old(frames.Frames()), c, PageCount(level))
              && frames.Frames() == Filled(old(frames.Frames()), c, c + PageCount(level), false)
  {
    ghost var f, zero := frames.Frames(), frames.AddressOf(0);
    ArenaIsPages(level);
    var r;
    r, c := frames.AllocPages(PageCount(level));
    if r.NoPages? {
      return 0, c;
    }
    base := r.addr;
    assert base == zero + PAGE_SIZE * c;
    NewArenaIffAligned(arenas, zero, f, c, level);
    RestStaysApart(arenas, zero, f, c, level);
  }

  /** One round of growth as intended. */
  method GrowRound(heap: Allocator, frames: FrameAllocator) returns (base: nat, ghost c: nat)
    requires Coupled(heap, frames) && heap.highestLevel + 1 < LEVEL_COUNT
    modifies heap, heap.memBlocks, frames`outstanding, frames.pages
    ensures Coupled(heap, frames) && heap.highestLevel == old(heap.highestLevel) + 1
    ensures heap.arenas == WithGrant(old(heap.arenas), base, heap.highestLevel)
    ensures base == 0 <==> NoRun(old(frames.Frames()), PageCount(heap.highestLevel))
    ensures base == 0 ==> frames.Frames() == old(frames.Frames())
    ensures base != 0 ==>
              && base == frames.AddressOf(0) + PAGE_SIZE * c
              && FirstFit(old(frames.Frames()), c, PageCount(heap.highestLevel))
              && frames.Frames() == Filled(old(frames.Frames()), c, c + PageCount(heap.highestLevel), false)
    ensures old(heap.Valid()) && heap.Valid() ==> heap.LiveBlocks() == old(heap.LiveBlocks())
  {
    ghost var arenas, level := heap.arenas, heap.highestLevel + 1;
    base, c := RequestArena(frames, heap.highestLevel + 1, arenas);
    AlignedWithGrant(arenas, base, level);
    heap.GrowOnce(base);
    assert heap.Valid() ==> AllAligned(heap.arenas);
  }

  /** THE GROWTH LOOP AS INTENDED, on the frames themselves: the heap is in order afterwards if and
      only if every arena is aligned to its size. */
  method Grow(heap: Allocator, frames: FrameAllocator, total: nat) returns (fits: bool)
    requires Coupled(heap, frames)
    modifies heap, heap.memBlocks, frames`outstanding, frames.pages
    ensures Coupled(heap, frames) && old(heap.highestLevel) <= heap.highestLevel
    ensures old(heap.Valid()) && heap.Valid() ==> heap.LiveBlocks() == old(heap.LiveBlocks())
    ensures fits ==> total <= heap.highestBlockSize
    ensures !fits ==> heap.highestLevel == LEVEL_COUNT - 1
                      || NoRun(frames.Frames(), PageCount(heap.highestLevel))
  {
    ghost var live := heap.LiveBlocks();
    while total > heap.highestBlockSize
      invariant Coupled(heap, frames) && old(heap.highestLevel) <= heap.highestLevel
      invariant old(heap.Valid()) && heap.Valid() ==> heap.LiveBlocks() == live
      invariant AllAligned(heap.arenas) ==> AllAligned(old(heap.arenas))
      decreases LEVEL_COUNT - heap.highestLevel
    {
      if heap.highestLevel + 1 >= LEVEL_COUNT {
        return false;
      }
      ghost var before := heap.arenas;
      var base, c := GrowRound(heap, frames);
      AlignedWithGrant(before, base, heap.highestLevel);
      if base == 0 {
        return false;
      }
    }
    return true;
  }

  // ----- growth from boot, as intended

  /** How many frames boot and the first k rounds of growth take: one, then 2, 4, 8, ... */
  function Taken(k: nat): nat {
    Pow2(k + 1) - 1
  }

  lemma TakenStep(k: nat)
    ensures Taken(k + 1) == Taken(k) + PageCount(PAGE_LEVEL + k + 1)
    ensures PAGE_SIZE * (Taken(k) + 1) == Size(PAGE_LEVEL + k + 1)
  {
    Pow2Of32();
    Pow2Add(k + 1, PAGE_LEVEL + BASE_LEVEL);
    DivModUnique(Size(PAGE_LEVEL + k + 1), PAGE_SIZE, Pow2(k + 1), 0);
  }

  /** Of frames that are free from m up to n, the first fit starts at m. */
  lemma FitAtFront(f: seq<bool>, m: nat, n: nat, count: nat)
    requires FreeFrom(f, m, n) && n <= |f| && count > 0
    ensures NoRun(f, count) <==> m + count > n
    ensures forall c: nat {:trigger FirstFit(f, c, count)} :: FirstFit(f, c, count) ==> c == m
    ensures m + count <= n ==> FreeFrom(Filled(f, m, m + count, false), m + count, n)
  {
    if m + count <= n {
      assert RunAt(f, m, count);
    }
    forall c: nat | RunAt(f, c, count)
      ensures m <= c && c + count <= n
    {
      assert f[c] && f[c + count - 1];
    }
  }

  /** All arenas up to the k-th round are aligned. */
  ghost predicate ZeroAligned(zero: nat, k: nat) {
    k == 0 || zero % Size(PAGE_LEVEL + k) == PAGE_SIZE
  }

  lemma ShiftedMultiple(zero: nat, s: nat)
    requires PAGE_SIZE < s && PAGE_SIZE <= zero
    ensures (zero + s - PAGE_SIZE) % s == 0 <==> zero % s == PAGE_SIZE
  {
    var q, r := zero / s, zero % s;
    DivMod(zero, s);
    if r >= PAGE_SIZE {
      MulDistributes(q, 1, s);
      DivModUnique(zero + s - PAGE_SIZE, s, q + 1, r - PAGE_SIZE);
    } else {
      DivModUnique(zero + s - PAGE_SIZE, s, q, s + r - PAGE_SIZE);
    }
  }

  /** One more round: its arena is aligned if and only if frame 0 lies one page behind a multiple of
      the arena's size, and then the earlier arenas are aligned as well. */
  lemma ZeroAlignedStep(zero: nat, k: nat)
    requires zero > 0 && Aligned(zero, PAGE_LEVEL)
    ensures ZeroAligned(zero, k) && Aligned(zero + PAGE_SIZE * Taken(k), PAGE_LEVEL + k + 1)
            <==> ZeroAligned(zero, k + 1)
  {
    var s, h := Size(PAGE_LEVEL + k + 1), Size(PAGE_LEVEL + k);
    TakenStep(k);
    Pow2Of32();
    SizeMonotone(PAGE_LEVEL, PAGE_LEVEL + k);
    AlignedIsMultiple(zero, PAGE_LEVEL);
    MultiplesApart(0, zero, PAGE_SIZE);
    ShiftedMultiple(zero, s);
    AlignedIsMultiple(zero + PAGE_SIZE * Taken(k), PAGE_LEVEL + k + 1);
    assert s == 2 * h;
    if k > 0 && zero % s == PAGE_SIZE {
      HalfModulus(zero, h);
    }
  }

  lemma HalfModulus(zero: nat, h: nat)
    requires PAGE_SIZE < h && zero % (2 * h) == PAGE_SIZE
    ensures zero % h == PAGE_SIZE
  {
    var q := zero / (2 * h);
    DivMod(zero, 2 * h);
    MulDoubles(q, h);
    DivModUnique(zero, h, 2 * q, PAGE_SIZE);
  }

  /** The state after boot and k successful rounds. */
  ghost predicate FromBoot(heap: Allocator, frames: FrameAllocator, k: nat)
    reads heap, heap.memBlocks, frames, frames.pages
  {
    && Coupled(heap, frames) && Aligned(frames.AddressOf(0), PAGE_LEVEL)
    && FreeFrom(frames.Frames(), Taken(k), frames.presentCount)
    && (AllAligned(heap.arenas) <==> ZeroAligned(frames.AddressOf(0), k))
  }

  /** Round k + 1 after boot takes the next 2^(k + 1) frames, if there are so many. */
  method GrowFromBoot(heap: Allocator, frames: FrameAllocator, ghost k: nat) returns (base: nat)
    requires FromBoot(heap, frames, k) && heap.highestLevel == PAGE_LEVEL + k < LEVEL_COUNT - 1
    modifies heap, heap.memBlocks, frames`outstanding, frames.pages
    ensures heap.highestLevel == PAGE_LEVEL + k + 1
    ensures base == 0 <==> Taken(k + 1) > frames.presentCount
    ensures FromBoot(heap, frames, if base == 0 then k else k + 1)
  {
    ghost var f, zero, arenas := frames.Frames(), frames.AddressOf(0), heap.arenas;
    TakenStep(k);
    ArenaIsPages(PAGE_LEVEL + k + 1);
    FitAtFront(f, Taken(k), frames.presentCount, PageCount(PAGE_LEVEL + k + 1));
    ZeroAlignedStep(zero, k);
    ghost var c;
    base, c := GrowRound(heap, frames);
    AlignedWithGrant(arenas, base, PAGE_LEVEL + k + 1);
  }

  /** The growth loop on what boot has left. */
  method RoundsFromBoot(heap: Allocator, frames: FrameAllocator, total: nat)
      returns (fits: bool, ghost k: nat)
    requires FromBoot(heap, frames, 0) && heap.highestLevel == PAGE_LEVEL && frames.presentCount >= 1
    modifies heap, heap.memBlocks, frames`outstanding, frames.pages
    ensures FromBoot(heap, frames, k) && Taken(k) <= frames.presentCount
    ensures k > 0 ==> total > Size(PAGE_LEVEL + k - 1)
    ensures fits ==> heap.highestLevel == PAGE_LEVEL + k && total <= Size(PAGE_LEVEL + k)
    ensures !fits ==> total > Size(PAGE_LEVEL + k)
                      && (Taken(k + 1) > frames.presentCount || PAGE_LEVEL + k == LEVEL_COUNT - 1)
  {
    k, fits := 0, true;
    assert Taken(0) == 1;
    while total > heap.highestBlockSize
      invariant FromBoot(heap, frames, k) && heap.highestLevel == PAGE_LEVEL + k < LEVEL_COUNT
      invariant k > 0 ==> total > Size(PAGE_LEVEL + k - 1)
      invariant Taken(k) <= frames.presentCount
      decreases LEVEL_COUNT - heap.highestLevel
    {
      if heap.highestLevel + 1 >= LEVEL_COUNT {
        fits := false;
        break;
      }
      var base := GrowFromBoot(heap, frames, k);
      if base == 0 {
        fits := false;
        break;
      }
      k := k + 1;
    }
  }

  /** GROWTH FROM BOOT AS INTENDED.  After k successful rounds the heap is in order if and only if
      frame 0 lies one page behind a multiple of the largest arena's size (or k is 0); the rounds
      succeed as long as there are frames. */
  method BootThenGrowAsIntended(frames: FrameAllocator, total: nat)
      returns (heap: Allocator, fits: bool, ghost k: nat)
    requires frames.Valid() && frames.presentCount >= 1 && frames.outstanding == map[]
    requires frames.AddressOf(0) > 0 && Aligned(frames.AddressOf(0), PAGE_LEVEL)
    modifies frames`outstanding, frames.pages
    ensures heap.Valid() <==> k == 0 || frames.AddressOf(0) % Size(PAGE_LEVEL + k) == PAGE_SIZE
    ensures k > 0 ==> total > Size(PAGE_LEVEL + k - 1)
    ensures Taken(k) <= frames.presentCount
    ensures fits ==> heap.highestLevel == PAGE_LEVEL + k && total <= Size(PAGE_LEVEL + k)
    ensures !fits ==> total > Size(PAGE_LEVEL + k)
                      && (Taken(k + 1) > frames.presentCount || PAGE_LEVEL + k == LEVEL_COUNT - 1)
  {
    heap := BootAsIntended(frames);
    assert Taken(0) == 1;
    fits, k := RoundsFromBoot(heap, frames, total);
  }
}
