/** The kernel heap of src/mem/mem.c: `kalloc_init`, `kmalloc` and `kfree`. */
module Heap {
  import opened BitMath
  import opened Buddy
  import opened BuddySteps
  import opened FreeLists
  import opened ListOrder

  /** ALIGN_UP(sizeof(mem_block_t), KERNEL_MEM_ALIGNMENT). */
  const META_SIZE: nat := 16

  const PAGE_LEVEL: nat := 18

  /** The outcome of `kmalloc`: a null pointer, the address of a payload, or a request whose size
      arithmetic leaves the range in which the C code is defined. */
  datatype Outcome = Null | Payload(addr: nat) | OutOfRange

  lemma HeaderNeedsLevelTwo(total: nat)
    requires total > META_SIZE
    ensures CeilLog(total) >= MIN_LEVEL + BASE_LEVEL
  {
    CeilLogIsLeast(total);
    assert Pow2(4) == 16;
    if CeilLog(total) < 5 {
      Pow2Monotone(CeilLog(total), 4);
    }
  }

  /** The level of the smallest block that holds `total` bytes. */
  function TargetLevel(total: nat): (l: nat)
    requires total > META_SIZE
    ensures l >= MIN_LEVEL && Size(l) == Pow2(CeilLog(total))
  {
    HeaderNeedsLevelTwo(total);
    CeilLog(total) - BASE_LEVEL
  }

  /** It is the least level of a block that holds a header and the request, and less than half of
      the block is unused. */
  lemma TargetLevelIsTight(total: nat, l: nat)
    requires total > META_SIZE
    ensures Size(TargetLevel(total)) >= total && Size(TargetLevel(total)) < 2 * total
    ensures Size(l) >= total <==> l >= TargetLevel(total)
  {
    CeilLogIsLeast(total);
    if l >= TargetLevel(total) {
      SizeMonotone(TargetLevel(total), l);
    }
  }

  /** The answers of `paging_alloc_pages` for the levels still to come, 0 being the null pointer, are
      spans that are aligned to their size, apart from all arenas and apart from each other. */
  ghost predicate GrantsOk(arenas: set<Span>, highest: nat, grant: nat -> nat) {
    && (forall l {:trigger NewArena(arenas, Span(grant(l), l))} ::
          highest < l < LEVEL_COUNT && grant(l) != 0 ==> NewArena(arenas, Span(grant(l), l)))
    && (forall k, l {:trigger ArenasApart(Span(grant(k), k), Span(grant(l), l))} ::
          highest < k < l < LEVEL_COUNT && grant(k) != 0 && grant(l) != 0 ==>
          ArenasApart(Span(grant(k), k), Span(grant(l), l)))
  }

  /** The arenas after a page request for the given level that returned `base`. */
  ghost function WithGrant(arenas: set<Span>, base: nat, level: nat): set<Span> {
    if base == 0 then arenas else arenas + {Span(base, level)}
  }

  /** The arenas after the page requests for the levels above lo and up to hi. */
  ghost function Granted(before: set<Span>, grant: nat -> nat, lo: nat, hi: nat): set<Span> {
    if hi <= lo then before
    else WithGrant(Granted(before, grant, lo, hi - 1), grant(hi), hi)
  }

  /** The headers and the list heads after the page requests for the levels above lo and up to hi. */
  function GrownStore(h: Store, grant: nat -> nat, lo: nat, hi: nat): Store {
    if hi <= lo then h
    else
      var h' := GrownStore(h, grant, lo, hi - 1);
      if grant(hi) == 0 then h' else h'[grant(hi) := Header(0, hi, true)]
  }

  function GrownHeads(heads: seq<nat>, grant: nat -> nat, lo: nat, hi: nat): (heads': seq<nat>)
    requires hi < |heads|
    ensures |heads'| == |heads|
    ensures forall l :: 0 <= l < |heads| ==> heads'[l] == if lo < l <= hi then grant(l) else heads[l]
  {
    if hi <= lo then heads else GrownHeads(heads, grant, lo, hi - 1)[hi := grant(hi)]
  }

  ghost function GrownLists(lists: seq<seq<nat>>, grant: nat -> nat, lo: nat, hi: nat): (lists': seq<seq<nat>>)
    requires hi < |lists|
    ensures |lists'| == |lists|
  {
    if hi <= lo then lists
    else
      var lists' := GrownLists(lists, grant, lo, hi - 1);
      if grant(hi) == 0 then lists' else lists'[hi := [grant(hi)] + lists'[hi]]
  }

  /** The grants already used up do not spoil the next one. */
  lemma {:induction false} NextGrant(before: set<Span>, grant: nat -> nat, lo: nat, hi: nat, l: nat)
    requires GrantsOk(before, lo, grant) && lo <= hi < l < LEVEL_COUNT && grant(l) != 0
    ensures NewArena(Granted(before, grant, lo, hi), Span(grant(l), l))
  {
    var s := Span(grant(l), l);
    assert NewArena(before, s);
    if lo < hi {
      NextGrant(before, grant, lo, hi - 1, l);
    }
    forall t | t in Granted(before, grant, lo, hi)
      ensures s != t && ArenasApart(s, t)
    {
      if lo < hi && t !in Granted(before, grant, lo, hi - 1) {
        assert ArenasApart(Span(grant(hi), hi), s);
      }
      assert ArenasApart(s, t);
    }
  }

  /** A header read at the buddy address of an arena that is smaller than the largest level leaves
      the heap; the bytes found there must not look like a free block of the same level. */
  ghost predicate OutsideOk(arenas: set<Span>, highest: nat, outside: nat -> Header) {
    forall s {:trigger BuddyOf(s.base, s.level)} :: s in arenas && s.level < highest ==>
      var h := outside(BuddyOf(s.base, s.level));
      !(h.isFree && h.level == s.level)
  }

  /** The part of the heap's invariant that holds between two steps of `kmalloc`: everything, but
      for a free pair that the block z, the upper half of the last split, may be in. */
  ghost predicate Ready(h: Store, heads: seq<nat>, lists: seq<seq<nat>>, arenas: set<Span>, z: nat) {
    && ListsOk(h, heads, lists, {})
    && Tiled(BlocksOf(h), arenas) && Coalesced(BlocksOf(h), {z})
  }

  /** The lists of the levels from lo to hi are empty. */
  ghost predicate EmptyFrom(heads: seq<nat>, lo: nat, hi: nat)
    requires hi < |heads|
  {
    forall l :: lo <= l <= hi ==> heads[l] == 0
  }

  ghost predicate Topmost(heads: seq<nat>, highest: nat, k: nat)
    requires highest < |heads|
  {
    k <= highest && heads[k] != 0 && EmptyFrom(heads, k + 1, highest)
  }

  /** Which block is handed out: the first one on the list of the wanted level; or, if that list is
      empty, the last piece of the first block on the highest list that is not empty. */
  ghost predicate Picked(heads: seq<nat>, highest: nat, target: nat, a: nat)
    requires target <= highest < |heads|
  {
    if heads[target] != 0 then a == heads[target]
    else exists k: nat :: Topmost(heads, highest, k) && a + Size(target) == heads[k] + Size(k)
  }

  /** What a request for a block of the wanted level gives, on a heap of any state: a null pointer
      exactly when the lists from that level up are all empty. */
  ghost predicate Handed(heads: seq<nat>, highest: nat, target: nat, r: Outcome)
    requires target <= highest < |heads|
  {
    if EmptyFrom(heads, target, highest) then r.Null?
    else r.Payload? && r.addr >= META_SIZE && Picked(heads, highest, target, r.addr - META_SIZE)
  }

  /** What it means on a heap that is in order: a null pointer says that no span of that level is
      free; otherwise the payload is in a free span of that level, which becomes the one new live
      block. */
  ghost predicate Answers(arenas: set<Span>, before: map<nat, nat>, after: map<nat, nat>, level: nat,
                          r: Outcome)
  {
    && (r.Null? <==> forall a :: !FreeSpan(arenas, before, a, level))
    && if r.Payload? then
         && r.addr > META_SIZE && FreeSpan(arenas, before, r.addr - META_SIZE, level)
         && after == before[r.addr - META_SIZE := level]
       else r.Null? && after == before
  }

  /** The page requests for the levels between lo and hi have not failed. */
  ghost predicate NonNull(grant: nat -> nat, lo: nat, hi: nat) {
    forall l :: lo < l < hi ==> grant(l) != 0
  }

  ghost predicate LevelsUpTo(arenas: set<Span>, level: nat) {
    forall s :: s in arenas ==> s.level <= level
  }

  /** No arena can hold `total` bytes. */
  ghost predicate TooSmall(arenas: set<Span>, total: nat) {
    forall s :: s in arenas ==> Size(s.level) < total
  }

  lemma AnyException(m: Tiling, a: nat)
    requires Coalesced(m, {0}) && 0 !in m
    ensures Coalesced(m, {a}) && Coalesced(m, {})
  {
  }

  /** The heap's invariant, but for the size and level of the largest block. */
  ghost predicate InOrder(h: Store, heads: seq<nat>, lists: seq<seq<nat>>, arenas: set<Span>) {
    ListsOk(h, heads, lists, {}) && Tiled(BlocksOf(h), arenas) && Coalesced(BlocksOf(h), {})
  }

  /** A new arena whose list is empty joins a heap that is in order. */
  lemma AddArenaOk(h: Store, heads: seq<nat>, lists: seq<seq<nat>>, arenas: set<Span>, s: Span)
    requires InOrder(h, heads, lists, arenas) && NewArena(arenas, s)
    requires s.level < LEVEL_COUNT && heads[s.level] == 0
    ensures var h' := h[s.base := Header(0, s.level, true)];
            && InOrder(h', heads[s.level := s.base], lists[s.level := [s.base] + lists[s.level]], arenas + {s})
            && BlocksOf(h') == BlocksOf(h)[s.base := Block(s.level, true)]
            && Live(BlocksOf(h')) == Live(BlocksOf(h))
  {
    var h' := h[s.base := Header(0, s.level, true)];
    ArenaKeepsTiling(BlocksOf(h), arenas, s);
    ArenaKeepsCoalesced(BlocksOf(h), arenas, s);
    PushHead(h, heads, lists, s.base, s.level, {});
    assert {} - {s.base} == {};
    assert BlocksOf(h') == BlocksOf(h)[s.base := Block(s.level, true)];
  }

  /** Nothing else can join it. */
  lemma OnlyNewArenasJoin(m: Tiling, arenas: set<Span>, s: Span)
    requires Tiled(m, arenas + {s}) && s !in arenas
    ensures NewArena(arenas, s)
  {
    assert s in arenas + {s};
    forall t | t in arenas
      ensures s != t && ArenasApart(s, t)
    {
      assert t in arenas + {s};
    }
  }

  lemma JoinsIffNew(h: Store, heads: seq<nat>, lists: seq<seq<nat>>, arenas: set<Span>, s: Span)
    requires InOrder(h, heads, lists, arenas) && s !in arenas
    requires s.level < LEVEL_COUNT && heads[s.level] == 0
    ensures var h' := h[s.base := Header(0, s.level, true)];
            && (InOrder(h', heads[s.level := s.base], lists[s.level := [s.base] + lists[s.level]], arenas + {s})
                <==> NewArena(arenas, s))
            && (NewArena(arenas, s) ==> Live(BlocksOf(h')) == Live(BlocksOf(h)))
  {
    var h' := h[s.base := Header(0, s.level, true)];
    if NewArena(arenas, s) {
      AddArenaOk(h, heads, lists, arenas, s);
    } else if Tiled(BlocksOf(h'), arenas + {s}) {
      OnlyNewArenasJoin(BlocksOf(h'), arenas, s);
    }
  }

  lemma TakeHeadOk(h: Store, heads: seq<nat>, lists: seq<seq<nat>>, arenas: set<Span>,
                   level: nat, z: nat)
    requires Ready(h, heads, lists, arenas, z)
    requires level < LEVEL_COUNT && heads[level] != 0 && (z == 0 || z == heads[level])
    ensures heads[level] in h && lists[level] != []
    ensures var b := heads[level];
            var h' := h[b := Header(0, level, false)];
            && Ready(h', heads[level := h[b].next], lists[level := lists[level][1..]], arenas, 0)
            && FreeSpan(arenas, Live(BlocksOf(h)), b, level)
            && Live(BlocksOf(h')) == Live(BlocksOf(h))[b := level]
  {
    PopHead(h, heads, lists, level);
    var b, m := heads[level], BlocksOf(h);
    var h' := h[b := Header(0, level, false)];
    FreeBlockIsFreeSpan(m, arenas, b);
    if z == 0 {
      AnyException(m, b);
    }
    TakeBlock(m, arenas, b);
    ListsFrame(h, h', heads[level := h[b].next], lists[level := lists[level][1..]], {b}, {}, b);
    assert BlocksOf(h') == m[b := Block(level, false)];
  }

  function SplitStore(h: Store, heads: seq<nat>, b1: nat, b2: nat, level: nat): Store
    requires 0 < level < |heads|
  {
    h[b1 := Header(heads[level - 1], level - 1, true)][b2 := Header(b1, level - 1, true)]
  }

  function SplitHeads(h: Store, heads: seq<nat>, b1: nat, b2: nat, level: nat): seq<nat>
    requires 0 < level < |heads| && b1 in h
  {
    heads[level := h[b1].next][level - 1 := b2]
  }

  lemma SplitListsOk(h: Store, heads: seq<nat>, lists: seq<seq<nat>>, level: nat, b2: nat)
    requires ListsOk(h, heads, lists, {})
    requires 0 < level < LEVEL_COUNT && heads[level] != 0 && b2 !in h && b2 > 0
    ensures heads[level] in h && lists[level] != []
    ensures h[heads[level]].isFree && h[heads[level]].level == level
    ensures var b1 := heads[level];
            ListsOk(SplitStore(h, heads, b1, b2, level), SplitHeads(h, heads, b1, b2, level),
                    SplitLists(lists, b1, b2, level), {})
  {
    var b1 := heads[level];
    PopHead(h, heads, lists, level);
    var heads1, lists1 := heads[level := h[b1].next], lists[level := lists[level][1..]];
    PushHead(h, heads1, lists1, b1, level - 1, {b1});
    assert {b1} - {b1} == {};
    var h2 := h[b1 := Header(heads[level - 1], level - 1, true)];
    var heads2, lists2 := heads1[level - 1 := b1], lists1[level - 1 := [b1] + lists[level - 1]];
    PushHead(h2, heads2, lists2, b2, level - 1, {});
    assert {} - {b2} == {};
    assert heads2[level - 1 := b2] == SplitHeads(h, heads, b1, b2, level);
    assert lists2[level - 1 := [b2] + lists2[level - 1]] == SplitLists(lists, b1, b2, level);
  }

  lemma SplitHeadOk(h: Store, heads: seq<nat>, lists: seq<seq<nat>>, arenas: set<Span>,
                    level: nat, z: nat)
    requires Ready(h, heads, lists, arenas, z)
    requires MIN_LEVEL < level < LEVEL_COUNT && heads[level] != 0 && (z == 0 || z == heads[level])
    ensures heads[level] in h && lists[level] != [] && lists[level][0] == heads[level]
    ensures Size(level) / 2 == Size(level - 1)
    ensures var b1, b2 := heads[level], heads[level] + Size(level) / 2;
            var h' := SplitStore(h, heads, b1, b2, level);
            && Ready(h', SplitHeads(h, heads, b1, b2, level), SplitLists(lists, b1, b2, level),
                     arenas, b2)
            && Live(BlocksOf(h')) == Live(BlocksOf(h))
  {
    PopHead(h, heads, lists, level);
    var b1, m := heads[level], BlocksOf(h);
    SizeDoubles(level - 1);
    var b2 := b1 + Size(level - 1);
    if z == 0 {
      AnyException(m, b1);
    }
    SplitKeepsTiling(m, arenas, b1, level - 1);
    SplitKeepsCoalesced(m, arenas, b1, level - 1);
    SplitListsOk(h, heads, lists, level, b2);
    assert BlocksOf(SplitStore(h, heads, b1, b2, level)) == Split(m, b1, level - 1);
  }

  /** The heap's invariant inside the merge loop of `kfree`: the block that is being merged is free
      but in no list, and only it may be in a free pair. */
  ghost predicate Merging(h: Store, heads: seq<nat>, lists: seq<seq<nat>>, arenas: set<Span>, block: nat) {
    && ListsOk(h, heads, lists, {block}) && block in h && h[block].isFree
    && Tiled(BlocksOf(h), arenas) && Coalesced(BlocksOf(h), {block})
  }

  lemma StartMerging(h: Store, heads: seq<nat>, lists: seq<seq<nat>>, arenas: set<Span>, block: nat)
    requires Ready(h, heads, lists, arenas, 0) && block in h && !h[block].isFree
    ensures var h' := h[block := h[block].(isFree := true)];
            && Merging(h', heads, lists, arenas, block)
            && Live(BlocksOf(h')) == Live(BlocksOf(h)) - {block}
  {
    var h', m := h[block := h[block].(isFree := true)], BlocksOf(h);
    AnyException(m, 0);
    ReleaseBlock(m, arenas, block);
    assert BlocksOf(h') == m[block := Block(m[block].level, true)];
    ListsFrame(h, h', heads, lists, {}, {block}, block);
  }

  /** Without a free buddy the merged block goes back to its list. */
  lemma StopMerging(h: Store, heads: seq<nat>, lists: seq<seq<nat>>, arenas: set<Span>, block: nat)
    requires Merging(h, heads, lists, arenas, block) && h[block].level < LEVEL_COUNT
    requires !FreePair(BlocksOf(h), block)
    ensures var l := h[block].level;
            var h' := h[block := Header(heads[l], l, true)];
            && Ready(h', heads[l := block], lists[l := [block] + lists[l]], arenas, 0)
            && Live(BlocksOf(h')) == Live(BlocksOf(h))
  {
    var l := h[block].level;
    var h' := h[block := Header(heads[l], l, true)];
    NothingToMerge(BlocksOf(h), arenas, block);
    PushHead(h, heads, lists, block, l, {block});
    assert {block} - {block} == {};
    assert BlocksOf(h') == BlocksOf(h);
  }

  /** The lower of two buddies takes over the memory of both. */
  function MergedStore(h: Store, a: nat, b: nat): Store
    requires a in h && b in h
  {
    if b < a then (h - {a})[b := h[b].(level := h[b].level + 1)]
    else (h - {b})[a := h[a].(level := h[a].level + 1)]
  }

  lemma MergedLists(h: Store, heads: seq<nat>, lists: seq<seq<nat>>, a: nat, b: nat)
    requires ListsOk(h, heads, lists, {a, b}) && a in h && b in h && a != b
    ensures ListsOk(MergedStore(h, a, b), heads, lists, {if b < a then b else a})
  {
    var h' := MergedStore(h, a, b);
    var p := if b < a then b else a;
    forall l | 0 <= l < LEVEL_COUNT
      ensures ListOk(h', heads[l], l, lists[l], {p})
    {
      assert ListOk(h, heads[l], l, lists[l], {a, b});
      assert a !in lists[l] && b !in lists[l];
    }
  }

  /** One round of the merge loop, after the buddy has left its list. */
  lemma MergeRound(h0: Store, h: Store, heads: seq<nat>, lists: seq<seq<nat>>, arenas: set<Span>,
                   block: nat, s: Span)
    requires BlocksOf(h) == BlocksOf(h0) && Tiled(BlocksOf(h0), arenas)
    requires Coalesced(BlocksOf(h0), {block}) && FreePair(BlocksOf(h0), block)
    requires s in arenas && Within(block, h0[block].level, s.base, s.level)
    requires h0[block].level < s.level
    requires ListsOk(h, heads, lists, {block, BuddyOf(block, h0[block].level)})
    ensures var l := h0[block].level;
            var b := BuddyOf(block, l);
            var p := ParentOf(block, l);
            && block in h && b in h && block != b && p == (if b < block then b else block)
            && var h' := MergedStore(h, block, b);
            && Merging(h', heads, lists, arenas, p) && h'[p].level == l + 1
            && Live(BlocksOf(h')) == Live(BlocksOf(h0))
  {
    var m, l := BlocksOf(h0), h0[block].level;
    var b, p := BuddyOf(block, l), ParentOf(block, l);
    BuddyFacts(block, l);
    ParentWithin(block, l, s);
    assert block in BlocksOf(h) && b in BlocksOf(h);
    var h' := MergedStore(h, block, b);
    MergedLists(h, heads, lists, block, b);
    MergeKeepsTiling(m, arenas, p, l);
    MergeKeepsCoalesced(m, arenas, block, l);
    MergedBlocks(h, m, p, block, b, l);
  }

  lemma MergedBlocks(h: Store, m: Tiling, p: nat, a: nat, b: nat, l: nat)
    requires BlocksOf(h) == m && a in m && b in m && m[a] == m[b] == Block(l, true)
    requires (a == p && b == p + Size(l)) || (b == p && a == p + Size(l))
    ensures a in h && b in h && BlocksOf(MergedStore(h, a, b)) == Merge(m, p, l)
    ensures p in MergedStore(h, a, b) && MergedStore(h, a, b)[p].level == l + 1
    ensures MergedStore(h, a, b)[p].isFree
  {
    assert a in h && b in h;
    assert BlocksOf(h)[a] == Block(h[a].level, h[a].isFree);
    assert BlocksOf(h)[b] == Block(h[b].level, h[b].isFree);
    var h' := MergedStore(h, a, b);
    forall x
      ensures x in BlocksOf(h') <==> x in Merge(m, p, l)
      ensures x in BlocksOf(h') ==> BlocksOf(h')[x] == Merge(m, p, l)[x]
    {
      assert x in h <==> x in BlocksOf(h);
      assert x in h ==> BlocksOf(h)[x] == Block(h[x].level, h[x].isFree);
    }
  }

  /** What a free leaves: the maximal free span around the freed block is one block again, which is
      the first one on its list; the blocks that it has absorbed are on no list, and the others are
      where they were. */
  ghost predicate Freed(arenas: set<Span>, live: map<nat, nat>, block: nat, level: nat,
                        before: seq<seq<nat>>, after: seq<seq<nat>>)
  {
    exists a, l {:trigger MaximalFree(arenas, live, a, l)} ::
      MaximalFree(arenas, live, a, l) && Within(block, level, a, l) && Returned(before, after, a, l)
  }

  class Allocator {
    var headers: Store
    const memBlocks: array<nat>
    var highestBlockSize: nat
    var highestLevel: nat

    ghost var arenas: set<Span>
    ghost var lists: seq<seq<nat>>

    function Blocks(): Tiling
      reads this
    {
      BlocksOf(headers)
    }

    /** The live blocks and their levels. */
    function LiveBlocks(): map<nat, nat>
      reads this
    {
      Live(Blocks())
    }

    ghost predicate Valid()
      reads this, memBlocks
    {
      && memBlocks.Length == LEVEL_COUNT
      && PAGE_LEVEL <= highestLevel < LEVEL_COUNT && highestBlockSize == Size(highestLevel)
      && LevelsUpTo(arenas, highestLevel)
      && InOrder(headers, memBlocks[..], lists, arenas)
    }

    /** What growth relies on and keeps, whatever the page requests return: size and level of the
        largest block agree, and the lists above that level are empty. */
    ghost predicate Sized()
      reads this, memBlocks
    {
      && memBlocks.Length == LEVEL_COUNT == |lists|
      && PAGE_LEVEL <= highestLevel < LEVEL_COUNT && highestBlockSize == Size(highestLevel)
      && forall l :: highestLevel < l < LEVEL_COUNT ==> memBlocks[l] == 0
    }

    lemma ValidIsSized()
      requires Valid()
      ensures Sized()
    {
      forall l | highestLevel < l < LEVEL_COUNT
        ensures memBlocks[l] == 0
      {
        NoListAbove(l);
      }
    }

    /** The static initial state. */
    constructor ()
      ensures Valid() && fresh(memBlocks)
      ensures arenas == {} && headers == map[] && highestLevel == PAGE_LEVEL
    {
      headers := map[];
      memBlocks := new nat[LEVEL_COUNT](_ => 0);
      highestBlockSize := Pow2(21);
      highestLevel := PAGE_LEVEL;
      arenas := {};
      lists := seq(LEVEL_COUNT, _ => []);
    }

    /** `kalloc_init`, given the page that `paging_alloc_pages(1)` returned. */
    method KallocInit(page: nat) returns (status: int)
      requires Valid() && arenas == {} && highestLevel == PAGE_LEVEL
      requires Aligned(page, PAGE_LEVEL)
      modifies this, memBlocks
      ensures Valid() && highestLevel == PAGE_LEVEL && LiveBlocks() == map[]
      ensures status == (if page == 0 then -1 else 0)
      ensures arenas == if page == 0 then {} else {Span(page, PAGE_LEVEL)}
      ensures page != 0 ==> Blocks() == map[page := Block(PAGE_LEVEL, true)]
                            && memBlocks[PAGE_LEVEL] == page
    {
      NoArenaNoBlock(Blocks());
      if page == 0 {
        return -1;
      }
      NoBlockNoList(PAGE_LEVEL);
      AddArenaOk(headers, memBlocks[..], lists, arenas, Span(page, PAGE_LEVEL));
      AddArena(page, PAGE_LEVEL);
      return 0;
    }

    lemma NoArenaNoBlock(m: Tiling)
      requires Tiled(m, {})
      ensures m == map[]
    {
      assert forall a :: a in m ==> Housed(m, {}, a);
    }

    lemma NoBlockNoList(level: nat)
      requires Valid() && Blocks() == map[] && level < LEVEL_COUNT
      ensures memBlocks[level] == 0
    {
      assert ListOk(headers, memBlocks[..][level], level, lists[level], {});
      assert forall a :: a in lists[level] ==> a in Blocks();
    }

    /** The header of a new arena becomes the only member of the list of its level. */
    method AddArena(base: nat, level: nat)
      requires memBlocks.Length == LEVEL_COUNT == |lists| && level < LEVEL_COUNT
      modifies this`headers, this`lists, this`arenas, memBlocks
      ensures headers == old(headers)[base := Header(0, level, true)]
      ensures memBlocks[..] == old(memBlocks[..])[level := base]
      ensures arenas == old(arenas) + {Span(base, level)}
      ensures lists == old(lists)[level := [base] + old(lists)[level]]
      ensures old(InOrder(headers, memBlocks[..], lists, arenas)) && old(memBlocks[level]) == 0
              && Span(base, level) !in old(arenas) ==>
                && (InOrder(headers, memBlocks[..], lists, arenas) <==> NewArena(old(arenas), Span(base, level)))
                && (NewArena(old(arenas), Span(base, level)) ==> LiveBlocks() == old(LiveBlocks()))
    {
      if InOrder(headers, memBlocks[..], lists, arenas) && memBlocks[level] == 0
         && Span(base, level) !in arenas {
        JoinsIffNew(headers, memBlocks[..], lists, arenas, Span(base, level));
      }
      memBlocks[level] := base;
      headers := headers[base := Header(0, level, true)];
      lists := lists[level := [base] + lists[level]];
      arenas := arenas + {Span(base, level)};
    }

    // ----- kmalloc

    /** One round of growth, with what `paging_alloc_pages` returned.  Whatever that is, size and
        level stay in step; and the heap stays in order exactly when it is a null pointer or a new
        arena. */
    method GrowOnce(base: nat)
      requires Sized() && highestLevel + 1 < LEVEL_COUNT
      modifies this, memBlocks
      ensures Sized() && highestLevel == old(highestLevel) + 1
      ensures headers == if base == 0 then old(headers)
                         else old(headers)[base := Header(0, highestLevel, true)]
      ensures memBlocks[..] == old(memBlocks[..])[highestLevel := base]
      ensures arenas == WithGrant(old(arenas), base, highestLevel)
      ensures lists == if base == 0 then old(lists)
                       else old(lists)[highestLevel := [base] + old(lists)[highestLevel]]
      ensures old(Valid()) ==>
                (Valid() <==> base == 0 || NewArena(old(arenas), Span(base, highestLevel)))
      ensures old(Valid()) && Valid() ==> LiveBlocks() == old(LiveBlocks())
    {
      highestBlockSize := highestBlockSize * 2;
      highestLevel := highestLevel + 1;
      if base == 0 {
        memBlocks[highestLevel] := 0;
        assert memBlocks[..] == old(memBlocks[..]);
      } else {
        AddArena(base, highestLevel);
      }
    }

    /** What has changed since the page requests for the levels above `low` began. */
    ghost predicate Grew(store: Store, heads: seq<nat>, listed: seq<seq<nat>>, before: set<Span>,
                         grant: nat -> nat, low: nat)
      requires |heads| == LEVEL_COUNT == |listed| && highestLevel < LEVEL_COUNT
      reads this, memBlocks
    {
      && low <= highestLevel
      && headers == GrownStore(store, grant, low, highestLevel)
      && memBlocks[..] == GrownHeads(heads, grant, low, highestLevel)
      && lists == GrownLists(listed, grant, low, highestLevel)
      && arenas == Granted(before, grant, low, highestLevel)
    }

    /** One round of growth, after those for the levels above `low`. */
    method GrowRound(grant: nat -> nat, ghost store: Store, ghost heads: seq<nat>,
                     ghost listed: seq<seq<nat>>, ghost before: set<Span>, ghost low: nat)
      requires Sized() && highestLevel + 1 < LEVEL_COUNT == |heads| == |listed|
      requires Grew(store, heads, listed, before, grant, low)
      modifies this, memBlocks
      ensures Sized() && highestLevel == old(highestLevel) + 1
      ensures Grew(store, heads, listed, before, grant, low)
      ensures grant(highestLevel) == 0 ==> arenas == old(arenas)
      ensures Size(highestLevel - 1) == old(highestBlockSize)
      ensures old(Valid()) && GrantsOk(before, low, grant) ==>
                Valid() && LiveBlocks() == old(LiveBlocks())
    {
      if GrantsOk(before, low, grant) && grant(highestLevel + 1) != 0 {
        NextGrant(before, grant, low, highestLevel, highestLevel + 1);
      }
      GrowOnce(grant(highestLevel + 1));
    }

    /** The growth loop of `kmalloc`: the largest block size is doubled until the request fits.  A
        page request that fails ends the loop, but the raised level stays.  All but the last clause
        hold whatever the page requests return. */
    method Grow(total: nat, grant: nat -> nat) returns (fits: bool)
      requires Sized()
      modifies this, memBlocks
      ensures Sized()
      ensures Grew(old(headers), old(memBlocks[..]), old(lists), old(arenas), grant, old(highestLevel))
      ensures highestLevel > old(highestLevel) ==> total > Size(highestLevel - 1)
      ensures NonNull(grant, old(highestLevel), highestLevel)
      ensures total <= old(highestBlockSize) ==> highestLevel == old(highestLevel)
      ensures fits <==> total <= highestBlockSize
                        && (highestLevel > old(highestLevel) ==> grant(highestLevel) != 0)
      ensures !fits ==> highestLevel == LEVEL_COUNT - 1
                        || (highestLevel > old(highestLevel) && grant(highestLevel) == 0)
      ensures old(Valid()) && (total > old(highestBlockSize) ==>
                                 GrantsOk(old(arenas), old(highestLevel), grant)) ==>
                Valid() && LiveBlocks() == old(LiveBlocks())
                && (!fits ==> TooSmall(arenas, total))
    {
      ghost var before, low, store, heads, listed := arenas, highestLevel, headers, memBlocks[..], lists;
      ghost var live, ok := LiveBlocks(), Valid() && (total > highestBlockSize ==>
                                                        GrantsOk(arenas, highestLevel, grant));
      fits := true;
      while total > highestBlockSize
        invariant Sized() && Grew(store, heads, listed, before, grant, low)
        invariant total <= Size(low) ==> highestLevel == low
        invariant highestLevel > low ==> total > Size(highestLevel - 1)
        invariant NonNull(grant, low, highestLevel + 1)
        invariant ok ==> Valid() && LiveBlocks() == live
        decreases LEVEL_COUNT - highestLevel
      {
        if ok {
          SmallArenas(total);
        }
        if highestLevel + 1 >= LEVEL_COUNT {
          fits := false;
          break;
        }
        GrowRound(grant, store, heads, listed, before, low);
        if grant(highestLevel) == 0 {
          fits := false;
          break;
        }
      }
    }

    lemma SmallArenas(total: nat)
      requires Valid() && total > highestBlockSize
      ensures TooSmall(arenas, total)
    {
      forall s | s in arenas
        ensures Size(s.level) < total
      {
        SizeMonotone(s.level, highestLevel);
      }
    }

    /** No list above the highest level has a member, so growth overwrites no free block. */
    lemma NoListAbove(level: nat)
      requires Valid() && highestLevel < level < LEVEL_COUNT
      ensures memBlocks[level] == 0 && lists[level] == []
    {
      var m := Blocks();
      assert ListOk(headers, memBlocks[..][level], level, lists[level], {});
      if lists[level] != [] {
        var a := lists[level][0];
        assert a in lists[level];
        assert Housed(m, arenas, a);
        var s :| s in arenas && Within(a, m[a].level, s.base, s.level);
        LevelBelow(s, a, m[a].level);
        assert false;
      }
    }

    /** What a header read finds at an address: a header of the heap, or other memory. */
    function ReadHeader(a: nat, outside: nat -> Header): Header
      reads this
    {
      if a in headers then headers[a] else outside(a)
    }

    /** The first block of a list is handed out. */
    method TakeHead(level: nat, outside: nat -> Header, ghost z: nat) returns (block: nat)
      requires memBlocks.Length == LEVEL_COUNT == |lists| && level < LEVEL_COUNT && memBlocks[level] != 0
      modifies this`headers, this`lists, memBlocks
      ensures |lists| == LEVEL_COUNT && block == old(memBlocks[level])
      ensures headers == old(headers)[block := old(ReadHeader(memBlocks[level], outside)).(next := 0, isFree := false)]
      ensures memBlocks[..] == old(memBlocks[..])[level := old(ReadHeader(memBlocks[level], outside)).next]
      ensures old(Ready(headers, memBlocks[..], lists, arenas, z)) && (z == 0 || z == block) ==>
                && Ready(headers, memBlocks[..], lists, arenas, 0)
                && FreeSpan(arenas, old(LiveBlocks()), block, level)
                && LiveBlocks() == old(LiveBlocks())[block := level]
                && old(lists)[level] != [] && lists == old(lists)[level := old(lists)[level][1..]]
    {
      block := memBlocks[level];
      if Ready(headers, memBlocks[..], lists, arenas, z) && (z == 0 || z == block) {
        TakeHeadOk(headers, memBlocks[..], lists, arenas, level, z);
        PopHead(headers, memBlocks[..], lists, level);
      }
      var header := ReadHeader(block, outside);
      memBlocks[level] := header.next;
      headers := headers[block := header.(next := 0, isFree := false)];
      lists := if lists[level] == [] then lists else lists[level := lists[level][1..]];
    }

    /** The payload of the first block of a list. */
    method Deliver(level: nat, outside: nat -> Header, ghost z: nat) returns (r: Outcome)
      requires Sized() && MIN_LEVEL <= level <= highestLevel && memBlocks[level] != 0
      modifies this`headers, this`lists, memBlocks
      ensures Sized() && r == Payload(old(memBlocks[level]) + META_SIZE)
      ensures memBlocks[..] == old(memBlocks[..])[level := old(ReadHeader(memBlocks[level], outside)).next]
      ensures old(Ready(headers, memBlocks[..], lists, arenas, z)) && LevelsUpTo(arenas, highestLevel)
              && (z == 0 || z == old(memBlocks[level])) ==>
                && Valid() && Answers(arenas, old(LiveBlocks()), LiveBlocks(), level, r)
                && old(lists)[level] != [] && lists == old(lists)[level := old(lists)[level][1..]]
    {
      var block := TakeHead(level, outside, z);
      r := Payload(block + META_SIZE);
    }

    /** One step of the split loop: the first block of a list is replaced by its two halves, which
        go to the front of the next lower list, the upper half last. */
    method SplitHead(level: nat, outside: nat -> Header, ghost z: nat) returns (upper: nat)
      requires memBlocks.Length == LEVEL_COUNT == |lists| && MIN_LEVEL < level < LEVEL_COUNT
      requires memBlocks[level] != 0
      modifies this`headers, this`lists, memBlocks
      ensures |lists| == LEVEL_COUNT && upper > 0
      ensures upper + Size(level - 1) == old(memBlocks[level]) + Size(level)
      ensures memBlocks[..] == old(memBlocks[..])[level := old(ReadHeader(memBlocks[level], outside)).next]
                                                 [level - 1 := upper]
      ensures old(Ready(headers, memBlocks[..], lists, arenas, z)) && (z == 0 || z == old(memBlocks[level])) ==>
                && Ready(headers, memBlocks[..], lists, arenas, upper) && LiveBlocks() == old(LiveBlocks())
                && old(lists)[level] != [] && old(lists)[level][0] == old(memBlocks[level])
                && lists == SplitLists(old(lists), old(memBlocks[level]), upper, level)
    {
      SizeDoubles(level - 1);
      var block1 := memBlocks[level];
      var blockSize := Pow2(level + BASE_LEVEL);
      var block2 := block1 + blockSize / 2;
      ghost var h, heads, listed := headers, memBlocks[..], lists;
      ghost var ok := Ready(headers, memBlocks[..], lists, arenas, z) && (z == 0 || z == block1);
      if ok {
        SplitHeadOk(h, heads, listed, arenas, level, z);
      }
      memBlocks[level] := ReadHeader(block1, outside).next;

      headers := headers[block1 := Header(memBlocks[level - 1], level - 1, true)];
      memBlocks[level - 1] := block1;

      headers := headers[block2 := Header(memBlocks[level - 1], level - 1, true)];
      memBlocks[level - 1] := block2;

      upper := block2;
      if ok {
        lists := SplitLists(lists, block1, block2, level);
        assert headers == SplitStore(h, heads, block1, block2, level);
        assert memBlocks[..] == SplitHeads(h, heads, block1, block2, level);
      }
    }

    /** The state of the split loop at level curr: either nothing has been split so far, or z, the last
        piece of the block that was first on the list of level k, is the first block of this level. */
    ghost predicate Descent(heads: seq<nat>, listed: seq<seq<nat>>, live: map<nat, nat>, ok: bool, k: nat,
                            curr: int, z: nat)
      requires memBlocks.Length == LEVEL_COUNT == |heads| == |listed|
      requires -1 <= curr <= highestLevel < LEVEL_COUNT
      reads this, memBlocks
    {
      && (ok ==> Ready(headers, memBlocks[..], lists, arenas, z) && LiveBlocks() == live)
      && if z == 0 then
           memBlocks[..] == heads && lists == listed && EmptyFrom(heads, curr + 1, highestLevel)
         else
           && 0 <= curr <= k && memBlocks[curr] == z
           && Topmost(heads, highestLevel, k) && z + Size(curr) == heads[k] + Size(k)
           && (ok ==> CarvedTo(listed, lists, highestLevel, k, curr, z))
    }

    /** One split on the way down. */
    method SplitNext(curr: nat, outside: nat -> Header, ghost heads: seq<nat>, ghost listed: seq<seq<nat>>,
                     ghost live: map<nat, nat>, ghost ok: bool, ghost from: nat, ghost z: nat)
        returns (ghost k: nat, ghost upper: nat)
      requires Sized() && |heads| == LEVEL_COUNT == |listed| && MIN_LEVEL < curr <= highestLevel
      requires Descent(heads, listed, live, ok, from, curr, z) && memBlocks[curr] != 0
      modifies this`headers, this`lists, memBlocks
      ensures Sized() && upper > 0 && Descent(heads, listed, live, ok, k, curr - 1, upper)
    {
      k := if z == 0 then curr else from;
      if ok {
        CarveHead(headers, memBlocks[..], listed, lists, highestLevel, k, curr, z);
      }
      upper := SplitHead(curr, outside, z);
    }

    /** The last piece has reached the wanted level. */
    method DeliverLast(target: nat, outside: nat -> Header, ghost heads: seq<nat>, ghost listed: seq<seq<nat>>,
                       ghost live: map<nat, nat>, ghost ok: bool, ghost k: nat, ghost z: nat)
        returns (r: Outcome)
      requires Sized() && |heads| == LEVEL_COUNT == |listed| && MIN_LEVEL <= target <= highestLevel
      requires Descent(heads, listed, live, ok, k, target, z) && z != 0 && heads[target] == 0
      requires ok ==> LevelsUpTo(arenas, highestLevel)
      requires ok ==> forall l :: 0 <= l < LEVEL_COUNT ==> (heads[l] == 0 <==> listed[l] == [])
      modifies this`headers, this`lists, memBlocks
      ensures Sized() && Handed(heads, highestLevel, target, r) && r.Payload?
      ensures ok ==> Valid() && Answers(arenas, live, LiveBlocks(), target, r)
                     && Requeued(listed, lists, highestLevel, target, true)
    {
      LastPiece(heads, highestLevel, target, k, z);
      if ok {
        CarvedOut(listed, lists, highestLevel, k, target, z);
      }
      r := Deliver(target, outside, z);
    }

    /** The split loop of `kmalloc`, which starts at the highest level: it fails exactly when all lists
        from the wanted level up are empty, and then nothing has changed; on a heap in order that
        means that no free span of the wanted level is left anywhere. */
    method SplitDown(target: nat, outside: nat -> Header) returns (r: Outcome)
      requires Sized() && MIN_LEVEL <= target <= highestLevel && memBlocks[target] == 0
      modifies this`headers, this`lists, memBlocks
      ensures Sized() && Handed(old(memBlocks[..]), highestLevel, target, r)
      ensures r.Null? ==> headers == old(headers) && memBlocks[..] == old(memBlocks[..])
      ensures old(Valid()) ==>
                && Valid() && Answers(arenas, old(LiveBlocks()), LiveBlocks(), target, r)
                && Requeued(old(lists), lists, highestLevel, target, r.Payload?)
    {
      var curr: int := highestLevel;
      ghost var z, k, ok := 0, 0, Valid();
      if ok {
        EmptyLists(headers, memBlocks[..], lists, {});
      }
      while curr >= target
        invariant target - 1 <= curr <= highestLevel && Sized()
        invariant Descent(old(memBlocks[..]), old(lists), old(LiveBlocks()), ok, k, curr, z)
        invariant z == 0 ==> headers == old(headers)
        invariant z != 0 ==> target <= curr
      {
        if memBlocks[curr] != 0 {
          if curr == target {
            r := DeliverLast(target, outside, old(memBlocks[..]), old(lists), old(LiveBlocks()), ok, k, z);
            return;
          }
          k, z := SplitNext(curr, outside, old(memBlocks[..]), old(lists), old(LiveBlocks()), ok, k, z);
        }
        curr := curr - 1;
      }
      if ok {
        EmptyListsMeanNoSpan(target);
      }
      return Null;
    }

    /** `kmalloc` after growth: the fast path and the split loop. */
    method Allocate(target: nat, outside: nat -> Header) returns (r: Outcome)
      requires Sized() && MIN_LEVEL <= target <= highestLevel
      modifies this`headers, this`lists, memBlocks
      ensures Sized() && Handed(old(memBlocks[..]), highestLevel, target, r)
      ensures old(memBlocks[target]) != 0 ==>
                memBlocks[..] == old(memBlocks[..])[target := old(ReadHeader(memBlocks[target], outside)).next]
      ensures r.Null? ==> headers == old(headers) && memBlocks[..] == old(memBlocks[..])
      ensures old(Valid()) ==>
                && Valid() && Answers(arenas, old(LiveBlocks()), LiveBlocks(), target, r)
                && Requeued(old(lists), lists, highestLevel, target, r.Payload?)
    {
      if memBlocks[target] != 0 {
        r := Deliver(target, outside, 0);
        assert old(Valid()) ==> ServedFrom(old(lists), highestLevel, target, target);
        return;
      }
      r := SplitDown(target, outside);
    }

    lemma LastPiece(heads: seq<nat>, highest: nat, target: nat, k: nat, z: nat)
      requires target <= highest < |heads| && heads[target] == 0
      requires z != 0 && Topmost(heads, highest, k) && z + Size(target) == heads[k] + Size(k) && target <= k
      ensures Handed(heads, highest, target, Payload(z + META_SIZE))
    {
    }

    lemma BlockLevel(c: nat)
      requires Valid() && c in headers
      ensures headers[c].level <= highestLevel
    {
      var m := Blocks();
      assert Housed(m, arenas, c);
      var s :| s in arenas && Within(c, m[c].level, s.base, s.level);
      LevelBelow(s, c, m[c].level);
    }

    lemma FreeBlockIsListed(c: nat)
      requires Valid() && c in headers && headers[c].isFree && headers[c].level < LEVEL_COUNT
      ensures c in lists[headers[c].level] && memBlocks[headers[c].level] != 0
    {
      var l := headers[c].level;
      assert ListOk(headers, memBlocks[..][l], l, lists[l], {});
    }

    lemma EmptyListsMeanNoSpan(target: nat)
      requires Valid() && target <= highestLevel
      requires forall l :: target <= l <= highestLevel ==> memBlocks[l] == 0
      ensures forall a :: !FreeSpan(arenas, LiveBlocks(), a, target)
    {
      forall a
        ensures !FreeSpan(arenas, LiveBlocks(), a, target)
      {
        if FreeSpan(arenas, LiveBlocks(), a, target) {
          var c := FreeSpanNeedsFreeBlock(Blocks(), arenas, a, target);
          BlockLevel(c);
          FreeBlockIsListed(c);
          assert false;
        }
      }
    }

    /** The size arithmetic of `kmalloc`: for totals up to 2^31 it finds the tightest level. */
    method LevelFor(total: nat) returns (target: nat)
      requires META_SIZE < total <= 0x8000_0000
      ensures target == TargetLevel(total)
    {
      var rounded := RoundPow2Boundary(total);
      Pow2Of32();
      CeilLogBound(total, 31);
      HeaderNeedsLevelTwo(total);
      LogbOfPow2(rounded, CeilLog(total));
      target := Logb(rounded) - BASE_LEVEL;
    }

    /** The rest of `kmalloc` after growth.  A request that needs the largest level, which has a free
        block, gets that block. */
    method AllocateTotal(total: nat, outside: nat -> Header) returns (r: Outcome)
      requires Sized() && META_SIZE < total <= 0x8000_0000 && total <= highestBlockSize
      modifies this`headers, this`lists, memBlocks
      ensures Sized() && TargetLevel(total) <= highestLevel
      ensures Handed(old(memBlocks[..]), highestLevel, TargetLevel(total), r)
      ensures Size(highestLevel - 1) < total && old(memBlocks[highestLevel]) != 0 ==>
                && r == Payload(old(memBlocks[highestLevel]) + META_SIZE)
                && memBlocks[..] == old(memBlocks[..])
                                    [highestLevel := old(ReadHeader(memBlocks[highestLevel], outside)).next]
      ensures r.Null? ==> headers == old(headers) && memBlocks[..] == old(memBlocks[..])
      ensures old(Valid()) ==>
                && Valid() && Answers(arenas, old(LiveBlocks()), LiveBlocks(), TargetLevel(total), r)
                && Requeued(old(lists), lists, highestLevel, TargetLevel(total), r.Payload?)
    {
      var target := LevelFor(total);
      TargetLevelIsTight(total, highestLevel);
      TargetLevelIsTight(total, highestLevel - 1);
      r := Allocate(target, outside);
    }

    lemma NoArenaHolds(total: nat)
      requires META_SIZE < total && TooSmall(arenas, total)
      ensures forall a :: !FreeSpan(arenas, LiveBlocks(), a, TargetLevel(total))
    {
      TargetLevelIsTight(total, 0);
    }

    /** What `Grow` and the rest of `kmalloc` do to the list heads and return, on a heap of any state
        and whatever the page requests return. */
    ghost predicate Served(heads: seq<nat>, low: nat, grant: nat -> nat, total: nat, r: Outcome)
      requires |heads| == LEVEL_COUNT && highestLevel < LEVEL_COUNT && META_SIZE < total
      reads this, memBlocks
    {
      && low <= highestLevel && (total <= Size(low) ==> highestLevel == low)
      && (r.OutOfRange? <==> 0x8000_0000 < total <= Size(highestLevel)
                             && (highestLevel == low || grant(highestLevel) != 0))
      && (total > Size(highestLevel) ==>
            r.Null? && (highestLevel == LEVEL_COUNT - 1 || (highestLevel > low && grant(highestLevel) == 0)))
      && (highestLevel > low && grant(highestLevel) == 0 ==> r.Null?)
      && (total <= 0x8000_0000 && total <= Size(highestLevel) && (highestLevel == low || grant(highestLevel) != 0) ==>
            && TargetLevel(total) <= highestLevel
            && Handed(GrownHeads(heads, grant, low, highestLevel), highestLevel, TargetLevel(total), r))
      && (highestLevel > low && r.Payload? ==>
            && r.addr == grant(highestLevel) + META_SIZE && Size(highestLevel - 1) < total
            && memBlocks[..] == GrownHeads(heads, grant, low, highestLevel)[highestLevel := 0])
    }

    /** `kmalloc` for a request with its header. */
    method Serve(total: nat, grant: nat -> nat, outside: nat -> Header) returns (r: Outcome)
      requires Sized() && META_SIZE < total
      modifies this, memBlocks
      ensures Sized() && Served(old(memBlocks[..]), old(highestLevel), grant, total, r)
      ensures arenas == Granted(old(arenas), grant, old(highestLevel), highestLevel)
      ensures r.Null? && total <= old(highestBlockSize) ==>
                headers == old(headers) && memBlocks[..] == old(memBlocks[..])
      ensures old(Valid()) && (total > old(highestBlockSize) ==>
                                 GrantsOk(old(arenas), old(highestLevel), grant)) ==>
                && Valid() && (!r.Payload? ==> LiveBlocks() == old(LiveBlocks()))
                && (total <= 0x8000_0000 ==>
                      Answers(arenas, old(LiveBlocks()), LiveBlocks(), TargetLevel(total), r))
                && Requeued(GrownLists(old(lists), grant, old(highestLevel), highestLevel), lists, highestLevel,
                            TargetLevel(total), r.Payload?)
    {
      var fits := Grow(total, grant);
      if !fits {
        if TooSmall(arenas, total) {
          NoArenaHolds(total);
        }
        r := Null;
      } else if total > 0x8000_0000 {
        r := OutOfRange;
      } else {
        r := AllocateTotal(total, outside);
      }
    }

    /** `kmalloc`.  `grant` answers the page requests of the growth loop, and `outside` is what is found
        where the heap keeps no header. */
    method Kmalloc(bytes: nat, grant: nat -> nat, outside: nat -> Header) returns (r: Outcome)
      requires Sized() && bytes < U64
      modifies this, memBlocks
      // on a heap of any state, and whatever the page requests return
      ensures Sized() && old(highestLevel) <= highestLevel
      ensures arenas == Granted(old(arenas), grant, old(highestLevel), highestLevel)
      ensures bytes == 0 ==> r == Null && highestLevel == old(highestLevel)
      ensures bytes + META_SIZE >= U64 ==> r == OutOfRange && highestLevel == old(highestLevel)
      ensures 0 < bytes && bytes + META_SIZE < U64 ==>
                Served(old(memBlocks[..]), old(highestLevel), grant, bytes + META_SIZE, r)
      ensures r.Payload? ==> 0 < bytes && bytes + META_SIZE <= 0x8000_0000
      ensures r.Null? && bytes + META_SIZE <= old(highestBlockSize) ==>
                headers == old(headers) && memBlocks[..] == old(memBlocks[..])
      // on a heap in order, if they return new arenas
      ensures old(Valid()) && (bytes + META_SIZE > old(highestBlockSize) ==>
                                 GrantsOk(old(arenas), old(highestLevel), grant)) ==>
                && Valid() && (!r.Payload? ==> LiveBlocks() == old(LiveBlocks()))
                && (0 < bytes && bytes + META_SIZE <= 0x8000_0000 ==>
                      Answers(arenas, old(LiveBlocks()), LiveBlocks(), TargetLevel(bytes + META_SIZE), r))
                && (bytes == 0 ==> lists == old(lists))
                && (0 < bytes ==>
                      Requeued(GrownLists(old(lists), grant, old(highestLevel), highestLevel), lists, highestLevel,
                               TargetLevel(bytes + META_SIZE), r.Payload?))
    {
      if bytes == 0 {
        return Null;
      }
      if bytes + META_SIZE >= U64 {
        return OutOfRange;
      }
      r := Serve(bytes + META_SIZE, grant, outside);
    }

    // ----- kfree

    /** The walk of `kfree` along a list, to the predecessor of a block that is not its head. */
    method FindPredecessor(block: nat, level: nat, ghost s: seq<nat>) returns (prev: nat, ghost i: nat)
      requires memBlocks.Length == LEVEL_COUNT && level < LEVEL_COUNT
      requires Linked(headers, memBlocks[level], s) && block in s && memBlocks[level] != block && 0 !in headers
      ensures i + 1 < |s| && prev == s[i] && s[i + 1] == block && prev in headers && prev != 0
    {
      i := 0;
      prev := memBlocks[level];
      while prev != 0 && headers[prev].next != block
        invariant i < |s| && prev == s[i] && block !in s[..i + 1]
        decreases |s| - i
      {
        assert headers[s[i]].next == After(s, i);
        assert s[..i + 2] == s[..i + 1] + [s[i + 1]];
        prev := headers[prev].next;
        i := i + 1;
      }
      assert headers[s[i]].next == After(s, i);
    }

    /** The step of `kfree` that takes a block out of the list of its level. */
    method RemoveFromFreeList(block: nat, level: nat, ghost except: set<nat>) returns (ghost i: nat)
      requires memBlocks.Length == LEVEL_COUNT && level < LEVEL_COUNT
      requires ListsOk(headers, memBlocks[..], lists, except)
      requires block in headers && block !in except
      requires headers[block].isFree && headers[block].level == level
      modifies this`headers, this`lists, memBlocks
      ensures ListsOk(headers, memBlocks[..], lists, except + {block})
      ensures Blocks() == old(Blocks())
      ensures i < |old(lists)[level]| && old(lists)[level][i] == block
      ensures lists == old(lists)[level := old(lists)[level][..i] + old(lists)[level][i + 1..]]
    {
      ghost var s, h, heads := lists[level], headers, memBlocks[..];
      assert ListOk(h, heads[level], level, s, except);
      if memBlocks[level] == block {
        i := 0;
        CutHead(h, heads, lists, level, except);
        memBlocks[level] := headers[block].next;
        assert memBlocks[..] == heads[level := h[block].next];
      } else {
        var prev;
        prev, i := FindPredecessor(block, level, s);
        i := i + 1;
        UnlinkLater(h, heads, lists, level, i, except);
        RelinkKeepsBlocks(h, prev, h[block].next);
        if prev != 0 {
          headers := headers[prev := headers[prev].(next := headers[block].next)];
        }
      }
      lists := lists[level := s[..i] + s[i + 1..]];
    }

    /** What `kfree` reads at the buddy address is decided by the current blocks alone: below the
        top of an arena it is the header of a current block, and at the top there is no buddy. */
    lemma BuddyRead(block: nat, outside: nat -> Header) returns (s: Span)
      requires Tiled(Blocks(), arenas) && OutsideOk(arenas, highestLevel, outside)
      requires block in headers && headers[block].isFree
      requires forall t :: t in arenas ==> t.level <= highestLevel
      ensures s in arenas && Within(block, headers[block].level, s.base, s.level)
      ensures headers[block].level <= s.level
      ensures Xor(block, Size(headers[block].level)) == BuddyOf(block, headers[block].level)
      ensures headers[block].level < s.level ==> BuddyOf(block, headers[block].level) in headers
      ensures headers[block].level == s.level ==> !FreePair(Blocks(), block)
      ensures headers[block].level < highestLevel ==>
                var h := ReadHeader(BuddyOf(block, headers[block].level), outside);
                (h.isFree && h.level == headers[block].level <==> FreePair(Blocks(), block))
    {
      var m, l := Blocks(), headers[block].level;
      assert Housed(m, arenas, block);
      s :| s in arenas && Within(block, l, s.base, s.level);
      LevelBelow(s, block, l);
      XorFindsBuddy(block, l);
      if l < s.level {
        BuddyIsBlock(m, arenas, s, block);
      } else {
        BuddyOfArena(m, arenas, s);
      }
    }

    /** One round of the merge loop of `kfree`: the buddy leaves its list, and the lower one of the
        two takes over the memory of both. */
    method MergeWithBuddy(block: nat, buddy: nat, ghost s: Span) returns (merged: nat)
      requires memBlocks.Length == LEVEL_COUNT
      requires Merging(headers, memBlocks[..], lists, arenas, block)
      requires s in arenas && Within(block, headers[block].level, s.base, s.level)
      requires headers[block].level < s.level < LEVEL_COUNT
      requires buddy == BuddyOf(block, headers[block].level) && FreePair(Blocks(), block)
      modifies this`headers, this`lists, memBlocks
      ensures Merging(headers, memBlocks[..], lists, arenas, merged)
      ensures headers[merged].level == old(headers[block].level) + 1
      ensures merged == ParentOf(block, old(headers[block].level))
      ensures LiveBlocks() == old(LiveBlocks())
      ensures Cleared(old(lists), lists, buddy, old(headers[block].level))
    {
      BuddyFacts(block, headers[block].level);
      ghost var i := RemoveFromFreeList(buddy, headers[block].level, {block});
      CutClears(old(headers), old(memBlocks[..]), old(lists), {block}, buddy, i);
      assert {block} + {buddy} == {block, buddy};
      MergeRound(old(headers), headers, memBlocks[..], lists, arenas, block, s);
      headers := MergedStore(headers, block, buddy);
      merged := if buddy < block then buddy else block;
    }

    /** The last step of `kfree`: the merged block goes to the front of its list. */
    method InsertFreed(block: nat)
      requires memBlocks.Length == LEVEL_COUNT
      requires Merging(headers, memBlocks[..], lists, arenas, block)
      requires headers[block].level < LEVEL_COUNT && !FreePair(Blocks(), block)
      modifies this`headers, this`lists, memBlocks
      ensures Ready(headers, memBlocks[..], lists, arenas, 0)
      ensures LiveBlocks() == old(LiveBlocks())
      ensures var l := old(headers[block].level);
              && lists == old(lists)[l := [block] + old(lists)[l]]
              && block in Blocks() && Blocks()[block] == Block(l, true)
    {
      StopMerging(headers, memBlocks[..], lists, arenas, block);
      var level := headers[block].level;
      headers := headers[block := headers[block].(next := memBlocks[level])];
      memBlocks[level] := block;
      lists := lists[level := [block] + lists[level]];
      assert memBlocks[..] == old(memBlocks[..])[level := block];
    }

    /** The merge loop of `kfree`. */
    method MergeUpwards(freed: nat, outside: nat -> Header) returns (block: nat)
      requires memBlocks.Length == LEVEL_COUNT && OutsideOk(arenas, highestLevel, outside)
      requires highestLevel < LEVEL_COUNT && forall s :: s in arenas ==> s.level <= highestLevel
      requires Merging(headers, memBlocks[..], lists, arenas, freed)
      modifies this`headers, this`lists, memBlocks
      ensures Merging(headers, memBlocks[..], lists, arenas, block)
      ensures headers[block].level <= highestLevel && !FreePair(Blocks(), block)
      ensures LiveBlocks() == old(LiveBlocks())
      ensures Absorbed(old(lists), lists, freed, old(headers[freed].level), block, headers[block].level)
    {
      block := freed;
      NothingInside(headers, memBlocks[..], lists, {block}, block);
      while headers[block].level < highestLevel
        invariant Merging(headers, memBlocks[..], lists, arenas, block)
        invariant LiveBlocks() == old(LiveBlocks())
        invariant Absorbed(old(lists), lists, freed, old(headers[freed].level), block, headers[block].level)
        decreases highestLevel - headers[block].level
      {
        var blockSize := Pow2(headers[block].level + BASE_LEVEL);
        var buddy := Xor(block, blockSize);
        ghost var s := BuddyRead(block, outside);
        var found := ReadHeader(buddy, outside);
        if !(found.isFree && found.level == headers[block].level) {
          return;
        }
        ghost var before, part, level := lists, block, headers[block].level;
        block := MergeWithBuddy(block, buddy, s);
        AbsorbBuddy(old(lists), before, lists, freed, old(headers[freed].level), part, level);
      }
      ghost var s := BuddyRead(block, outside);
    }

    /** `kfree`.  `outside` is what is found where the heap keeps no header. */
    method Kfree(mem: nat, outside: nat -> Header)
      requires Valid() && OutsideOk(arenas, highestLevel, outside)
      requires mem != 0 ==> mem > META_SIZE && mem - META_SIZE in LiveBlocks()
      modifies this`headers, this`lists, memBlocks
      ensures Valid()
      ensures LiveBlocks() == if mem == 0 then old(LiveBlocks()) else old(LiveBlocks()) - {mem - META_SIZE}
      ensures mem == 0 ==> headers == old(headers) && memBlocks[..] == old(memBlocks[..])
                           && lists == old(lists)
      ensures mem != 0 ==>
                Freed(arenas, LiveBlocks(), mem - META_SIZE, old(LiveBlocks())[mem - META_SIZE], old(lists), lists)
    {
      if mem == 0 {
        return;
      }
      var block: nat := mem - META_SIZE;
      StartMerging(headers, memBlocks[..], lists, arenas, block);
      headers := headers[block := headers[block].(isFree := true)];
      block := MergeUpwards(block, outside);
      ghost var level := headers[block].level;
      InsertFreed(block);
      CanonicalForm(Blocks(), arenas, block, level);
    }
  }
}
