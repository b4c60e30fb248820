/** The theory of a buddy heap: aligned spans of memory, tilings of arenas by blocks, and the
    canonical form that eager coalescing maintains.  Nothing here depends on how src/mem/mem.c
    stores its blocks; module Heap connects the two. */
module Buddy {
  import opened BitMath

  /** A span of 2^(level + 3) bytes. */
  datatype Span = Span(base: nat, level: nat)

  /** What a block header says about the block, apart from the free-list link. */
  datatype Block = Block(level: nat, isFree: bool)

  type Tiling = map<nat, Block>

  const BASE_LEVEL: nat := 3

  /** A header takes 16 bytes, so no block can be smaller than 32 bytes. */
  const MIN_LEVEL: nat := 2

  function Size(level: nat): (s: nat)
    ensures s > 0
  {
    Pow2(level + BASE_LEVEL)
  }

  predicate Aligned(a: nat, level: nat) {
    LowZeros(a, level + BASE_LEVEL)
  }

  lemma AlignedIsMultiple(a: nat, l: nat)
    ensures Aligned(a, l) <==> a % Size(l) == 0
  {
    LowZerosIsMultiple(a, l + BASE_LEVEL);
  }

  predicate Within(a: nat, l: nat, b: nat, k: nat) {
    b <= a && a + Size(l) <= b + Size(k)
  }

  predicate Apart(a: nat, l: nat, b: nat, k: nat) {
    a + Size(l) <= b || b + Size(k) <= a
  }

  lemma SizeDoubles(l: nat)
    ensures Size(l + 1) == 2 * Size(l)
  {
  }

  lemma SizeMonotone(l: nat, k: nat)
    requires l <= k
    ensures Size(l) <= Size(k)
    ensures l < k ==> 2 * Size(l) <= Size(k)
  {
    Pow2Monotone(l + BASE_LEVEL, k + BASE_LEVEL);
  }

  /** Aligned spans are nested or disjoint. */
  lemma Nested(a: nat, l: nat, b: nat, k: nat)
    requires Aligned(a, l) && Aligned(b, k) && l <= k
    ensures Within(a, l, b, k) || Apart(a, l, b, k)
  {
    var d, e := Size(l), Size(k);
    AlignedIsMultiple(a, l);
    AlignedIsMultiple(b, k);
    Pow2Divides(b, l + BASE_LEVEL, k + BASE_LEVEL);
    DivModUnique(e, e, 1, 0);
    Pow2Divides(e, l + BASE_LEVEL, k + BASE_LEVEL);
    MultiplesClosed(b, e, d);
    if a < b {
      MultiplesApart(a, b, d);
    } else if a < b + e {
      MultiplesApart(a, b + e, d);
    }
  }

  // ----- buddies

  /** The other half of the level l + 1 span that an aligned level l span belongs to. */
  function BuddyOf(a: nat, l: nat): nat {
    if Aligned(a, l + 1) then a + Size(l) else if a >= Size(l) then a - Size(l) else 0
  }

  function ParentOf(a: nat, l: nat): nat {
    if Aligned(a, l + 1) then a else if a >= Size(l) then a - Size(l) else 0
  }

  /** Clearing or setting digit n above n zeros. */
  lemma {:induction false} LowZerosStep(a: nat, n: nat)
    requires LowZeros(a, n)
    ensures LowZeros(a, n + 1) <==> LowZeros(a + Pow2(n), n) && !LowZeros(a + Pow2(n), n + 1)
    ensures LowZeros(a, n + 1) || (a >= Pow2(n) && LowZeros(a - Pow2(n), n + 1))
  {
    if n > 0 {
      LowZerosStep(a / 2, n - 1);
      assert (a + Pow2(n)) / 2 == a / 2 + Pow2(n - 1);
      assert (a + Pow2(n)) % 2 == 0;
    }
  }

  lemma HalvesOfAligned(p: nat, l: nat)
    requires Aligned(p, l + 1)
    ensures Aligned(p, l) && Aligned(p + Size(l), l) && !Aligned(p + Size(l), l + 1)
  {
    LowZerosFewer(p, l + BASE_LEVEL);
    LowZerosStep(p, l + BASE_LEVEL);
  }

  lemma {:induction false} LowZerosFewer(a: nat, n: nat)
    requires LowZeros(a, n + 1)
    ensures LowZeros(a, n)
  {
    if n > 0 {
      LowZerosFewer(a / 2, n - 1);
    }
  }

  lemma BuddyFacts(a: nat, l: nat)
    requires Aligned(a, l)
    ensures var b, p := BuddyOf(a, l), ParentOf(a, l);
            && Aligned(b, l) && Aligned(p, l + 1) && Aligned(p, l)
            && BuddyOf(b, l) == a && ParentOf(b, l) == p
            && ((a == p && b == p + Size(l)) || (b == p && a == p + Size(l)))
            && Size(l + 1) == 2 * Size(l)
  {
    LowZerosStep(a, l + BASE_LEVEL);
    HalvesOfAligned(ParentOf(a, l), l);
  }

  lemma {:induction false} LowZerosDigit(a: nat, n: nat)
    requires LowZeros(a, n)
    ensures LowZeros(a, n + 1) <==> Shr(a, n) % 2 == 0
  {
    if n > 0 {
      LowZerosDigit(a / 2, n - 1);
    }
  }

  /** The buddy is found by flipping one bit of the address. */
  lemma XorFindsBuddy(a: nat, l: nat)
    requires Aligned(a, l)
    ensures Xor(a, Size(l)) == BuddyOf(a, l)
  {
    LowZerosDigit(a, l + BASE_LEVEL);
    XorFlipsOneBit(a, l + BASE_LEVEL);
  }

  lemma NextAligned(a: nat, l: nat)
    requires Aligned(a, l)
    ensures Aligned(a + Size(l), l)
  {
    AlignedIsMultiple(a, l);
    DivModUnique(Size(l), Size(l), 1, 0);
    MultiplesClosed(a, Size(l), Size(l));
    AlignedIsMultiple(a + Size(l), l);
  }

  /** The two halves of a page-aligned arena are each other's XOR buddies exactly when the arena
      is aligned to its own size; page alignment alone is not enough. */
  lemma HalvesAreBuddiesIffAligned(base: nat, l: nat)
    requires Aligned(base, l)
    ensures Xor(base, Size(l)) == base + Size(l) <==> Aligned(base, l + 1)
    ensures Xor(base + Size(l), Size(l)) == base <==> Aligned(base, l + 1)
  {
    XorFindsBuddy(base, l);
    BuddyFacts(base, l);
    NextAligned(base, l);
    XorFindsBuddy(base + Size(l), l);
    BuddyFacts(base + Size(l), l);
  }

  // ----- tilings

  ghost predicate InArena(arenas: set<Span>, a: nat, l: nat) {
    exists s :: s in arenas && Within(a, l, s.base, s.level)
  }

  ghost predicate ArenasApart(s: Span, t: Span) {
    s != t ==> s.level != t.level && Apart(s.base, s.level, t.base, t.level)
  }

  // The triggers of the following quantifiers keep the verifier from unfolding them along chains
  // of arenas, blocks and buddies.

  /** Arenas are aligned to their own size and pairwise disjoint, and no two have one size. */
  ghost predicate ArenasOk(arenas: set<Span>) {
    && (forall s :: s in arenas ==> s.base > 0 && s.level >= MIN_LEVEL && Aligned(s.base, s.level))
    && (forall s, t {:trigger ArenasApart(s, t)} :: s in arenas && t in arenas ==> ArenasApart(s, t))
  }

  ghost predicate Housed(m: Tiling, arenas: set<Span>, a: nat) {
    a in m && InArena(arenas, a, m[a].level)
  }

  ghost predicate BlocksOk(m: Tiling, arenas: set<Span>) {
    && (forall a :: a in m ==> a > 0 && m[a].level >= MIN_LEVEL && Aligned(a, m[a].level))
    && (forall a {:trigger Housed(m, arenas, a)} :: a in m ==> Housed(m, arenas, a))
  }

  ghost predicate Separate(m: Tiling, a: nat, c: nat) {
    a in m && c in m && a != c ==> Apart(a, m[a].level, c, m[c].level)
  }

  ghost predicate NoOverlap(m: Tiling) {
    forall a, c {:trigger Separate(m, a, c)} :: Separate(m, a, c)
  }

  /** Where the block at a ends. */
  function EndOf(m: Tiling, a: nat): nat
    requires a in m
  {
    a + Size(m[a].level)
  }

  /** Every arena starts with a block, and where a block ends the next one starts. */
  ghost predicate NoGap(m: Tiling, arenas: set<Span>) {
    && (forall s :: s in arenas ==> s.base in m)
    && (forall a, s {:trigger EndOf(m, a), s in arenas} ::
          (a in m && s in arenas && s.base <= a && EndOf(m, a) < s.base + Size(s.level))
          ==> EndOf(m, a) in m)
  }

  /** The blocks tile the arenas with neither gap nor overlap. */
  ghost predicate Tiled(m: Tiling, arenas: set<Span>) {
    ArenasOk(arenas) && BlocksOk(m, arenas) && NoOverlap(m) && NoGap(m, arenas)
  }

  ghost predicate FreePair(m: Tiling, a: nat) {
    a in m && m[a].isFree
    && BuddyOf(a, m[a].level) in m && m[BuddyOf(a, m[a].level)] == m[a]
  }

  /** No two free blocks are buddies, except possibly for a pair with a block of `except`. */
  ghost predicate Coalesced(m: Tiling, except: set<nat>) {
    forall a {:trigger FreePair(m, a)} ::
      a !in except && FreePair(m, a) ==> BuddyOf(a, m[a].level) in except
  }

  lemma NoFreePair(m: Tiling, a: nat)
    requires Coalesced(m, {})
    ensures !FreePair(m, a)
  {
  }

  lemma NoOtherPair(m: Tiling, except: set<nat>, a: nat)
    requires Coalesced(m, except) && a in m
    requires a !in except && BuddyOf(a, m[a].level) !in except
    ensures !FreePair(m, a)
  {
  }

  /** The live blocks and their levels. */
  function Live(m: Tiling): map<nat, nat> {
    map a | a in m && !m[a].isFree :: m[a].level
  }

  /** Every byte of an arena lies in a block. */
  lemma {:induction false} OwnerFrom(m: Tiling, arenas: set<Span>, s: Span, x: nat, from: nat)
      returns (c: nat)
    requires Tiled(m, arenas) && s in arenas
    requires from in m && s.base <= from <= x < s.base + Size(s.level)
    ensures c in m && s.base <= c <= x < c + Size(m[c].level)
    decreases x - from
  {
    if x < EndOf(m, from) {
      c := from;
    } else {
      c := OwnerFrom(m, arenas, s, x, EndOf(m, from));
    }
  }

  lemma Owner(m: Tiling, arenas: set<Span>, s: Span, x: nat) returns (c: nat)
    requires Tiled(m, arenas) && s in arenas
    requires s.base <= x < s.base + Size(s.level)
    ensures c in m && s.base <= c <= x < c + Size(m[c].level)
  {
    c := OwnerFrom(m, arenas, s, x, s.base);
  }

  /** The block that holds the first byte of an aligned span either starts there too and is no
      larger, or contains the whole span. */
  lemma OwnerShape(m: Tiling, arenas: set<Span>, s: Span, a: nat, l: nat) returns (c: nat)
    requires Tiled(m, arenas) && s in arenas
    requires Aligned(a, l) && Within(a, l, s.base, s.level)
    ensures c in m
    ensures (c == a && m[c].level <= l) || (m[c].level > l && Within(a, l, c, m[c].level))
  {
    c := Owner(m, arenas, s, a);
    if m[c].level <= l {
      Nested(c, m[c].level, a, l);
    } else {
      Nested(a, l, c, m[c].level);
    }
  }

  /** An aligned span that is smaller than the arena it lies in has its parent in that arena. */
  lemma ParentWithin(a: nat, l: nat, s: Span)
    requires Aligned(a, l) && Aligned(s.base, s.level)
    requires Within(a, l, s.base, s.level) && l < s.level
    ensures Within(ParentOf(a, l), l + 1, s.base, s.level)
    ensures Within(BuddyOf(a, l), l, s.base, s.level)
  {
    BuddyFacts(a, l);
    Nested(ParentOf(a, l), l + 1, s.base, s.level);
  }

  /** Merging never reads a stale header: the buddy of a block below the top level of its arena is
      the start of a current block, and that block is no larger. */
  lemma BuddyIsBlock(m: Tiling, arenas: set<Span>, s: Span, a: nat)
    requires Tiled(m, arenas) && s in arenas
    requires a in m && Within(a, m[a].level, s.base, s.level) && m[a].level < s.level
    ensures BuddyOf(a, m[a].level) in m
    ensures m[BuddyOf(a, m[a].level)].level <= m[a].level
  {
    var l := m[a].level;
    var b, p := BuddyOf(a, l), ParentOf(a, l);
    BuddyFacts(a, l);
    ParentWithin(a, l, s);
    var c := OwnerShape(m, arenas, s, b, l);
    assert Separate(m, a, c);
    if c != b || m[c].level > l {
      Nested(p, l + 1, c, m[c].level);
      assert false;
    }
  }

  /** Outside its arena, the buddy address of a block that fills an arena starts no block of the
      same or of a higher level. */
  lemma BuddyOfArena(m: Tiling, arenas: set<Span>, s: Span)
    requires Tiled(m, arenas) && s in arenas
    ensures BuddyOf(s.base, s.level) in m ==> m[BuddyOf(s.base, s.level)].level < s.level
  {
    var b, p, l := BuddyOf(s.base, s.level), ParentOf(s.base, s.level), s.level;
    BuddyFacts(s.base, l);
    if b in m && m[b].level >= l {
      var k := m[b].level;
      assert Housed(m, arenas, b);
      var t :| t in arenas && Within(b, k, t.base, t.level);
      SizeMonotone(l, k);
      assert ArenasApart(s, t);
      if t.level < l {
        SizeMonotone(t.level, l);
      } else {
        Nested(p, l + 1, t.base, t.level);
      }
      assert false;
    }
  }

  // ----- the canonical form

  /** An aligned span of an arena that no live block touches. */
  ghost predicate FreeSpan(arenas: set<Span>, live: map<nat, nat>, a: nat, l: nat) {
    && Aligned(a, l) && InArena(arenas, a, l)
    && forall c :: c in live ==> Apart(a, l, c, live[c])
  }

  /** A free span that is not half of a larger one: a member of the decomposition of the free
      bytes into the largest possible aligned power-of-two spans. */
  ghost predicate MaximalFree(arenas: set<Span>, live: map<nat, nat>, a: nat, l: nat) {
    FreeSpan(arenas, live, a, l) && !FreeSpan(arenas, live, ParentOf(a, l), l + 1)
  }

  /** A free span that starts with a block no larger than itself is a single block. */
  lemma {:induction false} FreeSpanIsOneBlock(m: Tiling, arenas: set<Span>, a: nat, l: nat)
    requires Tiled(m, arenas) && Coalesced(m, {})
    requires FreeSpan(arenas, Live(m), a, l) && a in m && m[a].level <= l
    ensures m[a] == Block(l, true)
    decreases l
  {
    assert a in Live(m) ==> Apart(a, l, a, Live(m)[a]);
    NoFreePair(m, a);
    if m[a].level < l {
      var s :| s in arenas && Within(a, l, s.base, s.level);
      var h := l - 1;
      SizeDoubles(h);
      HalvesOfAligned(a, h);
      var r := a + Size(h);
      assert Within(a, h, s.base, s.level) && Within(r, h, s.base, s.level);
      assert FreeSpan(arenas, Live(m), a, h);
      FreeSpanIsOneBlock(m, arenas, a, h);
      LevelBelow(s, a, l);
      BuddyIsBlock(m, arenas, s, a);
      assert BuddyOf(a, h) == r;
      assert FreeSpan(arenas, Live(m), r, h);
      FreeSpanIsOneBlock(m, arenas, r, h);
      assert false;
    }
  }

  lemma LevelBelow(s: Span, a: nat, l: nat)
    requires Within(a, l, s.base, s.level)
    ensures l <= s.level
  {
    if s.level < l {
      SizeMonotone(s.level, l);
    }
  }

  /** Where there is a free span of some level, there is a free block of at least that level. */
  lemma FreeSpanNeedsFreeBlock(m: Tiling, arenas: set<Span>, a: nat, l: nat) returns (c: nat)
    requires Tiled(m, arenas) && Coalesced(m, {}) && FreeSpan(arenas, Live(m), a, l)
    ensures c in m && m[c].isFree && m[c].level >= l && Within(a, l, c, m[c].level)
  {
    var s :| s in arenas && Within(a, l, s.base, s.level);
    c := OwnerShape(m, arenas, s, a, l);
    assert c in Live(m) ==> Apart(a, l, c, Live(m)[c]);
    if c == a && m[c].level <= l {
      FreeSpanIsOneBlock(m, arenas, a, l);
    }
  }

  lemma FreeBlockIsFreeSpan(m: Tiling, arenas: set<Span>, a: nat)
    requires Tiled(m, arenas) && a in m && m[a].isFree
    ensures FreeSpan(arenas, Live(m), a, m[a].level)
  {
    assert Housed(m, arenas, a);
    forall c | c in Live(m)
      ensures Apart(a, m[a].level, c, Live(m)[c])
    {
      assert Separate(m, a, c);
    }
  }

  /** CANONICAL FORM.  In a coalesced tiling the free blocks are exactly the maximal free spans of
      the bytes that are not in live blocks. */
  lemma CanonicalForm(m: Tiling, arenas: set<Span>, a: nat, l: nat)
    requires Tiled(m, arenas) && Coalesced(m, {})
    ensures (a in m && m[a] == Block(l, true)) <==> MaximalFree(arenas, Live(m), a, l)
  {
    if a in m && m[a] == Block(l, true) {
      FreeBlockIsMaximal(m, arenas, a);
    }
    if MaximalFree(arenas, Live(m), a, l) {
      var c := FreeSpanNeedsFreeBlock(m, arenas, a, l);
      var k := m[c].level;
      FreeBlockIsFreeSpan(m, arenas, c);
      if k > l {
        ParentIsFreeSpan(arenas, Live(m), a, l, c, k);
        assert false;
      }
    }
  }

  lemma PartOfFreeSpan(arenas: set<Span>, live: map<nat, nat>, a: nat, l: nat, b: nat, k: nat)
    requires FreeSpan(arenas, live, a, l) && Aligned(b, k) && Within(b, k, a, l)
    ensures FreeSpan(arenas, live, b, k)
  {
    var s :| s in arenas && Within(a, l, s.base, s.level);
    assert Within(b, k, s.base, s.level);
  }

  /** Inside a larger free span the parent of an aligned span is free as well. */
  lemma ParentIsFreeSpan(arenas: set<Span>, live: map<nat, nat>, a: nat, l: nat, c: nat, k: nat)
    requires FreeSpan(arenas, live, c, k) && Aligned(a, l) && Within(a, l, c, k) && l < k
    ensures FreeSpan(arenas, live, ParentOf(a, l), l + 1)
  {
    BuddyFacts(a, l);
    Nested(ParentOf(a, l), l + 1, c, k);
    PartOfFreeSpan(arenas, live, c, k, ParentOf(a, l), l + 1);
  }

  lemma FreeBlockIsMaximal(m: Tiling, arenas: set<Span>, a: nat)
    requires Tiled(m, arenas) && Coalesced(m, {}) && a in m && m[a].isFree
    ensures MaximalFree(arenas, Live(m), a, m[a].level)
  {
    var l := m[a].level;
    var b, p := BuddyOf(a, l), ParentOf(a, l);
    FreeBlockIsFreeSpan(m, arenas, a);
    BuddyFacts(a, l);
    NoFreePair(m, a);
    if FreeSpan(arenas, Live(m), p, l + 1) {
      var s :| s in arenas && Within(p, l + 1, s.base, s.level);
      LevelBelow(s, p, l + 1);
      BuddyIsBlock(m, arenas, s, a);
      PartOfFreeSpan(arenas, Live(m), p, l + 1, b, l);
      FreeSpanIsOneBlock(m, arenas, b, l);
      assert false;
    }
  }

  /** A coalesced tiling is a function of its live blocks: whatever order of calls led to it, two
      states with the same live blocks have the same blocks. */
  lemma LiveBlocksDetermineTiling(m: Tiling, m': Tiling, arenas: set<Span>)
    requires Tiled(m, arenas) && Coalesced(m, {})
    requires Tiled(m', arenas) && Coalesced(m', {})
    requires Live(m) == Live(m')
    ensures m == m'
  {
    forall a | a in m || a in m'
      ensures a in m && a in m' && m[a] == m'[a]
    {
      SameBlock(m, m', arenas, a);
      SameBlock(m', m, arenas, a);
    }
  }

  lemma SameBlock(m: Tiling, m': Tiling, arenas: set<Span>, a: nat)
    requires Tiled(m, arenas) && Coalesced(m, {})
    requires Tiled(m', arenas) && Coalesced(m', {})
    requires Live(m) == Live(m')
    ensures a in m ==> a in m' && m[a] == m'[a]
  {
    if a in m {
      if m[a].isFree {
        CanonicalForm(m, arenas, a, m[a].level);
        CanonicalForm(m', arenas, a, m[a].level);
      } else {
        assert a in Live(m) && Live(m)[a] == m[a].level;
        assert a in Live(m') && Live(m')[a] == m'[a].level;
      }
    }
  }

  /** With no live block left, every arena is one free block again. */
  lemma NothingLive(m: Tiling, arenas: set<Span>, s: Span)
    requires Tiled(m, arenas) && Coalesced(m, {}) && Live(m) == map[] && s in arenas
    ensures s.base in m && m[s.base] == Block(s.level, true)
  {
    assert Within(s.base, s.level, s.base, s.level);
    assert Housed(m, arenas, s.base);
    var t :| t in arenas && Within(s.base, m[s.base].level, t.base, t.level);
    LevelBelow(t, s.base, m[s.base].level);
    assert ArenasApart(s, t);
    FreeSpanIsOneBlock(m, arenas, s.base, s.level);
  }
}
