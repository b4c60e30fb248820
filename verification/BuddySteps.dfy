/** What the elementary steps of the buddy heap do to a tiling: splitting a free block, merging two
    free buddies, changing the state of a block, and adding an arena. */
module BuddySteps {
  import opened Buddy

  // ----- splitting

  function Split(m: Tiling, a: nat, l: nat): Tiling {
    m[a := Block(l, true)][a + Size(l) := Block(l, true)]
  }

  /** A block of a split tiling lies where a block of the tiling before lay. */
  function WholeOf(a: nat, l: nat, x: nat): nat {
    if x == a + Size(l) then a else x
  }

  lemma SplitParts(m: Tiling, a: nat, l: nat, x: nat)
    requires a in m && m[a].level == l + 1 && x in Split(m, a, l)
    ensures WholeOf(a, l, x) in m
    ensures Within(x, Split(m, a, l)[x].level, WholeOf(a, l, x), m[WholeOf(a, l, x)].level)
  {
    SizeDoubles(l);
  }

  lemma SplitKeepsBlocks(m: Tiling, arenas: set<Span>, a: nat, l: nat)
    requires Tiled(m, arenas) && a in m && m[a].level == l + 1 && l >= MIN_LEVEL
    ensures BlocksOk(Split(m, a, l), arenas)
  {
    var m' := Split(m, a, l);
    HalvesOfAligned(a, l);
    forall x | x in m'
      ensures Housed(m', arenas, x)
    {
      SplitParts(m, a, l, x);
      var w := WholeOf(a, l, x);
      assert Housed(m, arenas, w);
      var s :| s in arenas && Within(w, m[w].level, s.base, s.level);
      assert Within(x, m'[x].level, s.base, s.level);
    }
  }

  lemma SplitKeepsApart(m: Tiling, a: nat, l: nat)
    requires NoOverlap(m) && a in m && m[a].level == l + 1
    ensures NoOverlap(Split(m, a, l)) && a + Size(l) !in m
  {
    var m' := Split(m, a, l);
    SizeDoubles(l);
    assert Separate(m, a, a + Size(l));
    forall x, y
      ensures Separate(m', x, y)
    {
      if x in m' && y in m' && x != y {
        SplitParts(m, a, l, x);
        SplitParts(m, a, l, y);
        assert Separate(m, WholeOf(a, l, x), WholeOf(a, l, y));
      }
    }
  }

  lemma SplitKeepsTiling(m: Tiling, arenas: set<Span>, a: nat, l: nat)
    requires Tiled(m, arenas) && a in m && m[a].level == l + 1 && l >= MIN_LEVEL
    ensures Tiled(Split(m, a, l), arenas) && a + Size(l) !in m
  {
    var m' := Split(m, a, l);
    var h := a + Size(l);
    SplitKeepsBlocks(m, arenas, a, l);
    SplitKeepsApart(m, a, l);
    forall x, s | x in m' && s in arenas && s.base <= x && EndOf(m', x) < s.base + Size(s.level)
      ensures EndOf(m', x) in m'
    {
      SizeDoubles(l);
      if x == h {
        assert EndOf(m', x) == EndOf(m, a);
        assert Housed(m, arenas, a);
        assert Separate(m, a, s.base);
      } else if x != a {
        assert EndOf(m', x) == EndOf(m, x);
      }
    }
  }

  /** After a split the only free pair that the tiling may hold is the pair of halves. */
  lemma SplitKeepsCoalesced(m: Tiling, arenas: set<Span>, a: nat, l: nat)
    requires Tiled(m, arenas) && a in m && m[a] == Block(l + 1, true) && l >= MIN_LEVEL
    requires Coalesced(m, {a})
    ensures Coalesced(Split(m, a, l), {a + Size(l)})
    ensures Live(Split(m, a, l)) == Live(m)
  {
    var m' := Split(m, a, l);
    var h := a + Size(l);
    SplitKeepsTiling(m, arenas, a, l);
    HalvesOfAligned(a, l);
    BuddyFacts(a, l);
    forall x | x != h && FreePair(m', x)
      ensures BuddyOf(x, m'[x].level) == h
    {
      BuddyFacts(x, m'[x].level);
      if x != a && BuddyOf(x, m'[x].level) != h {
        NoOtherPair(m, {a}, x);
        assert false;
      }
    }
  }

  // ----- merging

  function Merge(m: Tiling, p: nat, l: nat): Tiling {
    (m - {p + Size(l)})[p := Block(l + 1, true)]
  }

  /** The lower and the upper half of an aligned span, as two blocks. */
  ghost predicate Halves(m: Tiling, arenas: set<Span>, p: nat, l: nat) {
    && Aligned(p, l + 1) && InArena(arenas, p, l + 1)
    && p in m && m[p].level == l && p + Size(l) in m && m[p + Size(l)].level == l
  }

  lemma MergeKeepsBlocks(m: Tiling, arenas: set<Span>, p: nat, l: nat)
    requires Tiled(m, arenas) && Halves(m, arenas, p, l)
    ensures BlocksOk(Merge(m, p, l), arenas)
  {
    var m' := Merge(m, p, l);
    forall x | x in m'
      ensures Housed(m', arenas, x)
    {
      assert Housed(m, arenas, x);
    }
  }

  lemma MergeKeepsApart(m: Tiling, arenas: set<Span>, p: nat, l: nat)
    requires Tiled(m, arenas) && Halves(m, arenas, p, l)
    ensures NoOverlap(Merge(m, p, l))
  {
    var m' := Merge(m, p, l);
    var q := p + Size(l);
    SizeDoubles(l);
    forall x, y
      ensures Separate(m', x, y)
    {
      assert Separate(m, x, y) && Separate(m, q, y) && Separate(m, x, q);
    }
  }

  lemma MergeKeepsTiling(m: Tiling, arenas: set<Span>, p: nat, l: nat)
    requires Tiled(m, arenas) && Halves(m, arenas, p, l)
    ensures Tiled(Merge(m, p, l), arenas)
  {
    var m' := Merge(m, p, l);
    var q := p + Size(l);
    SizeDoubles(l);
    MergeKeepsBlocks(m, arenas, p, l);
    MergeKeepsApart(m, arenas, p, l);
    var t :| t in arenas && Within(p, l + 1, t.base, t.level);
    forall s | s in arenas
      ensures s.base in m'
    {
      assert ArenasApart(s, t);
    }
    forall x, s | x in m' && s in arenas && s.base <= x && EndOf(m', x) < s.base + Size(s.level)
      ensures EndOf(m', x) in m'
    {
      if x == p {
        assert EndOf(m', x) == EndOf(m, q);
      } else {
        assert EndOf(m', x) == EndOf(m, x);
        assert Separate(m, x, p);
      }
    }
  }

  /** If only pairs with the block a were left to merge, then after merging a with its buddy only
      pairs with the merged block are. */
  lemma MergeKeepsCoalesced(m: Tiling, arenas: set<Span>, a: nat, l: nat)
    requires Tiled(m, arenas) && Coalesced(m, {a})
    requires a in m && m[a] == Block(l, true) && FreePair(m, a)
    ensures Coalesced(Merge(m, ParentOf(a, l), l), {ParentOf(a, l)})
    ensures Live(Merge(m, ParentOf(a, l), l)) == Live(m)
  {
    var p := ParentOf(a, l);
    var m' := Merge(m, p, l);
    BuddyFacts(a, l);
    forall x | x != p && FreePair(m', x)
      ensures BuddyOf(x, m'[x].level) == p
    {
      if BuddyOf(x, m'[x].level) != p {
        NoOtherPair(m, {a}, x);
        assert false;
      }
    }
  }

  // ----- changing the state of one block

  lemma SetStateKeepsTiling(m: Tiling, arenas: set<Span>, a: nat, isFree: bool)
    requires Tiled(m, arenas) && a in m
    ensures Tiled(m[a := Block(m[a].level, isFree)], arenas)
  {
    var m' := m[a := Block(m[a].level, isFree)];
    forall x | x in m'
      ensures Housed(m', arenas, x)
    {
      assert Housed(m, arenas, x);
    }
    forall x, y
      ensures Separate(m', x, y)
    {
      assert Separate(m, x, y);
    }
    assert forall x {:trigger EndOf(m', x)} :: x in m ==> EndOf(m', x) == EndOf(m, x);
  }

  /** Handing out a block ends every pair it is in. */
  lemma TakeBlock(m: Tiling, arenas: set<Span>, a: nat)
    requires Tiled(m, arenas) && a in m && m[a].isFree && Coalesced(m, {a})
    ensures var m' := m[a := Block(m[a].level, false)];
            Tiled(m', arenas) && Coalesced(m', {}) && Live(m') == Live(m)[a := m[a].level]
  {
    var m' := m[a := Block(m[a].level, false)];
    SetStateKeepsTiling(m, arenas, a, false);
    forall x
      ensures !FreePair(m', x)
    {
      if FreePair(m', x) {
        NoOtherPair(m, {a}, x);
        assert false;
      }
    }
  }

  /** Marking a live block free leaves only its own pair to merge. */
  lemma ReleaseBlock(m: Tiling, arenas: set<Span>, a: nat)
    requires Tiled(m, arenas) && a in m && !m[a].isFree && Coalesced(m, {})
    ensures var m' := m[a := Block(m[a].level, true)];
            Tiled(m', arenas) && Coalesced(m', {a}) && Live(m') == Live(m) - {a}
  {
    var m' := m[a := Block(m[a].level, true)];
    SetStateKeepsTiling(m, arenas, a, true);
    forall x | x != a && FreePair(m', x)
      ensures BuddyOf(x, m'[x].level) == a
    {
      NoFreePair(m, x);
    }
    assert Live(m') == Live(m) - {a};
  }

  /** A block that is in no free pair needs no exception. */
  lemma NothingToMerge(m: Tiling, arenas: set<Span>, a: nat)
    requires Tiled(m, arenas) && a in m && Coalesced(m, {a}) && !FreePair(m, a)
    ensures Coalesced(m, {})
  {
    forall x
      ensures !FreePair(m, x)
    {
      if FreePair(m, x) {
        BuddyFacts(x, m[x].level);
        assert false;
      }
    }
  }

  // ----- adding an arena

  /** A new arena that is aligned to its size, of a new level, and apart from the others. */
  ghost predicate NewArena(arenas: set<Span>, s: Span) {
    && s.base > 0 && s.level >= MIN_LEVEL && Aligned(s.base, s.level)
    && forall t {:trigger ArenasApart(s, t)} :: t in arenas ==> s != t && ArenasApart(s, t)
  }

  lemma OldBlockApart(m: Tiling, arenas: set<Span>, s: Span, x: nat) returns (t: Span)
    requires Tiled(m, arenas) && NewArena(arenas, s) && x in m
    ensures t in arenas && Within(x, m[x].level, t.base, t.level)
    ensures Apart(x, m[x].level, s.base, s.level)
  {
    assert Housed(m, arenas, x);
    t :| t in arenas && Within(x, m[x].level, t.base, t.level);
    assert ArenasApart(s, t);
  }

  lemma ArenaKeepsBlocks(m: Tiling, arenas: set<Span>, s: Span)
    requires Tiled(m, arenas) && NewArena(arenas, s)
    ensures var m' := m[s.base := Block(s.level, true)];
            s.base !in m && BlocksOk(m', arenas + {s}) && NoOverlap(m')
  {
    var m' := m[s.base := Block(s.level, true)];
    var arenas' := arenas + {s};
    assert Within(s.base, s.level, s.base, s.level) && s in arenas';
    forall x | x in m'
      ensures Housed(m', arenas', x)
    {
      if x != s.base {
        var t := OldBlockApart(m, arenas, s, x);
        assert t in arenas';
      }
    }
    forall x | x in m
      ensures Apart(x, m[x].level, s.base, s.level)
    {
      var t := OldBlockApart(m, arenas, s, x);
    }
    forall x, y
      ensures Separate(m', x, y)
    {
      assert Separate(m, x, y);
    }
  }

  lemma ArenaKeepsTiling(m: Tiling, arenas: set<Span>, s: Span)
    requires Tiled(m, arenas) && NewArena(arenas, s)
    ensures var m' := m[s.base := Block(s.level, true)];
            s.base !in m && Tiled(m', arenas + {s})
  {
    var m' := m[s.base := Block(s.level, true)];
    var arenas' := arenas + {s};
    ArenaKeepsBlocks(m, arenas, s);
    forall u, v | u in arenas' && v in arenas'
      ensures ArenasApart(u, v)
    {
      assert ArenasApart(s, u) && ArenasApart(s, v);
    }
    forall x, t | x in m' && t in arenas' && t.base <= x && EndOf(m', x) < t.base + Size(t.level)
      ensures EndOf(m', x) in m'
    {
      if x != s.base {
        var u := OldBlockApart(m, arenas, s, x);
        assert t != s;
        assert EndOf(m', x) == EndOf(m, x);
      }
    }
  }

  lemma ArenaKeepsCoalesced(m: Tiling, arenas: set<Span>, s: Span)
    requires Tiled(m, arenas) && Coalesced(m, {}) && NewArena(arenas, s)
    ensures var m' := m[s.base := Block(s.level, true)];
            Coalesced(m', {}) && Live(m') == Live(m)
  {
    var m' := m[s.base := Block(s.level, true)];
    ArenaKeepsTiling(m, arenas, s);
    BuddyOfArena(m', arenas + {s}, s);
    forall x
      ensures !FreePair(m', x)
    {
      if FreePair(m', x) {
        BuddyFacts(x, m'[x].level);
        NoFreePair(m, x);
        assert false;
      }
    }
  }
}
