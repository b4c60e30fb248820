/** The order of the free lists of src/mem/mem.c: what a free takes out of the lists, what a request
    puts into them, and that everything else stays where it was.  `kmalloc` hands out the first block
    of a list, so the order decides which block that is. */
module ListOrder {
  import opened Buddy
  import opened FreeLists

  /** x lies in the span of level l at a. */
  predicate Covers(a: nat, l: nat, x: nat) {
    a <= x < a + Size(l)
  }

  /** The members of a list outside a span, in their order. */
  ghost function Beyond(s: seq<nat>, a: nat, l: nat): seq<nat> {
    if s == [] then []
    else (if Covers(a, l, s[0]) then [] else [s[0]]) + Beyond(s[1..], a, l)
  }

  /** The lists without the blocks in a span. */
  ghost predicate Cleared(before: seq<seq<nat>>, after: seq<seq<nat>>, a: nat, l: nat) {
    && |after| == |before|
    && forall k {:trigger after[k]} :: 0 <= k < |before| ==> after[k] == Beyond(before[k], a, l)
  }

  /** The lists after a span has become one free block: the block is the first one on the list of its
      level, the blocks it has absorbed are gone, and all others keep their order. */
  ghost predicate Returned(before: seq<seq<nat>>, after: seq<seq<nat>>, a: nat, l: nat) {
    && |after| == |before|
    && forall k {:trigger after[k]} :: 0 <= k < |before| ==>
         after[k] == (if k == l then [a] else []) + Beyond(before[k], a, l)
  }

  lemma {:induction false} BeyondAll(s: seq<nat>, a: nat, l: nat)
    requires forall x :: x in s ==> !Covers(a, l, x)
    ensures Beyond(s, a, l) == s
  {
    if s != [] {
      assert s[0] in s;
      BeyondAll(s[1..], a, l);
    }
  }

  lemma {:induction false} BeyondSplit(s: seq<nat>, t: seq<nat>, a: nat, l: nat)
    ensures Beyond(s + t, a, l) == Beyond(s, a, l) + Beyond(t, a, l)
  {
    if s == [] {
      assert s + t == t;
    } else {
      assert (s + t)[1..] == s[1..] + t;
      BeyondSplit(s[1..], t, a, l);
    }
  }

  /** Of a list of which only the i-th member lies in the span, the rest is left. */
  lemma {:induction false} BeyondOne(s: seq<nat>, a: nat, l: nat, i: nat)
    requires i < |s| && Covers(a, l, s[i])
    requires forall j :: 0 <= j < |s| && j != i ==> !Covers(a, l, s[j])
    ensures Beyond(s, a, l) == s[..i] + s[i + 1..]
  {
    if i == 0 {
      BeyondAll(s[1..], a, l);
    } else {
      assert !Covers(a, l, s[0]);
      BeyondOne(s[1..], a, l, i - 1);
      assert s[..i] + s[i + 1..] == [s[0]] + (s[1..][..i - 1] + s[1..][i..]);
    }
  }

  /** The two halves of a span are the whole span. */
  lemma {:induction false} BeyondHalves(s: seq<nat>, a: nat, b: nat, p: nat, l: nat)
    requires (a == p && b == p + Size(l)) || (b == p && a == p + Size(l))
    ensures Beyond(Beyond(s, a, l), b, l) == Beyond(s, p, l + 1)
  {
    if s != [] {
      SizeDoubles(l);
      BeyondHalves(s[1..], a, b, p, l);
      BeyondSplit(if Covers(a, l, s[0]) then [] else [s[0]], Beyond(s[1..], a, l), b, l);
      assert Covers(p, l + 1, s[0]) <==> Covers(a, l, s[0]) || Covers(b, l, s[0]);
      assert Beyond([s[0]], b, l) == if Covers(b, l, s[0]) then [] else [s[0]];
    }
  }

  lemma ClearedHalves(l0: seq<seq<nat>>, l1: seq<seq<nat>>, l2: seq<seq<nat>>, a: nat, b: nat, p: nat, l: nat)
    requires (a == p && b == p + Size(l)) || (b == p && a == p + Size(l))
    requires Cleared(l0, l1, a, l) && Cleared(l1, l2, b, l)
    ensures Cleared(l0, l2, p, l + 1)
  {
    forall k | 0 <= k < |l0|
      ensures l2[k] == Beyond(l0[k], p, l + 1)
    {
      assert l1[k] == Beyond(l0[k], a, l);
      BeyondHalves(l0[k], a, b, p, l);
    }
  }

  lemma OthersBeyond(h: Store, m: Tiling, a: nat, x: nat)
    requires m == BlocksOf(h) && NoOverlap(m) && a in h && x in h && x != a
    ensures !Covers(a, h[a].level, x)
  {
    assert Separate(m, a, x);
    assert m[a].level == h[a].level;
  }

  /** No list has a member inside a block that is in no list. */
  lemma NothingInside(h: Store, heads: seq<nat>, lists: seq<seq<nat>>, except: set<nat>, a: nat)
    requires ListsOk(h, heads, lists, except) && NoOverlap(BlocksOf(h))
    requires a in h && InNoList(h, except, a)
    ensures Cleared(lists, lists, a, h[a].level)
  {
    forall k | 0 <= k < |lists|
      ensures lists[k] == Beyond(lists[k], a, h[a].level)
    {
      assert ListOk(h, heads[k], k, lists[k], except);
      forall x | x in lists[k]
        ensures !Covers(a, h[a].level, x)
      {
        OthersBeyond(h, BlocksOf(h), a, x);
      }
      BeyondAll(lists[k], a, h[a].level);
    }
  }

  lemma OnlyItself(h: Store, head: nat, k: nat, s: seq<nat>, except: set<nat>, a: nat)
    requires ListOk(h, head, k, s, except) && NoOverlap(BlocksOf(h)) && a in h
    ensures forall x :: x in s && x != a ==> !Covers(a, h[a].level, x)
    ensures Covers(a, h[a].level, a)
  {
    forall x | x in s && x != a
      ensures !Covers(a, h[a].level, x)
    {
      OthersBeyond(h, BlocksOf(h), a, x);
    }
  }

  /** Taking a block out of its list clears its span. */
  lemma CutClears(h: Store, heads: seq<nat>, lists: seq<seq<nat>>, except: set<nat>, a: nat, i: nat)
    requires ListsOk(h, heads, lists, except) && NoOverlap(BlocksOf(h))
    requires a in h && h[a].level < LEVEL_COUNT && i < |lists[h[a].level]| && lists[h[a].level][i] == a
    ensures var l := h[a].level;
            Cleared(lists, lists[l := lists[l][..i] + lists[l][i + 1..]], a, l)
  {
    var l := h[a].level;
    var after := lists[l := lists[l][..i] + lists[l][i + 1..]];
    forall k | 0 <= k < |lists|
      ensures after[k] == Beyond(lists[k], a, l)
    {
      assert ListOk(h, heads[k], k, lists[k], except);
      OnlyItself(h, heads[k], k, lists[k], except, a);
      if k == l {
        assert forall j :: 0 <= j < |lists[k]| ==> lists[k][j] in lists[k];
        BeyondOne(lists[k], a, l, i);
      } else {
        BeyondAll(lists[k], a, l);
      }
    }
  }

  /** The block at a has grown out of the freed one, and the blocks it has absorbed are on no list. */
  ghost predicate Absorbed(before: seq<seq<nat>>, after: seq<seq<nat>>, freed: nat, level: nat, a: nat, l: nat) {
    Within(freed, level, a, l) && Cleared(before, after, a, l)
  }

  lemma AbsorbBuddy(l0: seq<seq<nat>>, l1: seq<seq<nat>>, l2: seq<seq<nat>>, freed: nat, level: nat, a: nat, l: nat)
    requires Aligned(a, l) && Absorbed(l0, l1, freed, level, a, l) && Cleared(l1, l2, BuddyOf(a, l), l)
    ensures Absorbed(l0, l2, freed, level, ParentOf(a, l), l + 1)
  {
    BuddyFacts(a, l);
    ClearedHalves(l0, l1, l2, a, BuddyOf(a, l), ParentOf(a, l), l);
  }

  // ----- what a request takes

  /** The lists after the first block of one level has become two blocks of the next lower level. */
  ghost function SplitLists(lists: seq<seq<nat>>, b1: nat, b2: nat, level: nat): seq<seq<nat>>
    requires 0 < level < |lists| && lists[level] != []
  {
    lists[level := lists[level][1..]][level - 1 := [b2] + ([b1] + lists[level - 1])]
  }

  /** The last piece of level j of the block of level k at b starts here. */
  function LastPieceOf(b: nat, k: nat, j: nat): nat {
    if b + Size(k) >= Size(j) then b + Size(k) - Size(j) else 0
  }

  /** And the piece before it, which stays free, here. */
  function PieceBefore(b: nat, k: nat, j: nat): nat {
    if b + Size(k) >= 2 * Size(j) then b + Size(k) - 2 * Size(j) else 0
  }

  /** The lists after the first block of level k has been split down to the level `target` and its last
      piece handed out: on every level in between, one free piece is the new first block. */
  ghost predicate Taken(before: seq<seq<nat>>, after: seq<seq<nat>>, k: nat, target: nat)
    requires k < |before| && before[k] != []
  {
    && |after| == |before|
    && forall j {:trigger after[j]} :: 0 <= j < |before| ==>
         after[j] == if j == k then before[k][1..]
                     else if target <= j < k then [PieceBefore(before[k][0], k, j)] + before[j]
                     else before[j]
  }

  /** A request is served from the list of its level or, if that is empty, from the highest list that
      is not. */
  ghost predicate ServedFrom(lists: seq<seq<nat>>, highest: nat, target: nat, k: nat)
    requires highest < |lists|
  {
    && target <= k <= highest && lists[k] != []
    && (k == target || (lists[target] == [] && forall l :: k < l <= highest ==> lists[l] == []))
  }

  /** The lists after a request, which may have been served. */
  ghost predicate Requeued(before: seq<seq<nat>>, after: seq<seq<nat>>, highest: nat, target: nat, served: bool)
    requires highest < |before|
  {
    if served then exists k :: ServedFrom(before, highest, target, k) && Taken(before, after, k, target)
    else after == before
  }

  /** On the way down from level k, the list of level j starts with the piece that is split next. */
  ghost predicate CarvedTo(before: seq<seq<nat>>, lists: seq<seq<nat>>, highest: nat, k: nat, j: nat, z: nat)
    requires highest < |before|
  {
    && j < k <= highest && before[k] != [] && |lists| == |before|
    && lists[j] != [] && lists[j][0] == z == LastPieceOf(before[k][0], k, j)
    && Taken(before, lists[j := lists[j][1..]], k, j)
  }

  lemma EmptyLists(h: Store, heads: seq<nat>, lists: seq<seq<nat>>, except: set<nat>)
    requires ListsOk(h, heads, lists, except)
    ensures forall l :: 0 <= l < LEVEL_COUNT ==> (heads[l] == 0 <==> lists[l] == [])
  {
    forall l | 0 <= l < LEVEL_COUNT
      ensures heads[l] == 0 <==> lists[l] == []
    {
      assert ListOk(h, heads[l], l, lists[l], except);
    }
  }

  /** One split carries the state on to the next lower level. */
  lemma CarveOn(before: seq<seq<nat>>, lists: seq<seq<nat>>, highest: nat, k: nat, j: nat, z: nat, upper: nat)
    requires 0 < j <= k <= highest < |before|
    requires if z == 0 then lists == before && j == k && before[k] != []
             else CarvedTo(before, lists, highest, k, j, z)
    requires upper + Size(j - 1) == lists[j][0] + Size(j)
    ensures CarvedTo(before, SplitLists(lists, lists[j][0], upper, j), highest, k, j - 1, upper)
  {
    var b, after := lists[j][0], SplitLists(lists, lists[j][0], upper, j);
    SizeDoubles(j - 1);
    SizeMonotone(j, k);
    assert b == PieceBefore(before[k][0], k, j - 1) && upper == LastPieceOf(before[k][0], k, j - 1);
    assert after[j - 1][1..] == [b] + lists[j - 1];
    var rest := lists[j := lists[j][1..]];
    assert z != 0 ==> Taken(before, rest, k, j);
    assert after[j - 1 := after[j - 1][1..]] == rest[j - 1 := [b] + rest[j - 1]];
  }

  /** The split of the head of a list, before it happens. */
  lemma CarveHead(h: Store, heads: seq<nat>, before: seq<seq<nat>>, lists: seq<seq<nat>>, highest: nat, k: nat,
                  j: nat, z: nat)
    requires ListsOk(h, heads, lists, {}) && 0 < j <= k <= highest < |before| == LEVEL_COUNT && heads[j] != 0
    requires if z == 0 then lists == before && j == k else CarvedTo(before, lists, highest, k, j, z)
    ensures lists[j] != []
    ensures var upper := heads[j] + Size(j - 1);
            CarvedTo(before, SplitLists(lists, heads[j], upper, j), highest, k, j - 1, upper)
  {
    assert ListOk(h, heads[j], j, lists[j], {});
    SizeDoubles(j - 1);
    CarveOn(before, lists, highest, k, j, z, heads[j] + Size(j - 1));
  }

  lemma CarvedOut(before: seq<seq<nat>>, lists: seq<seq<nat>>, highest: nat, k: nat, target: nat, z: nat)
    requires highest < |before| && CarvedTo(before, lists, highest, k, target, z)
    requires before[target] == [] && forall l :: k < l <= highest ==> before[l] == []
    ensures Requeued(before, lists[target := lists[target][1..]], highest, target, true)
  {
    assert ServedFrom(before, highest, target, k);
  }
}
