/** The intrusive free lists of src/mem/mem.c: block headers that live in the memory they describe,
    and one singly linked list of headers for every level. */
module FreeLists {
  import opened Buddy

  /** `mem_block_t`.  Address 0 is the null pointer. */
  datatype Header = Header(next: nat, level: nat, isFree: bool)

  /** The headers of the current blocks, by address.  When a block is merged into its buddy its
      header becomes ordinary memory, and leaves the store. */
  type Store = map<nat, Header>

  const LEVEL_COUNT: nat := 34

  function BlocksOf(h: Store): Tiling {
    map a | a in h :: Block(h[a].level, h[a].isFree)
  }

  /** The address that the i-th member of a list links to. */
  ghost function After(s: seq<nat>, i: nat): nat
    requires i < |s|
  {
    if i + 1 < |s| then s[i + 1] else 0
  }

  ghost predicate Linked(h: Store, head: nat, s: seq<nat>) {
    && head == (if s == [] then 0 else s[0])
    && forall i :: 0 <= i < |s| ==> s[i] in h && h[s[i]].next == After(s, i)
  }

  ghost predicate NoDuplicates(s: seq<nat>) {
    forall i, j :: 0 <= i < j < |s| ==> s[i] != s[j]
  }

  /** The list of one level is acyclic and holds exactly the free blocks of that level. */
  ghost predicate ListOk(h: Store, head: nat, level: nat, s: seq<nat>, except: set<nat>) {
    && Linked(h, head, s)
    && NoDuplicates(s)
    && forall a :: a in s <==> a in h && a !in except && h[a].isFree && h[a].level == level
  }

  /** The lists of all levels are in order, except that the blocks of `except` are in none. */
  ghost predicate ListsOk(h: Store, heads: seq<nat>, lists: seq<seq<nat>>, except: set<nat>) {
    && 0 !in h && |heads| == |lists| == LEVEL_COUNT
    && forall l {:trigger ListOk(h, heads[l], l, lists[l], except)} ::
         0 <= l < LEVEL_COUNT ==> ListOk(h, heads[l], l, lists[l], except)
  }

  ghost predicate InNoList(h: Store, except: set<nat>, a: nat) {
    a in h && a !in except ==> !h[a].isFree
  }

  /** A store that differs only outside the lists. */
  lemma ListsFrame(h: Store, h': Store, heads: seq<nat>, lists: seq<seq<nat>>,
                   except: set<nat>, except': set<nat>, a: nat)
    requires ListsOk(h, heads, lists, except)
    requires InNoList(h, except, a) && InNoList(h', except', a) && a > 0
    requires forall x :: x != a ==> (x in h <==> x in h') && (x in except <==> x in except')
    requires forall x :: x != a && x in h ==> h'[x] == h[x]
    ensures ListsOk(h', heads, lists, except')
  {
    forall l | 0 <= l < LEVEL_COUNT
      ensures ListOk(h', heads[l], l, lists[l], except')
    {
      assert ListOk(h, heads[l], l, lists[l], except);
      assert a !in lists[l];
    }
  }

  lemma PopHead(h: Store, heads: seq<nat>, lists: seq<seq<nat>>, l: nat)
    requires ListsOk(h, heads, lists, {}) && l < LEVEL_COUNT && heads[l] != 0
    ensures lists[l] != [] && heads[l] == lists[l][0] && heads[l] in h
    ensures h[heads[l]].isFree && h[heads[l]].level == l
    ensures ListsOk(h, heads[l := h[heads[l]].next], lists[l := lists[l][1..]], {heads[l]})
  {
    UnlinkHead(h, heads, lists, l, {});
    assert {} + {heads[l]} == {heads[l]};
  }

  lemma UnlinkHead(h: Store, heads: seq<nat>, lists: seq<seq<nat>>, l: nat, except: set<nat>)
    requires ListsOk(h, heads, lists, except) && l < LEVEL_COUNT && heads[l] != 0
    ensures lists[l] != [] && heads[l] == lists[l][0] && heads[l] in h
    ensures h[heads[l]].isFree && h[heads[l]].level == l && heads[l] !in except
    ensures ListsOk(h, heads[l := h[heads[l]].next], lists[l := lists[l][1..]], except + {heads[l]})
  {
    var s := lists[l];
    assert ListOk(h, heads[l], l, s, except);
    var b := heads[l];
    assert b == s[0] && b in s;
    var heads', lists' := heads[l := h[b].next], lists[l := s[1..]];
    forall k | 0 <= k < LEVEL_COUNT
      ensures ListOk(h, heads'[k], k, lists'[k], except + {b})
    {
      assert ListOk(h, heads[k], k, lists[k], except);
      if k == l {
        TailMembers(s);
        TailLinked(h, b, s);
      } else {
        assert b !in lists[k];
      }
    }
  }

  lemma CutHead(h: Store, heads: seq<nat>, lists: seq<seq<nat>>, l: nat, except: set<nat>)
    requires ListsOk(h, heads, lists, except) && l < LEVEL_COUNT && heads[l] != 0
    ensures lists[l] != [] && heads[l] == lists[l][0] && heads[l] in h
    ensures ListsOk(h, heads[l := h[heads[l]].next], lists[l := lists[l][..0] + lists[l][1..]], except + {heads[l]})
  {
    UnlinkHead(h, heads, lists, l, except);
    assert lists[l][..0] + lists[l][1..] == lists[l][1..];
  }

  lemma RelinkKeepsBlocks(h: Store, a: nat, next: nat)
    requires a in h
    ensures BlocksOf(h[a := h[a].(next := next)]) == BlocksOf(h)
  {
  }

  lemma TailMembers(s: seq<nat>)
    requires NoDuplicates(s) && s != []
    ensures NoDuplicates(s[1..]) && forall x :: x in s[1..] <==> x in s && x != s[0]
  {
    var t := s[1..];
    forall x | x in s && x != s[0]
      ensures x in t
    {
      var j :| 0 <= j < |s| && s[j] == x;
      assert t[j - 1] == x;
    }
  }

  lemma TailLinked(h: Store, head: nat, s: seq<nat>)
    requires Linked(h, head, s) && s != []
    ensures Linked(h, h[head].next, s[1..])
  {
    var t := s[1..];
    assert s[0] == head && h[s[0]].next == After(s, 0);
    forall i | 0 <= i < |t|
      ensures t[i] in h && h[t[i]].next == After(t, i)
    {
      assert t[i] == s[i + 1] && After(t, i) == After(s, i + 1);
    }
  }

  lemma FrontMembers(s: seq<nat>, a: nat)
    requires NoDuplicates(s) && a !in s
    ensures NoDuplicates([a] + s) && forall x :: x in [a] + s <==> x in s || x == a
  {
    var t := [a] + s;
    forall i, j | 0 <= i < j < |t|
      ensures t[i] != t[j]
    {
      assert t[j] == s[j - 1] && t[j] in s;
    }
  }

  /** Taking out a later member of a list redirects the link of its predecessor. */
  lemma UnlinkLater(h: Store, heads: seq<nat>, lists: seq<seq<nat>>, l: nat, i: nat,
                    except: set<nat>)
    requires ListsOk(h, heads, lists, except) && l < LEVEL_COUNT && 0 < i < |lists[l]|
    ensures lists[l][i] in h && lists[l][i - 1] in h
    ensures var s := lists[l];
            var h' := h[s[i - 1] := h[s[i - 1]].(next := h[s[i]].next)];
            ListsOk(h', heads, lists[l := s[..i] + s[i + 1..]], except + {s[i]})
  {
    var s := lists[l];
    assert ListOk(h, heads[l], l, s, except);
    var b, prev := s[i], s[i - 1];
    var h' := h[prev := h[prev].(next := h[b].next)];
    var t := s[..i] + s[i + 1..];
    var lists' := lists[l := t];
    forall k | 0 <= k < LEVEL_COUNT
      ensures ListOk(h', heads[k], k, lists'[k], except + {b})
    {
      assert ListOk(h, heads[k], k, lists[k], except);
      if k == l {
        CutMembers(s, i);
        CutLinked(h, heads[l], s, i);
      } else {
        assert b in s && prev in s;
        assert b !in lists[k] && prev !in lists[k];
      }
    }
  }

  lemma CutMembers(s: seq<nat>, i: nat)
    requires NoDuplicates(s) && i < |s|
    ensures var t := s[..i] + s[i + 1..];
            NoDuplicates(t) && forall x :: x in t <==> x in s && x != s[i]
  {
    var t := s[..i] + s[i + 1..];
    assert forall j :: 0 <= j < |t| ==> t[j] == s[if j < i then j else j + 1];
    forall x | x in s && x != s[i]
      ensures x in t
    {
      var j :| 0 <= j < |s| && s[j] == x;
      assert t[if j < i then j else j - 1] == x;
    }
  }

  lemma CutLinked(h: Store, head: nat, s: seq<nat>, i: nat)
    requires Linked(h, head, s) && NoDuplicates(s) && 0 < i < |s|
    ensures var h' := h[s[i - 1] := h[s[i - 1]].(next := h[s[i]].next)];
            Linked(h', head, s[..i] + s[i + 1..])
  {
    var h' := h[s[i - 1] := h[s[i - 1]].(next := h[s[i]].next)];
    var t := s[..i] + s[i + 1..];
    assert head == s[0] == t[0];
    assert h[s[i]].next == After(s, i);
    forall j | 0 <= j < |t|
      ensures t[j] in h' && h'[t[j]].next == After(t, j)
    {
      if j < i {
        assert t[j] == s[j] && h[s[j]].next == After(s, j);
      } else {
        assert t[j] == s[j + 1] && h[s[j + 1]].next == After(s, j + 1);
      }
    }
  }

  lemma PushHead(h: Store, heads: seq<nat>, lists: seq<seq<nat>>, a: nat, l: nat,
                 except: set<nat>)
    requires ListsOk(h, heads, lists, except) && l < LEVEL_COUNT
    requires InNoList(h, except, a) && a > 0
    ensures var h' := h[a := Header(heads[l], l, true)];
            ListsOk(h', heads[l := a], lists[l := [a] + lists[l]], except - {a})
  {
    var h' := h[a := Header(heads[l], l, true)];
    var heads', lists' := heads[l := a], lists[l := [a] + lists[l]];
    forall k | 0 <= k < LEVEL_COUNT
      ensures ListOk(h', heads'[k], k, lists'[k], except - {a})
    {
      assert ListOk(h, heads[k], k, lists[k], except);
      assert a !in lists[k];
      if k == l {
        FrontMembers(lists[l], a);
      }
    }
  }

  /** No list holds a block twice, and no block is in two lists. */
  lemma ListsDisjoint(h: Store, heads: seq<nat>, lists: seq<seq<nat>>, except: set<nat>,
                      k: nat, l: nat, a: nat)
    requires ListsOk(h, heads, lists, except)
    requires k < l < LEVEL_COUNT && a in lists[k]
    ensures a !in lists[l]
  {
    assert ListOk(h, heads[k], k, lists[k], except);
    assert ListOk(h, heads[l], l, lists[l], except);
  }
}
