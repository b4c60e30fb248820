/** The copying and filling loops at the end of src/mem/mem.c, over one memory of cells.  Pointers
    are indices into it. */
module Memory {

  /** Memory after n cells have been copied from src to dest at once. */
  function Moved<T>(s: seq<T>, dest: nat, src: nat, n: nat): seq<T>
    requires dest + n <= |s| && src + n <= |s|
  {
    s[..dest] + s[src..src + n] + s[dest + n..]
  }

  lemma MovedCells<T>(s: seq<T>, t: seq<T>, dest: nat, src: nat, n: nat)
    requires dest + n <= |s| && src + n <= |s| && |t| == |s|
    requires forall k {:trigger t[k]} :: 0 <= k < |s| ==>
               t[k] == if dest <= k < dest + n then s[k - dest + src] else s[k]
    ensures t == Moved(s, dest, src, n)
  {
  }

  /** `memmove`: the copy runs upwards or downwards so that overlapping ranges come out right. */
  method Memmove<T>(mem: array<T>, dest: nat, src: nat, n: nat)
    requires dest + n <= mem.Length && src + n <= mem.Length
    modifies mem
    ensures mem[..] == Moved(old(mem[..]), dest, src, n)
  {
    ghost var was := mem[..];
    if src > dest {
      var i := 0;
      while i < n
        invariant 0 <= i <= n
        invariant forall k {:trigger mem[k]} :: 0 <= k < mem.Length ==>
                    mem[k] == if dest <= k < dest + i then was[k - dest + src] else was[k]
      {
        assert mem[src + i] == was[src + i];
        mem[dest + i] := mem[src + i];
        i := i + 1;
      }
    } else if src < dest {
      var i := n;
      while i > 0
        invariant 0 <= i <= n
        invariant forall k {:trigger mem[k]} :: 0 <= k < mem.Length ==>
                    mem[k] == if dest + i <= k < dest + n then was[k - dest + src] else was[k]
      {
        assert mem[src + i - 1] == was[src + i - 1];
        mem[dest + i - 1] := mem[src + i - 1];
        i := i - 1;
      }
    }
    MovedCells(was, mem[..], dest, src, n);
  }

  /** `memset`. */
  method Memset<T>(mem: array<T>, start: nat, value: T, n: nat)
    requires start + n <= mem.Length
    modifies mem
    ensures mem[..] == old(mem[..start]) + seq(n, _ => value) + old(mem[start + n..])
  {
    var i := 0;
    while i < n
      invariant 0 <= i <= n
      invariant forall k :: 0 <= k < mem.Length ==>
                  mem[k] == if start <= k < start + i then value else old(mem[k])
    {
      mem[start + i] := value;
      i := i + 1;
    }
  }

  /** `memcpy`: the copy runs upwards, so it comes out right unless the destination starts inside the
      source. */
  method Memcpy<T>(mem: array<T>, dest: nat, from: array<T>, src: nat, n: nat)
    requires dest + n <= mem.Length && src + n <= from.Length
    requires mem == from ==> dest <= src || src + n <= dest
    modifies mem
    ensures mem[..] == old(mem[..dest]) + old(from[src..src + n]) + old(mem[dest + n..])
  {
    ghost var was, source := mem[..], from[..];
    var i := 0;
    while i < n
      invariant 0 <= i <= n
      invariant mem != from ==> from[..] == source
      invariant forall k {:trigger mem[k]} :: 0 <= k < mem.Length ==>
                  mem[k] == if dest <= k < dest + i then source[k - dest + src] else was[k]
    {
      assert from[src + i] == from[..][src + i] == source[src + i];
      mem[dest + i] := from[src + i];
      i := i + 1;
    }
  }
}
