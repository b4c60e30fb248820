/** The line buffer of src/shell/shell.c, which grows on the kernel heap. */
module Shell {
  import opened BitMath
  import opened FreeLists
  import opened Heap
  import HeapLaws
  import Memory

  datatype Step = Done | OutOfMemory

  class Line {
    const heap: Allocator
    var currentLine: nat
    var chars: array<nat>
    var capacity: nat
    var size: nat

    /** The characters accepted since the last reset, the live blocks that are not the shell's, the
        number of growth steps and the number of bytes they copied. */
    ghost var accepted: seq<nat>
    ghost var others: map<nat, nat>
    ghost var growths: nat
    ghost var copied: nat

    /** The buffer holds the accepted characters; its capacity is 2^growths - 1; and it is the only
        block of the heap that the shell owns. */
    ghost predicate Consistent()
      reads this, chars, heap, heap.memBlocks
    {
      && heap.Valid() && chars != heap.memBlocks
      && chars.Length == capacity && size <= capacity && chars[..size] == accepted
      && capacity + 1 == Pow2(growths) && copied + growths == capacity
      && (currentLine == 0 <==> capacity == 0)
      && if currentLine == 0 then heap.LiveBlocks() == others
         else HeapLaws.OwnsBlock(heap.LiveBlocks(), others, currentLine, capacity)
    }

    /** Between two calls the buffer is at least half full, so all growth steps together have copied
        at most 2 * size bytes. */
    ghost predicate Valid()
      reads this, chars, heap, heap.memBlocks
    {
      Consistent() && capacity <= 2 * size
    }

    lemma CopiedAtMostTwiceTheSize()
      requires Valid()
      ensures copied <= 2 * size && copied == capacity - growths
    {
    }

    constructor (heap: Allocator)
      requires heap.Valid()
      ensures Valid() && accepted == [] && this.heap == heap && others == heap.LiveBlocks()
      ensures fresh(chars)
    {
      assert Pow2(0) == 1;
      this.heap := heap;
      currentLine, capacity, size := 0, 0, 0;
      chars := new nat[0];
      accepted, others, growths, copied := [], heap.LiveBlocks(), 0, 0;
    }

    /** The part of `shell_input_callback` that stores a character. */
    method Accept(c: nat, grant: nat -> nat, outside: nat -> Header) returns (step: Step)
      requires Valid() && 2 * capacity + 1 < U64
      requires size == capacity && currentLine != 0 ==>
                 HeapLaws.OutsideOkAfter(heap.arenas, heap.highestLevel, 2 * capacity + 1 + META_SIZE, grant, outside)
      requires size == capacity && 2 * capacity + 1 + META_SIZE > heap.highestBlockSize ==>
                 GrantsOk(heap.arenas, heap.highestLevel, grant)
      modifies this, chars, heap, heap.memBlocks
      ensures step.Done? ==> Valid() && accepted == old(accepted) + [c] && others == old(others)
      ensures step.OutOfMemory? ==> unchanged(this) && chars[..] == old(chars[..])
      ensures step.OutOfMemory? ==> heap.LiveBlocks() == old(heap.LiveBlocks())
      ensures step.OutOfMemory? && 2 * old(capacity) + 1 + META_SIZE <= 0x8000_0000 ==>
                HeapLaws.NoRoom(heap.arenas, heap.LiveBlocks(), 2 * old(capacity) + 1)
      ensures old(size) < old(capacity) ==> step.Done? && capacity == old(capacity)
    {
      if size + 1 > capacity {
        step := GrowLine(grant, outside);
        if step.OutOfMemory? {
          return;
        }
      }
      Store(c);
      return Done;
    }

    method Store(c: nat)
      requires Consistent() && size < capacity <= 2 * (size + 1)
      modifies this`size, this`accepted, chars
      ensures Valid() && accepted == old(accepted) + [c]
    {
      chars[size] := c;
      size := size + 1;
      accepted := accepted + [c];
    }

    /** The new block is allocated before the old one is freed. */
    method GrowLine(grant: nat -> nat, outside: nat -> Header) returns (step: Step)
      requires Valid() && size == capacity && 2 * capacity + 1 < U64
      requires currentLine != 0 ==>
                 HeapLaws.OutsideOkAfter(heap.arenas, heap.highestLevel, 2 * capacity + 1 + META_SIZE, grant, outside)
      requires 2 * capacity + 1 + META_SIZE > heap.highestBlockSize ==>
                 GrantsOk(heap.arenas, heap.highestLevel, grant)
      modifies this, heap, heap.memBlocks
      ensures step.Done? ==> Consistent() && capacity == 2 * old(capacity) + 1 && size == old(size)
      ensures accepted == old(accepted) && others == old(others)
      ensures step.OutOfMemory? ==> unchanged(this) && chars[..] == old(chars[..])
      ensures step.OutOfMemory? ==> heap.Valid() && heap.LiveBlocks() == old(heap.LiveBlocks())
      ensures step.OutOfMemory? && 2 * old(capacity) + 1 + META_SIZE <= 0x8000_0000 ==>
                HeapLaws.NoRoom(heap.arenas, heap.LiveBlocks(), 2 * old(capacity) + 1)
      ensures step.Done? ==> fresh(chars)
    {
      var newCapacity := if capacity != 0 then capacity * 2 + 1 else 1;
      ghost var live := heap.LiveBlocks();
      var p := HeapLaws.Obtain(heap, newCapacity, grant, outside);
      if p == 0 {
        return OutOfMemory;
      }
      var newLine := new nat[newCapacity];
      if currentLine != 0 {
        MoveLine(p, newLine, outside, live);
      }
      Adopt(p, newLine);
      return Done;
    }

    /** The characters are copied to the new buffer, and the old block is freed. */
    method MoveLine(p: nat, newLine: array<nat>, outside: nat -> Header, ghost live: map<nat, nat>)
      requires heap.Valid() && OutsideOk(heap.arenas, heap.highestLevel, outside)
      requires newLine != heap.memBlocks && newLine != chars
      requires size == capacity == chars.Length <= newLine.Length && chars[..size] == accepted
      requires HeapLaws.OwnsBlock(live, others, currentLine, capacity)
      requires HeapLaws.OwnsBlock(heap.LiveBlocks(), live, p, newLine.Length)
      modifies heap, heap.memBlocks, newLine
      ensures heap.Valid() && newLine[..size] == accepted
      ensures HeapLaws.OwnsBlock(heap.LiveBlocks(), others, p, newLine.Length)
    {
      Memory.Memcpy(newLine, 0, chars, 0, size);
      assert heap.LiveBlocks() == old(heap.LiveBlocks());
      HeapLaws.ReleaseOlder(heap, currentLine, p, outside, live, others, capacity, newLine.Length);
    }

    /** The shell takes over a new buffer that starts with the characters of the old one. */
    method Adopt(p: nat, newLine: array<nat>)
      requires heap.Valid() && newLine != heap.memBlocks && size == capacity
      requires newLine.Length == 2 * capacity + 1 && newLine[..size] == accepted
      requires capacity + 1 == Pow2(growths) && copied + growths == capacity
      requires HeapLaws.OwnsBlock(heap.LiveBlocks(), others, p, newLine.Length)
      modifies this
      ensures Consistent() && chars == newLine && capacity == newLine.Length && size == old(size)
      ensures accepted == old(accepted) && others == old(others)
    {
      copied := copied + size;
      growths := growths + 1;
      currentLine, chars, capacity := p, newLine, newLine.Length;
    }

    /** `shell_reset_prompt_buffer`. */
    method Reset(outside: nat -> Header)
      requires Valid() && (currentLine != 0 ==> OutsideOk(heap.arenas, heap.highestLevel, outside))
      modifies this, heap, heap.memBlocks
      ensures Valid() && accepted == [] && capacity == 0 && currentLine == 0
      ensures others == old(others) && heap.LiveBlocks() == others
    {
      ghost var was := capacity;
      capacity, size := 0, 0;
      if currentLine != 0 {
        HeapLaws.Release(heap, currentLine, outside, others, was);
      }
      currentLine := 0;
      chars := new nat[0];
      accepted, growths, copied := [], 0, 0;
      assert Pow2(0) == 1;
    }
  }
}
