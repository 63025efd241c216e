/**
 * The guest heap (androidemu.native.memory.NativeMemory), reduced to what the
 * hooks rely on: allocate(n) hands out n bytes that no earlier allocation uses,
 * and nothing is ever freed.
 */
module NativeMemoryModel {
  datatype Block = Block(start: int, size: nat)

  function End(b: Block): int {
    b.start + b.size
  }

  class NativeMemory {
    /** The next free address of the bump allocator. */
    var next: int
    /** Every block handed out so far, in order. */
    ghost var blocks: seq<Block>

    ghost predicate Valid()
      reads this
    {
      forall i :: 0 <= i < |blocks| ==> blocks[i].start <= End(blocks[i]) <= next
    }

    constructor(heapStart: int)
      ensures Valid() && next == heapStart && blocks == []
    {
      next := heapStart;
      blocks := [];
    }

    method Allocate(size: nat) returns (p: int)
      requires Valid()
      modifies this
      ensures Valid()
      ensures p == old(next) && next == p + size
      ensures blocks == old(blocks) + [Block(p, size)]
      ensures forall i :: 0 <= i < |old(blocks)| ==> End(old(blocks)[i]) <= p
    {
      p := next;
      next := next + size;
      blocks := blocks + [Block(p, size)];
    }
  }
}
