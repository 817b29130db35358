/** The arena provider the allocators call: mem_sbrk, mem_heap_lo and
    mem_heap_hi. memlib.c is not part of this model; it is described here by
    its interface only: one contiguous range of words, from address 0
    (mem_heap_lo) up to brk, that grows at its high end by mem_sbrk and fails
    when growing it would pass a fixed maximum. */
module Memlib {
  import opened Layout

  class Arena {
    /** The arena's words, by byte address. */
    var mem: map<int, nat>
    /** The current break: the arena is [0, brk). */
    var brk: nat
    /** The most the arena may ever grow to. */
    const maxHeap: nat

    constructor (maxHeap: nat)
      ensures this.maxHeap == maxHeap && brk == 0 && mem == map[]
    {
      this.maxHeap := maxHeap;
      brk := 0;
      mem := map[];
    }

    /** PUT: write the word at address a, which must lie inside the arena. */
    method Put(a: int, v: nat)
      requires 0 <= a < brk
      modifies this
      ensures mem == old(mem)[a := v] && brk == old(brk)
    {
      mem := mem[a := v];
    }

    /** mem_heap_lo: the first byte of the arena. */
    function HeapLo(): int {
      0
    }

    /** mem_heap_hi: the last byte of the arena. */
    function HeapHi(): (r: int)
      reads this
      ensures r + 1 == brk
    {
      brk - 1
    }

    /** mem_sbrk(incr): grow the arena by incr bytes and return the old
        break, or fail (the C code's (void *)-1) and change nothing. */
    method Sbrk(incr: nat) returns (ok: bool, p: int)
      modifies this
      ensures ok <==> old(brk) + incr <= maxHeap
      ensures ok ==> p == old(brk) && brk == old(brk) + incr
      ensures !ok ==> brk == old(brk)
      ensures mem == old(mem)
    {
      if brk + incr <= maxHeap {
        ok, p := true, brk;
        brk := brk + incr;
      } else {
        ok, p := false, -1;
      }
    }
  }
}
