/** kernel/generic.c's allocator: one 8 MiB array and a pointer that only moves up. */
module KernelHeap {
  import opened Options
  import opened CMemory
  import opened Words

  const HEAP_SIZE: nat := 8 * 1024 * 1024

  /** `(n + 3) & ~3` */
  function Align4(n: nat): (r: nat)
    ensures n <= r < n + 4 && r % 4 == 0
  {
    (n + 3) / 4 * 4
  }

  class Heap {
    const mem: array<byte>
    var ptr: nat

    ghost predicate Valid()
      reads this
    {
      mem.Length == HEAP_SIZE && ptr <= HEAP_SIZE && ptr % 4 == 0
    }

    constructor ()
      ensures Valid() && ptr == 0 && fresh(mem)
    {
      mem := new byte[HEAP_SIZE];
      ptr := 0;
    }

    /** A block starts where the last one ended, and the pointer moves past it, rounded up to
        4.  The bound test adds 32-bit words: a size so large that the sum wraps around is never
        refused, moves the pointer down instead of up, and is the one case in which the block
        does not lie inside the heap. */
    method Malloc(size: nat) returns (p: Option<nat>)
      requires Valid() && size < WORD
      modifies this`ptr
      ensures Valid()
      ensures p == None <==> HEAP_SIZE < old(ptr) + size < WORD
      ensures p == None ==> ptr == old(ptr)
      ensures p != None ==> p.value == old(ptr) && ptr == Align4((old(ptr) + size) % WORD)
      ensures p != None ==> (p.value + size <= HEAP_SIZE <==> old(ptr) + size < WORD)
      ensures p != None ==> (p.value + size <= ptr <==> old(ptr) + size < WORD)
    {
      if (ptr + size) % WORD > HEAP_SIZE { return None; }
      p := Some(ptr);
      ptr := Align4((ptr + size) % WORD);
    }

    /** A new block that starts with the bytes of the old one, as far as those lie below the
        new block; what the copy reads beyond them is not the caller's.  Nothing below the old
        heap pointer changes.  Without an old block it is malloc; with one, a sum that wraps
        around would make the copy leave the heap. */
    method Realloc(p: Option<nat>, size: nat) returns (q: Option<nat>)
      requires Valid() && size < WORD && (p.Some? ==> p.value <= ptr && ptr + size < WORD)
      modifies this`ptr, mem
      ensures Valid()
      ensures if HEAP_SIZE < old(ptr) + size < WORD then q == None && ptr == old(ptr)
              else q == Some(old(ptr)) && ptr == Align4((old(ptr) + size) % WORD)
      ensures old(ptr) + size <= HEAP_SIZE ==> old(ptr) + size <= ptr
      ensures p.None? ==> mem[..] == old(mem[..])
      ensures forall i :: 0 <= i < old(ptr) ==> mem[i] == old(mem[i])
      ensures q.None? ==> mem[..] == old(mem[..])
      ensures p.Some? && q.Some? ==>
        forall k :: q.value <= k < q.value + size && k - q.value + p.value < q.value ==> mem[k] == old(mem[k - q.value + p.value])
    {
      assert ptr + size < WORD ==> (ptr + size) % WORD == ptr + size;
      q := Malloc(size);
      hide Align4;
      if p.None? || q.None? { return; }
      Memcpy(mem, q.value, p.value, size);
    }
  }

  /** Two requests to a fresh heap: 4 bytes, and then 2^32 - 1, which are granted at address 4
      and leave the pointer there.  The block reaches beyond the heap, and the next one will
      overlap it. */
  method WrappedRequest() returns (heap: Heap, first: Option<nat>, second: Option<nat>)
    ensures heap.Valid() && first == Some(0) && second == Some(4) && heap.ptr == 4
    ensures second.value + 0xFFFF_FFFF > HEAP_SIZE
  {
    heap := new Heap();
    first := heap.Malloc(4);
    second := heap.Malloc(0xFFFF_FFFF);
  }
}
