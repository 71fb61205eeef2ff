/** Clients of the heap as it is in memory: each of their stores, and each call of
    `kmalloc` and `kfree`, is a step of the runs of `Acceptance`. */
module HeapUse {
  import opened Words
  import opened Leaves
  import opened Paging
  import opened Blocks
  import opened HeapWords
  import opened HeapSteps
  import opened Forgery
  import opened Acceptance
  import opened Heap

  /** The heap of the kernel as a value. */
  ghost function StateOf(heap: KernelHeap): HeapState
    reads heap, heap.space, heap.space.ram, heap.space.pmm, heap.space.pmm.bitmap
  {
    HeapState(heap.Flat(), heap.blocks)
  }

  /** A trusted heap, such as `heap_init` leaves, is where runs begin. */
  lemma RunsBegin(heap: KernelHeap)
    requires heap.Valid() && heap.Trusted()
    ensures Kept(StateOf(heap)) && AllGenuine(StateOf(heap)) && heap.Clean()
  {
    hide AddressSpace.Valid, WindowMapped, ListOk, Coalesced, Genuine, KernelHeap.Flat, KernelHeap.Clean,
      AddressSpace.View;
  }

  /** `kmalloc` takes a step, unless it fails and leaves heap and break as they were. */
  method TakeStep(heap: KernelHeap, size: u32) returns (ptr: u32, ghost c: Action)
    requires heap.Valid() && heap.Trusted() && size <= 0xFFFF_EFF0
    requires StopsInTime(heap.brk, heap.space.View().free, GrowthPages(heap.RequestWords(size)))
    modifies heap`brk, heap`blocks, heap.space`tableCount, heap.space`mappedPages, heap.space.ram, heap.space.pmm,
      heap.space.pmm.bitmap
    ensures heap.Valid() && heap.Trusted()
    ensures ptr == 0 ==> StateOf(heap) == old(StateOf(heap)) && heap.brk == old(heap.brk)
    ensures ptr != 0 ==> !c.Write? && Steps(old(StateOf(heap)), c, StateOf(heap))
  {
    hide KernelHeap.Valid, KernelHeap.Trusted, KernelHeap.Flat, KernelHeap.Clean, KernelHeap.CanExtend, Granted,
      HandedWords, Alloc, AllocAt, HasFit, Extend, GrowthPages, StopsInTime, GrownBy, AddressSpace.View;
    ghost var n, fits := heap.RequestWords(size), HasFit(heap.blocks, heap.RequestWords(size));
    RunsBegin(heap);
    heap.Up();
    Requested(size, n);
    ptr := heap.Kmalloc(size);
    c := if fits then Take(n) else TakeMore(n, 1024 * GrowthPages(n));
  }

  lemma Requested(size: u32, n: nat)
    requires n == (size + 7) / 8 * 2
    ensures n % 2 == 0 && (size > 0 ==> n >= 2) && GrowthPages(n) >= 1
  {
  }

  /** `kfree` of any pointer takes one exactly when the pointer is live, and else
      changes nothing. */
  method GiveStep(heap: KernelHeap, ptr: u32) returns (r: FreeResult)
    requires heap.Valid() && heap.Trusted() && ptr % 4 == 0
    modifies heap`blocks, heap.space.ram
    ensures heap.Valid() && heap.Trusted() && (r.Taken? <==> old(heap.IsLive(ptr)))
    ensures if r.Taken? then Steps(old(StateOf(heap)), Give(HeaderWord(ptr)), StateOf(heap))
            else StateOf(heap) == old(StateOf(heap))
  {
    hide KernelHeap.Valid, KernelHeap.Trusted, KernelHeap.Flat, KernelHeap.Clean, LooksLive, Live, Freed, FreedWords,
      Free, CutsEnd, AddressSpace.View;
    heap.NothingForged(ptr);
    r := heap.Kfree(ptr);
  }

  /** So does a client's store, which keeps the heap trusted exactly if it is fair. */
  method WriteStep(heap: KernelHeap, addr: u32, v: u32, ghost k: nat)
    requires heap.Valid() && addr == Addr(k) && InPayload(heap.blocks, 0, k)
    modifies heap.space.ram
    ensures heap.Valid() && Steps(old(StateOf(heap)), Write(k, v), StateOf(heap))
    ensures old(heap.Trusted()) ==> (heap.Trusted() <==> Fair(old(StateOf(heap)), Write(k, v)))
  {
    hide KernelHeap.Valid, KernelHeap.Trusted, Leaves.Flat, KernelHeap.Clean, InPayload, Spares, AddressSpace.View;
    heap.Poke(addr, v, k);
  }
}
