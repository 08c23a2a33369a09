/**
 * Whole lifetimes of buffers, written as client code against the contracts of
 * `UninitializedBuffer` alone: which calls reach the memory resource, in which
 * order, and with which sizes.
 */
module BufferLifecycle {
  import opened Bits
  import opened Resources
  import opened UninitializedBuffers

  /** A zero-length buffer never calls its resource, from construction to destruction. */
  method EmptyBufferMakesNoCalls(mr: MemoryResource, layout: Layout)
    requires mr.Valid() && layout.WellFormed()
    modifies mr
    ensures mr.log == old(mr.log)
  {
    var b := new UninitializedBuffer(mr, 0, layout);
    assert b.Size() == 0 && b.Data() == None && b.End() == None;
    b.Destroy();
  }

  /**
   * Construction followed by destruction makes one `allocate` and one
   * `deallocate` of the same address and size, and leaves the resource's
   * live allocations as they were.
   */
  method AllocationIsReturned(mr: MemoryResource, count: nat, layout: Layout) returns (addr: nat)
    requires mr.Valid() && layout.WellFormed() && 0 < count < Word && NoOverflow(count, layout)
    modifies mr
    ensures mr.Valid()
    ensures mr.log == old(mr.log) + [AllocateCall(AllocationSize(count, layout), MaxAlign, addr),
                                     DeallocateCall(addr, AllocationSize(count, layout), MaxAlign)]
    ensures mr.Live() == old(mr.Live())
  {
    var b := new UninitializedBuffer(mr, count, layout);
    addr := b.buf.value;
    b.Destroy();
    assert mr.Live() == old(mr.Live());
  }

  /**
   * Move construction followed by destroying both buffers: the moved-from
   * destructor does nothing, so the storage is given back exactly once.
   */
  method MoveThenDestroyBoth(mr: MemoryResource, count: nat, layout: Layout) returns (addr: nat)
    requires mr.Valid() && layout.WellFormed() && 0 < count < Word && NoOverflow(count, layout)
    modifies mr
    ensures mr.Valid()
    ensures mr.log == old(mr.log) + [AllocateCall(AllocationSize(count, layout), MaxAlign, addr),
                                     DeallocateCall(addr, AllocationSize(count, layout), MaxAlign)]
    ensures mr.Live() == old(mr.Live())
  {
    var source := new UninitializedBuffer(mr, count, layout);
    addr := source.buf.value;
    var target := new UninitializedBuffer.MoveFrom(source);
    assert source.Size() == 0 && source.Data() == None;
    source.Destroy();
    target.Destroy();
    assert mr.Live() == old(mr.Live());
  }

  /**
   * Move assignment into a buffer that owns storage gives that storage back
   * first; after both buffers are destroyed each allocation was returned once,
   * with its own size.
   */
  method MoveAssignReturnsOldStorage(mr: MemoryResource, n: nat, m: nat, layout: Layout)
    returns (first: nat, second: nat)
    requires mr.Valid() && layout.WellFormed()
    requires 0 < n < Word && NoOverflow(n, layout) && 0 < m < Word && NoOverflow(m, layout)
    modifies mr
    ensures mr.Valid() && first != second
    ensures mr.log == old(mr.log) + [AllocateCall(AllocationSize(n, layout), MaxAlign, first),
                                     AllocateCall(AllocationSize(m, layout), MaxAlign, second),
                                     DeallocateCall(first, AllocationSize(n, layout), MaxAlign),
                                     DeallocateCall(second, AllocationSize(m, layout), MaxAlign)]
  {
    var target := new UninitializedBuffer(mr, n, layout);
    first := target.buf.value;
    var source := new UninitializedBuffer(mr, m, layout);
    second := source.buf.value;
    target.MoveAssign(source);
    source.Destroy();
    target.Destroy();
  }

  /**
   * Move-assigning a buffer to itself gives its storage back once and leaves
   * it empty, so its destructor then makes no further call.
   */
  method SelfMoveAssignFreesOnce(mr: MemoryResource, count: nat, layout: Layout) returns (addr: nat)
    requires mr.Valid() && layout.WellFormed() && 0 < count < Word && NoOverflow(count, layout)
    modifies mr
    ensures mr.Valid()
    ensures mr.log == old(mr.log) + [AllocateCall(AllocationSize(count, layout), MaxAlign, addr),
                                     DeallocateCall(addr, AllocationSize(count, layout), MaxAlign)]
    ensures mr.Live() == old(mr.Live())
  {
    var b := new UninitializedBuffer(mr, count, layout);
    addr := b.buf.value;
    b.MoveAssign(b);
    assert b.Size() == 0 && b.Data() == None;
    b.Destroy();
    assert mr.Live() == old(mr.Live());
  }

  /** Swapping twice restores both buffers, and swapping never calls a resource. */
  method SwapTwiceRestores(a: UninitializedBuffer, b: UninitializedBuffer)
    requires a.Valid() && b.Valid() && a.layout == b.layout
    modifies a, b
    ensures a.Valid() && b.Valid()
    ensures a.mr == old(a.mr) && a.count == old(a.count) && a.buf == old(a.buf)
    ensures b.mr == old(b.mr) && b.count == old(b.count) && b.buf == old(b.buf)
    ensures unchanged(old(a.mr), old(b.mr))
  {
    a.Swap(b);
    a.Swap(b);
  }
}
