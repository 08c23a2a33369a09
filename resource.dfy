/**
 * The memory resource a buffer allocates from. The real resources sit behind
 * a type-erased `resource_ref`; here one stand-in resource records every
 * `allocate`/`deallocate` call it receives in a ghost log, from which the map
 * of live allocations (address -> size in bytes) is derived.
 */
module Resources {
  import opened Bits

  /**
   * `alignof(cuda::std::max_align_t)`, the alignment `allocate` and
   * `deallocate` use when the caller passes none: 16 bytes on the 64-bit
   * targets the library supports.
   */
  const MaxAlignLog: nat := 4
  const MaxAlign: nat := Pow2(MaxAlignLog)

  datatype Call =
    | AllocateCall(bytes: nat, alignment: nat, addr: nat)
    | DeallocateCall(addr: nat, bytes: nat, alignment: nat)

  /** A live allocation: its size in bytes and the alignment it was requested with. */
  datatype Block = Block(bytes: nat, alignment: nat)

  /** The allocations that a call log leaves live, as address -> block. */
  ghost function LiveOf(log: seq<Call>): map<nat, Block>
  {
    if log == [] then map[]
    else
      var live := LiveOf(log[..|log| - 1]);
      match log[|log| - 1]
      case AllocateCall(bytes, alignment, addr) => live[addr := Block(bytes, alignment)]
      case DeallocateCall(addr, _, _) => live - {addr}
  }

  /**
   * Every `allocate` returned an address that was not live, and every
   * `deallocate` named a live allocation together with the size and the
   * alignment it was allocated with.
   */
  ghost predicate WellPaired(log: seq<Call>)
  {
    log == [] ||
    (var before := log[..|log| - 1];
     WellPaired(before) &&
     match log[|log| - 1]
     case AllocateCall(_, _, addr) => addr !in LiveOf(before)
     case DeallocateCall(addr, bytes, alignment) =>
       addr in LiveOf(before) && LiveOf(before)[addr] == Block(bytes, alignment))
  }

  function AllocateCalls(log: seq<Call>): nat
  {
    if log == [] then 0
    else AllocateCalls(log[..|log| - 1]) + (if log[|log| - 1].AllocateCall? then 1 else 0)
  }

  function DeallocateCalls(log: seq<Call>): nat
  {
    if log == [] then 0
    else DeallocateCalls(log[..|log| - 1]) + (if log[|log| - 1].DeallocateCall? then 1 else 0)
  }

  /**
   * Allocations and deallocations pair up: every allocation is either still
   * live or has been given back by exactly one deallocation.
   */
  lemma {:induction false} CallsBalance(log: seq<Call>)
    requires WellPaired(log)
    ensures AllocateCalls(log) == DeallocateCalls(log) + |LiveOf(log)|
  {
    if log != [] {
      var before := log[..|log| - 1];
      CallsBalance(before);
      var live := LiveOf(before);
      match log[|log| - 1]
      case AllocateCall(bytes, alignment, addr) =>
        assert live[addr := Block(bytes, alignment)].Keys == live.Keys + {addr};
      case DeallocateCall(addr, _, _) =>
        assert (live - {addr}).Keys == live.Keys - {addr};
    }
  }

  /** Once nothing is live, there were exactly as many deallocations as allocations. */
  lemma NothingLiveMeansBalanced(log: seq<Call>)
    requires WellPaired(log) && LiveOf(log) == map[]
    ensures AllocateCalls(log) == DeallocateCalls(log)
  {
    CallsBalance(log);
  }

  class MemoryResource {
    /** Every call made to this resource, oldest first. */
    ghost var log: seq<Call>
    /** Where the next allocation starts (a bump allocator stands in for the real one). */
    var next: nat

    ghost predicate Valid()
      reads this
    {
      WellPaired(log) && forall addr :: addr in LiveOf(log) ==> addr < next
    }

    ghost function Live(): map<nat, Block>
      reads this
    {
      LiveOf(log)
    }

    constructor ()
      ensures Valid() && log == [] && Live() == map[]
    {
      log := [];
      next := 0;
    }

    /**
     * `allocate(bytes, alignment)`: hands out non-null storage, aligned as
     * asked, that is not live, and records it.
     */
    method Allocate(bytes: nat, alignment: nat) returns (addr: nat)
      requires Valid() && alignment >= 1
      modifies this
      ensures Valid()
      ensures addr > 0 && IsAligned(addr, alignment)
      ensures addr !in old(Live())
      ensures log == old(log) + [AllocateCall(bytes, alignment, addr)]
      ensures Live() == old(Live())[addr := Block(bytes, alignment)]
    {
      var slot := next / alignment + 1;
      addr := alignment * slot;
      assert addr == alignment * (next / alignment) + alignment;
      MulAtLeast(alignment, slot);
      DivModUnique(addr, alignment, slot, 0);
      next := addr + bytes + 1;
      log := log + [AllocateCall(bytes, alignment, addr)];
      assert log[..|log| - 1] == old(log);
    }

    /**
     * `deallocate(addr, bytes, alignment)`: gives back a live allocation with
     * the size and the alignment it was allocated with.
     */
    method Deallocate(addr: nat, bytes: nat, alignment: nat)
      requires Valid()
      requires addr in Live() && Live()[addr] == Block(bytes, alignment)
      modifies this
      ensures Valid()
      ensures log == old(log) + [DeallocateCall(addr, bytes, alignment)]
      ensures Live() == old(Live()) - {addr}
    {
      log := log + [DeallocateCall(addr, bytes, alignment)];
      assert log[..|log| - 1] == old(log);
    }
  }
}
