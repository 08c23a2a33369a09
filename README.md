# uninitialized_buffer, modelled in Dafny

A model of `cuda::experimental::uninitialized_buffer<T, Properties...>` from
CCCL's cudax library. The buffer is typed and alignment-aware. It owns exactly
one allocation, which it gets from a memory resource that it references but
does not own. It never constructs or destroys `T` objects: it only reserves
bytes and hands out an aligned pointer to them.

The project has four modules:

- `Bits` (bits.dfy): `size_t` arithmetic. It has powers of two and the word
  size 2^64. It defines bitwise AND on naturals and proves that the mask
  `~(2^k - 1)` rounds down to a multiple of 2^k.
- `Resources` (resource.dfy): the memory resource the buffer talks to. It is a
  class whose ghost log records every `allocate(bytes, alignment)` and
  `deallocate(addr, bytes, alignment)` call. The map of live allocations
  (address to size and alignment) is derived from that log. `allocate`
  returns a non-null address aligned as asked. `deallocate` may only be given
  a live address together with the size and alignment it was allocated with.
  The buffer passes neither alignment explicitly, so both calls use the
  default, `alignof(max_align_t)`, which the model fixes at 16 (`MaxAlign`).
- `UninitializedBuffers` (buffer.dfy): the buffer itself. It covers
  `__get_allocation_size`, `std::align` as `__get_data` uses it, and the class
  `UninitializedBuffer`. The class has the fields `mr`, `count` and `buf`. Its
  members are the allocating constructor, the move constructor, move
  assignment, the destructor (`Destroy`), `begin`, `end`, `data`, `size`,
  `resource` and `swap`.
- `BufferLifecycle` (lifecycle.dfy): whole buffer lifetimes written as client
  code against the class contracts. They show which resource calls are made,
  in which order and with which sizes.

The element type `T` is represented by a `Layout(size, alignLog)`. Here
`alignof(T)` is 2^alignLog, so it is a power of two by construction. Pointers
are natural-number addresses, and `None` is the null pointer.

The object invariant `UninitializedBuffer.Valid()` is set up by every
constructor and kept by every method except `Destroy`, after which the buffer
is gone. It says three things:

- the buffer holds storage exactly when `count > 0`;
- that storage is a non-null live allocation of its own resource, aligned to
  `MaxAlign`;
- the allocation's size is `AllocationSize(count)`, at alignment `MaxAlign`.

Because `deallocate` demands a live address with its allocation size, this
invariant is what proves the central promise: every deallocation the buffer
makes returns exactly the `(address, size)` pair it allocated.

Two observations come out of the proofs:

- `__get_allocation_size` only rounds `count * sizeof(T)` up to a multiple of
  `alignof(T)`. It leaves no slack for realignment. For every ordinary `T`
  (`alignof(T) <= alignof(max_align_t)`) this does no harm: the storage comes
  back at the default alignment, and `data()` of a non-empty buffer is the
  storage itself (`UninitializedBuffer.DataIsStorage`). For an over-aligned
  `T`, the storage need not be aligned for `T`. When it is not, and
  `sizeof(T)` is a multiple of `alignof(T)`, `std::align` fails and `data()`
  is null although the buffer is not empty
  (`UninitializedBuffer.MisalignedStorageHasNoData`).
- The size computation does not check for `size_t` overflow
  (`AllocationSizeWraps`).

## Model

| member | source | states |
|---|---|---|
| `Bits.AndMask` | cudax/include/cuda/experimental/__container/uninitialized_buffer.h:74 | for x < 2^w, AND-ing x with the mask whose bits k..w-1 are set gives x rounded down to a multiple of 2^k |
| `Bits.MaskedRoundUp` | cudax/include/cuda/experimental/__container/uninitialized_buffer.h:74 | `(n + (a - 1)) & ~(a - 1)` on 64-bit words, with a = 2^k and no wrap-around, is n rounded up to a multiple of a: it is aligned and lies in [n, n + a) |
| `UninitializedBuffers.AllocationSize` | cudax/include/cuda/experimental/__container/uninitialized_buffer.h:71-75 | without overflow the allocation size is a multiple of alignof(T), at least count*sizeof(T), and less than count*sizeof(T) + alignof(T) |
| `UninitializedBuffers.AllocationSizeRoundsUp` | cudax/include/cuda/experimental/__container/uninitialized_buffer.h:71-75 | without overflow the allocation size equals ((count*sizeof(T) + alignof(T) - 1) / alignof(T)) * alignof(T), is a multiple of alignof(T), is at least count*sizeof(T) and is less than count*sizeof(T) + alignof(T) |
| `UninitializedBuffers.AllocationSizeExact` | cudax/include/cuda/experimental/__container/uninitialized_buffer.h:93-99 | when sizeof(T) is a multiple of alignof(T), the allocation size is exactly count*sizeof(T), so "might be larger" never applies then |
| `UninitializedBuffers.AllocationSizeWraps` | cudax/include/cuda/experimental/__container/uninitialized_buffer.h:71-75 | the unchecked size_t arithmetic wraps: 2^63 elements of a 2-byte, 2-aligned type get an allocation size of 0 |
| `UninitializedBuffers.StdAlign` | cudax/include/cuda/experimental/__container/uninitialized_buffer.h:83-84 | a non-null result of std::align is aligned, lies in [ptr, ptr + alignment), and leaves room for `size` bytes before ptr + space |
| `UninitializedBuffers.StdAlignKeepsAlignedStart` | cudax/include/cuda/experimental/__container/uninitialized_buffer.h:83-84 | std::align returns an already aligned ptr unchanged when the bytes fit in the space |
| `UninitializedBuffers.StdAlignFailsOnlyWhenNothingFits` | cudax/include/cuda/experimental/__container/uninitialized_buffer.h:83-84 | std::align returns null if and only if no aligned address at or above ptr has room for `size` bytes within the space |
| `UninitializedBuffers.UninitializedBuffer.MisalignedStorageHasNoData` | cudax/include/cuda/experimental/__container/uninitialized_buffer.h:78-85 | for a type whose size is a multiple of its alignment, a non-empty buffer whose storage is not aligned for T gets a null `__get_data`, and this can only happen when alignof(T) exceeds the default alignment |
| `UninitializedBuffers.UninitializedBuffer.DataIsStorage` | cudax/include/cuda/experimental/__container/uninitialized_buffer.h:78-85 | when alignof(T) is at most the default alignment, data() of a non-empty buffer is non-null and is the storage itself |
| `UninitializedBuffers.UninitializedBuffer.GetData` | cudax/include/cuda/experimental/__container/uninitialized_buffer.h:78-85 | `__get_data` is null for a null buffer; otherwise a non-null result is aligned for T, is at or after the storage start, and its count*sizeof(T) bytes end inside the allocation |
| `UninitializedBuffers.UninitializedBuffer.Begin` | cudax/include/cuda/experimental/__container/uninitialized_buffer.h:146-150 | begin() is aligned for T and its count elements lie inside the allocation; when the storage is already aligned, or alignof(T) is at most the default alignment, begin() is the storage start |
| `UninitializedBuffers.UninitializedBuffer.Data` | cudax/include/cuda/experimental/__container/uninitialized_buffer.h:158-162 | data() is the same pointer as begin(), and it is null for an empty buffer |
| `UninitializedBuffers.UninitializedBuffer.End` | cudax/include/cuda/experimental/__container/uninitialized_buffer.h:152-156 | end() is non-null exactly when begin() is, end() - begin() is count elements, and end() does not pass the end of the allocation |
| `UninitializedBuffers.UninitializedBuffer.Size` | cudax/include/cuda/experimental/__container/uninitialized_buffer.h:164-168 | size() is the element count, and it is zero exactly when the buffer holds no storage |
| `UninitializedBuffers.UninitializedBuffer.Resource` | cudax/include/cuda/experimental/__container/uninitialized_buffer.h:170-177 | resource() is the resource the buffer was built with, and that resource holds the buffer's storage as a live allocation |
| `UninitializedBuffers.UninitializedBuffer.constructor` | cudax/include/cuda/experimental/__container/uninitialized_buffer.h:93-103 | with count == 0 the resource is untouched and the storage is null; otherwise exactly one allocate(AllocationSize(count)) call at the default alignment is made, and its fresh address is stored and becomes live |
| `UninitializedBuffers.UninitializedBuffer.MoveFrom` | cudax/include/cuda/experimental/__container/uninitialized_buffer.h:108-117 | the new buffer gets the source's original (resource, count, storage); the source keeps its resource with count 0 and null storage; no resource is called |
| `UninitializedBuffers.UninitializedBuffer.MoveAssign` | cudax/include/cuda/experimental/__container/uninitialized_buffer.h:119-133 | the target's own storage, if any, is deallocated first through its old resource with AllocationSize(old count); then the target takes the source's three fields and the source is left empty; assigning a buffer to itself frees its storage once and leaves it empty; both buffers stay valid |
| `UninitializedBuffers.UninitializedBuffer.Destroy` | cudax/include/cuda/experimental/__container/uninitialized_buffer.h:135-144 | a buffer with storage makes exactly one deallocate call, with the address and size of its allocation, which stops being live; a buffer without storage leaves the resource untouched |
| `UninitializedBuffers.UninitializedBuffer.Swap` | cudax/include/cuda/experimental/__container/uninitialized_buffer.h:179-186 | resource, count and storage are exchanged exactly, both buffers stay valid, and neither resource changes |
| `Resources.MemoryResource.Allocate` | cudax/include/cuda/experimental/__container/uninitialized_buffer.h:102 | allocate returns a non-null address aligned as requested that is not live, logs the call and makes that address live with the requested size and alignment |
| `Resources.MemoryResource.Deallocate` | cudax/include/cuda/experimental/__container/uninitialized_buffer.h:125 | deallocate accepts only a live address with the size and alignment it was allocated with; it logs the call and ends that allocation |
| `Resources.CallsBalance` | cudax/include/cuda/experimental/__container/uninitialized_buffer.h:138-144 | in a call log where every deallocate matches a live allocation, the number of allocations equals the number of deallocations plus the number of live allocations |
| `Resources.NothingLiveMeansBalanced` | cudax/include/cuda/experimental/__container/uninitialized_buffer.h:138-144 | once nothing is live, allocate and deallocate calls pair up one to one |
| `BufferLifecycle.EmptyBufferMakesNoCalls` | cudax/include/cuda/experimental/__container/uninitialized_buffer.h:98-103 | constructing and destroying a zero-length buffer makes no resource call at all |
| `BufferLifecycle.AllocationIsReturned` | cudax/include/cuda/experimental/__container/uninitialized_buffer.h:138-144 | construct-then-destroy makes exactly one allocate and one deallocate, with the same address and size, and leaves the live allocations as they were |
| `BufferLifecycle.MoveThenDestroyBoth` | cudax/include/cuda/experimental/__container/uninitialized_buffer.h:110-117 | after a move construction, destroying both buffers returns the storage exactly once, because the moved-from destructor does nothing |
| `BufferLifecycle.MoveAssignReturnsOldStorage` | cudax/include/cuda/experimental/__container/uninitialized_buffer.h:121-133 | move assignment returns the target's old storage before taking the source's; after both buffers are destroyed, each allocation has been returned once with its own size |
| `BufferLifecycle.SelfMoveAssignFreesOnce` | cudax/include/cuda/experimental/__container/uninitialized_buffer.h:121-131 | move-assigning a non-empty buffer to itself deallocates its storage exactly once, and its destructor then makes no further call |
| `BufferLifecycle.SwapTwiceRestores` | cudax/include/cuda/experimental/__container/uninitialized_buffer.h:181-186 | swapping twice restores both buffers' fields, and no resource is touched |

## Left out

- The device handle and the scoped device guard: their sources are not part of this model.
- `resource_ref` type erasure, the property list and the real memory resources. One stand-in resource class takes their place: a bump allocator whose contract is all the buffer relies on.
- The `get_property` friend and the `uninitialized_device_buffer` alias: they only forward capabilities at compile time and do nothing at run time.
- Allocation failure: `allocate` throwing, which leaves no buffer, is not modelled. The stand-in resource always succeeds.
- `std::launder` and `reinterpret_cast`. Pointers are unbounded natural addresses, so address arithmetic does not wrap at 2^64.
- The libcu++ implementation of `std::align` is not part of this model. `StdAlign` follows the C++ standard's description of `std::align`. The updated `space` out-parameter is not modelled because `__get_data` does not use it.
- `UninitializedBuffers.UninitializedBuffer.constructor`: requires `count * sizeof(T) + alignof(T) - 1` to fit in a `size_t`. The source does not check this, and `AllocationSizeWraps` shows the size it computes when the sum wraps. The invariant `Valid()` carries the same bound.
- `UninitializedBuffers.UninitializedBuffer.MoveAssign`: requires two different buffers not to own the same allocation. Unique ownership comes from the deleted copy operations in the source; the model states it instead.
- The `resource_ref` header that declares `allocate` and `deallocate` is not part of this model. Their defaulted alignment argument is taken to be `alignof(max_align_t)`, fixed at 16 (`MaxAlign`); a target with a different value changes only that constant.
- `UninitializedBuffers.UninitializedBuffer.End`: when `begin()` is null for a non-empty buffer (misaligned storage), the source computes `nullptr + count`, which C++ leaves undefined. The model returns null there.
- `UninitializedBuffers.UninitializedBuffer.Destroy` does not mark the buffer as dead. Destroying it a second time is excluded only because `Valid()` no longer holds once its allocation is gone.
- The `uninitialized_buffer&` that move assignment returns is not modelled.
- `_CCCL_HOST_DEVICE`, `constexpr`, `noexcept` and the preprocessor guards have no run-time behaviour to model.
