/**
 * `uninitialized_buffer<T, Properties...>`: a typed, alignment-aware buffer
 * that owns exactly one allocation from a memory resource it does not own.
 * It never constructs or destroys `T` objects; it only reserves bytes.
 *
 * The element type `T` enters the model only through its `Layout`: its size
 * and its alignment, the alignment being 2^alignLog and so a power of two.
 * Pointers are natural-number addresses; `None` is the null pointer.
 */
module UninitializedBuffers {
  import opened Bits
  import opened Resources

  datatype Option<T> = None | Some(value: T)

  /** `sizeof(T)` and `alignof(T)` of the element type. */
  datatype Layout = Layout(size: nat, alignLog: nat) {
    function Alignment(): (r: nat)
      ensures r >= 1
      ensures alignLog < WordBits ==> r < Word
    {
      if alignLog < WordBits then Pow2Monotonic(alignLog, WordBits); Pow2(alignLog) else Pow2(alignLog)
    }

    /** Both values are size_t constants. */
    predicate WellFormed()
    {
      size < Word && alignLog < WordBits
    }
  }

  /** `count * sizeof(T)`: the bytes the elements themselves take. */
  function Bytes(count: nat, layout: Layout): nat
  {
    count * layout.size
  }

  /** `count * sizeof(T) + alignof(T) - 1` fits in a size_t. */
  predicate NoOverflow(count: nat, layout: Layout)
  {
    Bytes(count, layout) + layout.Alignment() - 1 < Word
  }

  /**
   * `__get_allocation_size`: `(count * sizeof(T) + (alignof(T) - 1)) & ~(alignof(T) - 1)`
   * in size_t arithmetic, so the sum wraps modulo 2^64 and the mask
   * `~(alignof(T) - 1)` is `2^64 - alignof(T)`.
   */
  function AllocationSize(count: nat, layout: Layout): (r: nat)
    requires layout.WellFormed()
    ensures NoOverflow(count, layout) ==> IsAligned(r, layout.Alignment())
    ensures NoOverflow(count, layout) ==> Bytes(count, layout) <= r < Bytes(count, layout) + layout.Alignment()
  {
    var alignment := layout.Alignment();
    if NoOverflow(count, layout) then
      MaskedRoundUp(Bytes(count, layout), layout.alignLog);
      And((Bytes(count, layout) + (alignment - 1)) % Word, Word - alignment)
    else
      And((Bytes(count, layout) + (alignment - 1)) % Word, Word - alignment)
  }

  /**
   * Without overflow, the allocation size is `count * sizeof(T)` rounded up to
   * the next multiple of `alignof(T)`: aligned, large enough, and less than
   * one alignment step larger than needed.
   */
  lemma AllocationSizeRoundsUp(count: nat, layout: Layout)
    requires layout.WellFormed() && NoOverflow(count, layout)
    ensures var a, needed := layout.Alignment(), Bytes(count, layout);
            && AllocationSize(count, layout) == ((needed + a - 1) / a) * a
            && IsAligned(AllocationSize(count, layout), a)
            && needed <= AllocationSize(count, layout) < needed + a
  {
    MaskedRoundUp(Bytes(count, layout), layout.alignLog);
  }

  /**
   * When `sizeof(T)` is a multiple of `alignof(T)`, as C++ guarantees for
   * every complete type, the rounding adds nothing.
   */
  lemma AllocationSizeExact(count: nat, layout: Layout)
    requires layout.WellFormed() && NoOverflow(count, layout)
    requires IsAligned(layout.size, layout.Alignment())
    ensures AllocationSize(count, layout) == Bytes(count, layout)
  {
    var a := layout.Alignment();
    MultipleOfMultiple(count, layout.size, a);
    DivModUnique(Bytes(count, layout), a, count * (layout.size / a), 0);
    MaskedRoundUpOfAligned(Bytes(count, layout), layout.alignLog);
  }

  /**
   * The size computation is unchecked: for `count == 2^63` elements of a
   * 2-byte, 2-aligned type, `count * sizeof(T)` wraps to 0 and the buffer
   * would ask for 0 bytes although it reports 2^63 elements.
   */
  lemma AllocationSizeWraps()
    ensures var count, layout := Pow2(WordBits - 1), Layout(2, 1);
            && layout.WellFormed() && !NoOverflow(count, layout)
            && AllocationSize(count, layout) == 0
  {
    var count, layout := Pow2(WordBits - 1), Layout(2, 1);
    assert layout.Alignment() == 2;
    assert Bytes(count, layout) == Word;
    DivModUnique(Word + 1, Word, 1, 1);
    DivModUnique(Word - 2, 2, count - 1, 0);
    assert AllocationSize(count, layout) == And(1, Word - 2);
  }

  /**
   * `std::align(alignment, size, ptr, space)`: the first address at or above
   * `ptr` that is a multiple of `alignment`, provided `size` bytes from there
   * still lie inside `[ptr, ptr + space)`; otherwise null.
   */
  function StdAlign(alignment: nat, size: nat, ptr: nat, space: nat): (r: Option<nat>)
    requires alignment >= 1
    ensures r.Some? ==> IsAligned(r.value, alignment)
    ensures r.Some? ==> ptr <= r.value < ptr + alignment && r.value + size <= ptr + space
  {
    var adjust := (alignment - ptr % alignment) % alignment;
    RoundUpAligned(ptr, alignment);
    if adjust + size <= space then Some(ptr + adjust) else None
  }

  lemma RoundUpAligned(ptr: nat, alignment: nat)
    requires alignment >= 1
    ensures IsAligned(ptr + (alignment - ptr % alignment) % alignment, alignment)
    ensures forall q :: ptr <= q && IsAligned(q, alignment) ==> ptr + (alignment - ptr % alignment) % alignment <= q
  {
    var adjust := (alignment - ptr % alignment) % alignment;
    var base := ptr / alignment;
    assert ptr == alignment * base + ptr % alignment;
    if ptr % alignment == 0 {
      DivModUnique(alignment, alignment, 1, 0);
      assert adjust == 0;
    } else {
      DivModUnique(alignment - ptr % alignment, alignment, 0, alignment - ptr % alignment);
      assert ptr + adjust == alignment * (base + 1);
      DivModUnique(ptr + adjust, alignment, base + 1, 0);
      forall q | ptr <= q && IsAligned(q, alignment)
        ensures ptr + adjust <= q
      {
        var n := q / alignment;
        assert q == alignment * n;
        MulLessCancel(alignment, base, n);
        MulMonotonic(alignment, base + 1, n);
      }
    }
  }

  /** Storage that is already aligned is used as it is, when the bytes fit. */
  lemma StdAlignKeepsAlignedStart(alignment: nat, size: nat, ptr: nat, space: nat)
    requires alignment >= 1
    ensures IsAligned(ptr, alignment) && size <= space ==> StdAlign(alignment, size, ptr, space) == Some(ptr)
  {
    DivModUnique(alignment, alignment, 1, 0);
  }

  /** `std::align` fails only when no aligned address in the space has room for `size` bytes. */
  lemma StdAlignFailsOnlyWhenNothingFits(alignment: nat, size: nat, ptr: nat, space: nat)
    requires alignment >= 1
    ensures StdAlign(alignment, size, ptr, space).None? <==>
            forall q :: ptr <= q && IsAligned(q, alignment) ==> q + size > ptr + space
  {
    RoundUpAligned(ptr, alignment);
  }

  class UninitializedBuffer {
    /** The element type. */
    const layout: Layout
    /** `__mr_`: the resource the storage came from; the buffer does not own it. */
    var mr: MemoryResource
    /** `__count_`: the number of elements the storage is sized for. */
    var count: nat
    /** `__buf_`: the allocation, or null. */
    var buf: Option<nat>

    /**
     * The buffer owns storage exactly when it has elements, and that storage
     * is a non-null live allocation of its resource, of `AllocationSize(count)`
     * bytes at the default alignment `MaxAlign`, which it satisfies.
     */
    ghost predicate Valid()
      reads this, mr
    {
      && layout.WellFormed()
      && count < Word
      && NoOverflow(count, layout)
      && mr.Valid()
      && (count == 0 <==> buf == None)
      && (buf.Some? ==> buf.value > 0 && IsAligned(buf.value, MaxAlign))
      && (buf.Some? ==> buf.value in mr.Live() && mr.Live()[buf.value] == Block(AllocationSize(count, layout), MaxAlign))
    }

    /** The buffer and `other` do not own the same allocation. */
    ghost predicate OwnsDistinctStorage(other: UninitializedBuffer)
      reads this, other
    {
      mr == other.mr && buf.Some? && other.buf.Some? ==> buf.value != other.buf.value
    }

    /**
     * Allocates storage for `count` elements from `mr`; with `count == 0`
     * the resource is not called and the buffer holds null.
     */
    constructor (mr: MemoryResource, count: nat, layout: Layout)
      requires mr.Valid() && layout.WellFormed() && count < Word
      requires NoOverflow(count, layout)
      modifies mr
      ensures Valid()
      ensures this.mr == mr && this.count == count && this.layout == layout
      ensures count == 0 ==> buf == None && unchanged(mr)
      ensures count > 0 ==> buf.Some? && buf.value !in old(mr.Live())
      ensures count > 0 ==> mr.log == old(mr.log) + [AllocateCall(AllocationSize(count, layout), MaxAlign, buf.value)]
      ensures count > 0 ==> mr.Live() == old(mr.Live())[buf.value := Block(AllocationSize(count, layout), MaxAlign)]
    {
      var storage: Option<nat> := None;
      if count != 0 {
        var addr := mr.Allocate(AllocationSize(count, layout), MaxAlign);
        storage := Some(addr);
      }
      this.layout := layout;
      this.mr := mr;
      this.count := count;
      this.buf := storage;
    }

    /** Move construction: takes over `other`'s storage and leaves `other` empty. */
    constructor MoveFrom(other: UninitializedBuffer)
      requires other.Valid()
      modifies other
      ensures Valid() && other.Valid()
      ensures layout == other.layout
      ensures mr == old(other.mr) && count == old(other.count) && buf == old(other.buf)
      ensures other.mr == old(other.mr) && other.count == 0 && other.buf == None
      ensures unchanged(mr)
    {
      layout := other.layout;
      mr := other.mr;
      count := other.count;
      buf := other.buf;
      new;
      other.count := 0;
      other.buf := None;
    }

    /**
     * Move assignment: gives back this buffer's own storage, with the size it
     * was allocated with, then takes over `other`'s and leaves `other` empty.
     * Assigning a buffer to itself therefore frees its storage once and
     * leaves it empty.
     */
    method MoveAssign(other: UninitializedBuffer)
      requires Valid() && other.Valid() && other.layout == layout
      requires this != other ==> OwnsDistinctStorage(other)
      modifies this, other, mr
      ensures Valid() && other.Valid()
      ensures this != other ==> mr == old(other.mr) && count == old(other.count) && buf == old(other.buf)
      ensures this == other ==> mr == old(mr) && count == 0 && buf == None
      ensures other.mr == old(other.mr) && other.count == 0 && other.buf == None
      ensures old(buf).None? ==> unchanged(old(mr))
      ensures old(buf).Some? ==>
                old(mr).log == old(mr.log) + [DeallocateCall(old(buf).value, AllocationSize(old(count), layout), MaxAlign)]
      ensures old(buf).Some? ==> old(mr).Live() == old(mr.Live()) - {old(buf).value}
    {
      if buf.Some? {
        mr.Deallocate(buf.value, AllocationSize(count, layout), MaxAlign);
      }
      mr := other.mr;
      count := other.count;
      buf := other.buf;
      other.count := 0;
      other.buf := None;
    }

    /**
     * The destructor: gives back exactly the allocation the buffer owns, with
     * the size it was allocated with; an empty or moved-from buffer makes no call.
     */
    method Destroy()
      requires Valid()
      modifies mr
      ensures mr.Valid()
      ensures buf.None? ==> unchanged(mr)
      ensures buf.Some? ==> mr.log == old(mr.log) + [DeallocateCall(buf.value, AllocationSize(count, layout), MaxAlign)]
      ensures buf.Some? ==> mr.Live() == old(mr.Live()) - {buf.value}
    {
      if buf.Some? {
        mr.Deallocate(buf.value, AllocationSize(count, layout), MaxAlign);
      }
    }

    /**
     * `__get_data`: `std::align` over `[buf, buf + AllocationSize(count))` for
     * `count * sizeof(T)` bytes (a size_t product). A null base gives null.
     * The result is aligned for `T` and its elements lie inside the allocation.
     */
    function GetData(): (r: Option<nat>)
      reads this
      requires layout.WellFormed()
      ensures buf.None? ==> r.None?
      ensures r.Some? ==> buf.Some? && IsAligned(r.value, layout.Alignment()) && buf.value <= r.value
      ensures r.Some? ==> r.value + (Bytes(count, layout)) % Word <= buf.value + AllocationSize(count, layout)
    {
      match buf
      case None => None
      case Some(base) =>
        StdAlign(layout.Alignment(), (Bytes(count, layout)) % Word, base, AllocationSize(count, layout))
    }

    /**
     * The allocation size reserves no room for realigning: for a type whose
     * size is a multiple of its alignment, storage handed out at an address
     * that is not aligned for `T` leaves `std::align` nowhere to put the
     * elements, and `__get_data` is null although the buffer is not empty.
     * The storage comes at the default alignment, so this happens only for an
     * over-aligned `T`.
     */
    lemma MisalignedStorageHasNoData()
      requires Valid() && buf.Some?
      requires IsAligned(layout.size, layout.Alignment()) && !IsAligned(buf.value, layout.Alignment())
      ensures layout.Alignment() > MaxAlign
      ensures count > 0 && GetData() == None
    {
      var a := layout.Alignment();
      if a <= MaxAlign {
        AlignedToSmallerPower(buf.value, layout.alignLog, MaxAlignLog);
        assert false;
      }
      AllocationSizeExact(count, layout);
      DivModUnique(Bytes(count, layout), Word, 0, Bytes(count, layout));
      DivModUnique(a - buf.value % a, a, 0, a - buf.value % a);
    }

    /**
     * `begin()`: the aligned start of the elements. When the resource handed
     * out storage already aligned for `T`, that is the storage itself.
     */
    function Begin(): (r: Option<nat>)
      reads this, mr
      requires Valid()
      ensures r.Some? ==> IsAligned(r.value, layout.Alignment())
      ensures r.Some? ==> buf.Some? && buf.value <= r.value
      ensures r.Some? ==> r.value + Bytes(count, layout) <= buf.value + AllocationSize(count, layout)
      ensures buf.Some? && IsAligned(buf.value, layout.Alignment()) ==> r == buf
      ensures buf.Some? && layout.Alignment() <= MaxAlign ==> r == buf
    {
      AllocationSizeRoundsUp(count, layout);
      DivModUnique(Bytes(count, layout), Word, 0, Bytes(count, layout));
      if buf.Some? then
        var a := layout.Alignment();
        StdAlignKeepsAlignedStart(a, Bytes(count, layout), buf.value, AllocationSize(count, layout));
        if a <= MaxAlign then
          AlignedToSmallerPower(buf.value, layout.alignLog, MaxAlignLog);
          GetData()
        else
          GetData()
      else
        GetData()
    }

    /** `data()`: the same pointer as `begin()`; null for an empty buffer. */
    function Data(): (r: Option<nat>)
      reads this, mr
      requires Valid()
      ensures r == Begin()
      ensures count == 0 ==> r.None?
    {
      GetData()
    }

    /**
     * For every `T` whose alignment the resource's default alignment covers,
     * a non-empty buffer's `data()` is non-null and is the storage itself.
     */
    lemma DataIsStorage()
      requires Valid() && count > 0 && layout.Alignment() <= MaxAlign
      ensures Data().Some? && Data() == buf
    {
    }

    /**
     * `end()`: `begin() + count` in elements, which is still inside the
     * allocation. A null `begin()` of an empty buffer gives a null `end()`.
     */
    function End(): (r: Option<nat>)
      reads this, mr
      requires Valid()
      ensures r.Some? <==> Begin().Some?
      ensures r.Some? ==> r.value - Begin().value == Bytes(count, layout)
      ensures r.Some? ==> r.value <= buf.value + AllocationSize(count, layout)
    {
      match GetData()
      case None => None
      case Some(first) => Some(first + Bytes(count, layout))
    }

    /** `size()`: the element count, zero exactly when the buffer holds no storage. */
    function Size(): (r: nat)
      reads this, mr
      requires Valid()
      ensures r == count
      ensures r == 0 <==> buf.None?
    {
      count
    }

    /** `resource()`: the resource that holds the buffer's allocation. */
    function Resource(): (r: MemoryResource)
      reads this, mr
      requires Valid()
      ensures r == mr
      ensures buf.Some? ==> buf.value in r.Live()
    {
      mr
    }

    /** Exchanges resource, count and storage with `other`; no resource is called. */
    method Swap(other: UninitializedBuffer)
      requires Valid() && other.Valid() && other.layout == layout
      modifies this, other
      ensures Valid() && other.Valid()
      ensures mr == old(other.mr) && count == old(other.count) && buf == old(other.buf)
      ensures other.mr == old(mr) && other.count == old(count) && other.buf == old(buf)
      ensures unchanged(old(mr), old(other.mr))
    {
      var m := mr;
      mr := other.mr;
      other.mr := m;
      var c := count;
      count := other.count;
      other.count := c;
      var b := buf;
      buf := other.buf;
      other.buf := b;
    }
  }
}
