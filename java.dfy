/**
 * `api::sdk::java`: local copies of a remote Java array header and of a
 * remote native buffer, and element reads through them.
 *
 * An element of type T is modelled by its `size_of::<T>()` bytes as
 * `read_exact::<T>` copies them; decoding those bytes as a T is the caller's
 * business. Address arithmetic follows the source's integer types: the array
 * address is computed in `i32` (with two's-complement wrap-around, as a
 * release build does) and then sign-extended to `usize`.
 */
module Java {
  import opened Options
  import opened Remote

  /** The header of a remote Java array: its length and data address. */
  datatype JavaArray = JavaArray(length: i32, arrayAddress: i32, base: nat)

  /** A remote native buffer: the address of its storage and its length. */
  datatype JavaBuffer = JavaBuffer(arrayAddress: i32, length: i32, base: nat)

  const ZERO_ARRAY := JavaArray(0, 0, 0)
  const ZERO_BUFFER := JavaBuffer(0, 0, 0)

  /** `JavaArray::array_offset`: elements start 0x10 bytes past `array`. */
  function ArrayOffset(): i32
  {
    0x10
  }

  /** The bounds test of `get_at` and `get`: negative or above the length. */
  predicate Rejected(idx: i32, length: i32)
  {
    idx > length || idx < 0
  }

  /** `array + array_offset() + idx * (size_of::<T>() as i32)`, then `as usize`. */
  function ElementAddress(a: JavaArray, idx: i32, elementSize: nat): (r: nat)
    ensures r < TWO_TO_64
    ensures r < 0x8000_0000 || TWO_TO_64 - 0x8000_0000 <= r
    ensures (r - (a.arrayAddress as int + 0x10 + idx as int * elementSize)) % TWO_TO_32 == 0
  {
    var size := Wrap32(elementSize);
    var scaled := Wrap32(idx as int * size as int);
    var start := Wrap32(a.arrayAddress as int + ArrayOffset() as int);
    var sum := Wrap32(start as int + scaled as int);
    ScaledCongruent(idx as int, size as int, elementSize, scaled as int);
    var target := a.arrayAddress as int + 0x10 + idx as int * elementSize;
    SumCongruent(a.arrayAddress as int + 0x10, start as int, idx as int * elementSize, scaled as int, sum as int);
    var r := AsUsize(sum);
    LowBitsCongruent(r, sum as int, target);
    r
  }

  lemma LowBitsCongruent(r: int, sum: int, target: int)
    requires r % TWO_TO_32 == sum % TWO_TO_32
    requires (sum - target) % TWO_TO_32 == 0
    ensures (r - target) % TWO_TO_32 == 0
  {
  }

  lemma ScaledCongruent(i: int, size: int, elementSize: int, scaled: int)
    requires (size - elementSize) % TWO_TO_32 == 0
    requires (scaled - i * size) % TWO_TO_32 == 0
    ensures (scaled - i * elementSize) % TWO_TO_32 == 0
  {
    MulCongruent(i, size, elementSize);
    var p, q := i * size, i * elementSize;
    assert (scaled - p) % TWO_TO_32 == 0 && (p - q) % TWO_TO_32 == 0;
  }

  lemma SumCongruent(base: int, start: int, product: int, scaled: int, sum: int)
    requires (start - base) % TWO_TO_32 == 0
    requires (scaled - product) % TWO_TO_32 == 0
    requires (sum - (start + scaled)) % TWO_TO_32 == 0
    ensures (sum - (base + product)) % TWO_TO_32 == 0
  {
  }

  /** Multiplying both sides of a congruence modulo 2^32 keeps it. */
  lemma MulCongruent(i: int, x: int, y: int)
    requires (x - y) % TWO_TO_32 == 0
    ensures (i * x - i * y) % TWO_TO_32 == 0
  {
    var q := (x - y) / TWO_TO_32;
    assert x - y == q * TWO_TO_32;
    assert i * x - i * y == i * (x - y);
    assert i * (q * TWO_TO_32) == (i * q) * TWO_TO_32;
  }

  /** `(array as *mut T).offset(idx)`: no header, pointer-width arithmetic. */
  function BufferElementAddress(b: JavaBuffer, idx: i32, elementSize: nat): (r: nat)
    ensures r < TWO_TO_64
    ensures (r - (b.arrayAddress as int + idx as int * elementSize)) % TWO_TO_64 == 0
  {
    var address := AsUsize(b.arrayAddress);
    var offset := idx as int * elementSize;
    OffsetCongruent(address, b.arrayAddress as int, offset);
    (address + offset) % TWO_TO_64
  }

  /** Adding the same offset to two addresses congruent modulo 2^64 keeps them so. */
  lemma OffsetCongruent(address: int, base: int, offset: int)
    requires (address - base) % TWO_TO_64 == 0
    ensures ((address + offset) % TWO_TO_64 - (base + offset)) % TWO_TO_64 == 0
  {
  }


  /**
   * `JavaArray::get_at`: None for an index below zero or above the length,
   * otherwise the `size_of::<T>()` bytes at the element's address.
   */
  function GetAt(a: JavaArray, mem: Memory, idx: i32, elementSize: nat): (r: Option<seq<byte>>)
    ensures r.None? <==> idx < 0 || idx > a.length
    ensures r.Some? ==> |r.value| == elementSize
    ensures r.Some? ==> r.value == ReadElement(mem, ElementAddress(a, idx, elementSize), elementSize)
  {
    if Rejected(idx, a.length) then None
    else Some(ReadElement(mem, ElementAddress(a, idx, elementSize), elementSize))
  }

  /** `JavaBuffer::get`: the same bounds test, elements from the buffer's address itself. */
  function Get(b: JavaBuffer, mem: Memory, idx: i32, elementSize: nat): (r: Option<seq<byte>>)
    ensures r.None? <==> idx < 0 || idx > b.length
    ensures r.Some? ==> |r.value| == elementSize
    ensures r.Some? ==> r.value == ReadElement(mem, BufferElementAddress(b, idx, elementSize), elementSize)
  {
    if Rejected(idx, b.length) then None
    else Some(ReadElement(mem, BufferElementAddress(b, idx, elementSize), elementSize))
  }

  /**
   * `FromNative for JavaArray`: the header copied from `ptr` (all zeros when
   * it cannot be read), with `base` set to `ptr`.
   */
  function ArrayFromNative(view: map<nat, JavaArray>, ptr: nat): (r: JavaArray)
    ensures r.base == ptr
    ensures ptr in view ==> r.length == view[ptr].length && r.arrayAddress == view[ptr].arrayAddress
    ensures ptr !in view ==> r.length == 0 && r.arrayAddress == 0
  {
    ReadStruct(view, ptr, ZERO_ARRAY).(base := ptr)
  }

  /** `FromNative for JavaBuffer`: the same copy-then-set-base. */
  function BufferFromNative(view: map<nat, JavaBuffer>, ptr: nat): (r: JavaBuffer)
    ensures r.base == ptr
    ensures ptr in view ==> r.length == view[ptr].length && r.arrayAddress == view[ptr].arrayAddress
    ensures ptr !in view ==> r.length == 0 && r.arrayAddress == 0
  {
    ReadStruct(view, ptr, ZERO_BUFFER).(base := ptr)
  }

  // ----- Properties -------------------------------------------------------

  /**
   * Without overflow, element `idx` lives at `array + 0x10 + idx * size`, so
   * consecutive elements are `size` bytes apart.
   */
  lemma ElementAddressWithoutOverflow(a: JavaArray, idx: i32, elementSize: nat)
    requires 0 <= a.arrayAddress as int && 0 <= idx as int && elementSize < 0x8000_0000
    requires a.arrayAddress as int + 0x10 + idx as int * elementSize < 0x8000_0000
    ensures ElementAddress(a, idx, elementSize) == a.arrayAddress as int + 0x10 + idx as int * elementSize
  {
    var size := Wrap32(elementSize);
    assert size as int == elementSize;
    var product := idx as int * elementSize;
    MulMonotone(0, idx as int, elementSize);
    var scaled := Wrap32(idx as int * size as int);
    assert scaled as int == product;
    var start := Wrap32(a.arrayAddress as int + ArrayOffset() as int);
    assert start as int == a.arrayAddress as int + 0x10;
    var sum := Wrap32(start as int + scaled as int);
    assert sum as int == a.arrayAddress as int + 0x10 + product;
  }

  /**
   * The index equal to the length passes the bounds test, and the read it
   * makes starts right after the last element.
   */
  lemma GetAtReadsOnePastTheEnd(a: JavaArray, mem: Memory, elementSize: nat)
    requires 0 <= a.length as int && 0 <= a.arrayAddress as int && elementSize < 0x8000_0000
    requires a.arrayAddress as int + 0x10 + a.length as int * elementSize < 0x8000_0000
    ensures GetAt(a, mem, a.length, elementSize).Some?
    ensures ElementAddress(a, a.length, elementSize) == a.arrayAddress as int + 0x10 + a.length as int * elementSize
  {
    ElementAddressWithoutOverflow(a, a.length, elementSize);
  }

  /**
   * The `i32` sum wraps: an array whose data would start at 2^31 is read at
   * the sign-extended address 2^64 - 2^31 instead.
   */
  lemma ElementAddressWraps()
    ensures ElementAddress(JavaArray(1, 0x7FFF_FFF0, 0), 0, 4) == TWO_TO_64 - 0x8000_0000
  {
    assert Wrap32(0 * Wrap32(4) as int) == 0;
    assert Wrap32(0x7FFF_FFF0 + 0x10) as int == -0x8000_0000;
  }

  /** A buffer's element `idx` is at `array + idx * size`: no header offset. */
  lemma BufferElementAddressWithoutOverflow(b: JavaBuffer, idx: i32, elementSize: nat)
    requires 0 <= b.arrayAddress as int && 0 <= idx as int
    requires b.arrayAddress as int + idx as int * elementSize < TWO_TO_64
    ensures BufferElementAddress(b, idx, elementSize) == b.arrayAddress as int + idx as int * elementSize
  {
  }

  // ----- The bounds test as evidently intended -------------------------------

  /** `get_at` with the last valid index at `length - 1`. */
  function GetAtChecked(a: JavaArray, mem: Memory, idx: i32, elementSize: nat): (r: Option<seq<byte>>)
    ensures r.None? <==> idx < 0 || idx >= a.length
    ensures r.Some? ==> r.value == ReadElement(mem, ElementAddress(a, idx, elementSize), elementSize)
  {
    if idx >= a.length || idx < 0 then None
    else Some(ReadElement(mem, ElementAddress(a, idx, elementSize), elementSize))
  }

  /**
   * Every index in `0..length` is accepted by the checked read, and its
   * element lies wholly inside the array's `length * size` bytes of data.
   */
  lemma CheckedReadStaysInArray(a: JavaArray, mem: Memory, idx: i32, elementSize: nat)
    requires 0 <= idx < a.length
    requires 0 <= a.arrayAddress as int && elementSize < 0x8000_0000
    requires a.arrayAddress as int + 0x10 + a.length as int * elementSize < 0x8000_0000
    ensures GetAtChecked(a, mem, idx, elementSize).Some?
    ensures var start := a.arrayAddress as int + 0x10;
      start <= ElementAddress(a, idx, elementSize)
      && ElementAddress(a, idx, elementSize) + elementSize <= start + a.length as int * elementSize
  {
    var i, n := idx as int, a.length as int;
    assert 0 <= i < n;
    MulMonotone(0, i, elementSize);
    MulMonotone(i + 1, n, elementSize);
    assert (i + 1) * elementSize == i * elementSize + elementSize;
    assert a.arrayAddress as int + 0x10 + i * elementSize < 0x8000_0000;
    ElementAddressWithoutOverflow(a, idx, elementSize);
  }

  lemma MulMonotone(x: nat, y: nat, k: nat)
    requires x <= y
    ensures x * k <= y * k
  {
    assert y * k == x * k + (y - x) * k;
  }
}
