/**
 * The target process's address space as the rest of the model sees it.
 *
 * Every ReadProcessMemory call of the source becomes a read of an abstract
 * byte map: a read copies all requested bytes when every address of the range
 * is mapped, and otherwise leaves the local buffer as it was. Structured reads
 * (`read_class::<T>`) go through typed views, one map per structure type; an
 * unmapped address yields the all-zero record, because the local allocation
 * the source reads into is zero-filled by VirtualAlloc.
 */
module Remote {
  newtype byte = x: int | 0 <= x < 0x100

  /** A Rust `i32`. */
  newtype i32 = x: int | -0x8000_0000 <= x < 0x8000_0000

  /** A Rust `usize` (or `u64`) on a 64-bit target. */
  newtype usize = x: int | 0 <= x < 0x1_0000_0000_0000_0000

  const TWO_TO_32: int := 0x1_0000_0000
  const TWO_TO_64: int := 0x1_0000_0000_0000_0000

  /** Two's-complement wrap-around of an integer result into an `i32`. */
  function Wrap32(x: int): (r: i32)
    ensures (r as int - x) % TWO_TO_32 == 0
    ensures -0x8000_0000 <= x < 0x8000_0000 ==> r as int == x
  {
    ((x + 0x8000_0000) % TWO_TO_32 - 0x8000_0000) as i32
  }

  /** `x as usize` for an `i32` on a 64-bit target: sign extension. */
  function AsUsize(x: i32): (r: nat)
    ensures r < TWO_TO_64
    ensures r % TWO_TO_32 == (x as int) % TWO_TO_32
    ensures (r - x as int) % TWO_TO_64 == 0
  {
    if x < 0 then x as int + TWO_TO_64 else x as int
  }

  /** Remote bytes by absolute address. */
  type Memory = map<nat, byte>

  function Zeros(n: nat): (z: seq<byte>)
    ensures |z| == n
    ensures forall i | 0 <= i < n :: z[i] == 0
  {
    seq(n, _ => 0)
  }

  /** Every byte of [address, address + n) can be copied. */
  predicate Readable(mem: Memory, address: nat, n: nat)
  {
    forall a | address <= a < address + n :: a in mem
  }

  function Bytes(mem: Memory, address: nat, n: nat): (s: seq<byte>)
    requires Readable(mem, address, n)
    ensures |s| == n
    ensures forall i | 0 <= i < n :: s[i] == mem[address + i]
  {
    seq(n, i requires 0 <= i < n => mem[address + i])
  }

  /**
   * ReadProcessMemory into a local buffer of |buffer| bytes: the buffer takes
   * the remote bytes when the whole range is readable and is left untouched
   * otherwise (partial copies are not modelled).
   */
  function ReadInto(mem: Memory, address: nat, buffer: seq<byte>): (r: seq<byte>)
    ensures |r| == |buffer|
    ensures Readable(mem, address, |buffer|) ==> forall i | 0 <= i < |r| :: r[i] == mem[address + i]
    ensures !Readable(mem, address, |buffer|) ==> r == buffer
  {
    if Readable(mem, address, |buffer|) then Bytes(mem, address, |buffer|) else buffer
  }

  /**
   * `read_exact::<T>(address)` read back as a T: `elementSize` bytes, the
   * remote ones when the whole range is readable and zeros otherwise.
   */
  function ReadElement(mem: Memory, address: nat, elementSize: nat): (value: seq<byte>)
    ensures |value| == elementSize
    ensures Readable(mem, address, elementSize) ==> forall i | 0 <= i < elementSize :: value[i] == mem[address + i]
    ensures !Readable(mem, address, elementSize) ==> forall i | 0 <= i < elementSize :: value[i] == 0
  {
    ReadInto(mem, address, Zeros(elementSize))
  }

  /** A typed read of one structure: the record stored there, or all zeros. */
  function ReadStruct<T>(view: map<nat, T>, address: nat, zero: T): (r: T)
    ensures address in view ==> r == view[address]
    ensures address !in view ==> r == zero
  {
    if address in view then view[address] else zero
  }
}
