/**
 * `api::sig`: finding a compiled signature in a module or anywhere in the
 * target's address space.
 *
 * The target process is an object with its byte contents, its list of memory
 * regions and a mutable page-protection table. VirtualProtectEx,
 * ReadProcessMemory and VirtualQueryEx are methods on it:
 *  - VirtualProtectEx works on whole pages. It sets every page touched by the
 *    range and reports the previous protection of the first page only. It
 *    fails, changing nothing, for an empty range, a zero protection, a page
 *    that is not mapped, or a NULL pointer for the previous protection. Every
 *    write-back in `api::sig` passes that NULL pointer, so no scan restores
 *    the protection it changed.
 *  - A read copies the whole range when every byte is present and no page of
 *    it is PAGE_NOACCESS, and otherwise fails and leaves the buffer as it was.
 *  - A query returns the region that holds an address. An address past the
 *    last region gives a failed query, which the source does not notice.
 *
 * A scan ends in one of four ways: an address, nothing, a panic (the
 * `size - len` subtraction underflows when the region is shorter than the
 * pattern), or a hang. A hang is the memory scan repeating the same
 * iteration forever.
 */
module Scanner {
  import opened Options
  import opened Remote
  import opened Signature
  import opened Processes

  // ----- Matching ------------------------------------------------------------

  /**
   * One pattern position against one buffer byte. The buffer holds `i8` and
   * the pattern value is cast to `i8`, so equal means equal modulo 256; the
   * sentinel test is on the `i32` value itself.
   */
  predicate ByteMatches(b: byte, p: int): (r: bool)
    ensures p == WILDCARD ==> r
    ensures 0 <= p < 256 && p != WILDCARD ==> (r <==> b as int == p)
  {
    b as int == p % 256 || p == WILDCARD
  }

  /** Every position of the pattern matches the buffer from offset `i` on. */
  predicate MatchesAt(buffer: seq<byte>, pattern: seq<int>, i: nat)
    requires i + |pattern| <= |buffer|
  {
    forall j | 0 <= j < |pattern| :: ByteMatches(buffer[i + j], pattern[j])
  }

  /** The lowest matching offset in `[from, end)`, if any. */
  function FirstMatchIn(buffer: seq<byte>, pattern: seq<int>, from: nat, end: nat): (r: Option<nat>)
    requires from <= end && end + |pattern| <= |buffer| + 1
    ensures r.Some? ==> from <= r.value < end && MatchesAt(buffer, pattern, r.value)
    ensures r.Some? ==> forall k | from <= k < r.value :: !MatchesAt(buffer, pattern, k)
    ensures r.None? ==> forall k | from <= k < end :: !MatchesAt(buffer, pattern, k)
    decreases end - from
  {
    if from == end then None
    else if MatchesAt(buffer, pattern, from) then Some(from)
    else FirstMatchIn(buffer, pattern, from + 1, end)
  }

  /**
   * What the `search` closures look for: the lowest offset below
   * `|buffer| - |pattern|` (the range is exclusive) that matches.
   */
  function FirstMatch(buffer: seq<byte>, pattern: seq<int>): (r: Option<nat>)
    requires |pattern| <= |buffer|
    ensures r.Some? ==> r.value < |buffer| - |pattern| && MatchesAt(buffer, pattern, r.value)
    ensures r.Some? ==> forall k | 0 <= k < r.value :: !MatchesAt(buffer, pattern, k)
    ensures r.None? ==> forall k | 0 <= k < |buffer| - |pattern| :: !MatchesAt(buffer, pattern, k)
  {
    FirstMatchIn(buffer, pattern, 0, |buffer| - |pattern|)
  }

  /**
   * The `search` closure: the buffer's base address plus the first matching
   * offset, or None. A pattern longer than the buffer makes the source panic
   * on `size - len`, so this entry point requires the reverse.
   */
  method Search(buffer: seq<byte>, pattern: seq<int>, base: nat) returns (r: Option<nat>)
    requires |pattern| <= |buffer|
    ensures r.Some? <==> FirstMatch(buffer, pattern).Some?
    ensures r.Some? ==> r.value == base + FirstMatch(buffer, pattern).value
  {
    var i := 0;
    while i < |buffer| - |pattern|
      invariant i <= |buffer| - |pattern|
      invariant forall k | 0 <= k < i :: !MatchesAt(buffer, pattern, k)
    {
      var found := true;
      var j := 0;
      while j < |pattern|
        invariant j <= |pattern|
        invariant found
        invariant forall q | 0 <= q < j :: ByteMatches(buffer[i + q], pattern[q])
      {
        if buffer[i + j] as int != pattern[j] % 256 && pattern[j] != WILDCARD {
          found := false;
          break;
        }
        j := j + 1;
      }
      if found {
        assert MatchesAt(buffer, pattern, i);
        return Some(base + i);
      }
      i := i + 1;
    }
    return None;
  }

  /** The pattern matches remote memory at `address`. */
  predicate PatternAt(mem: Memory, address: nat, pattern: seq<int>)
  {
    forall j | 0 <= j < |pattern| :: address + j in mem && ByteMatches(mem[address + j], pattern[j])
  }

  lemma MatchInBytesIsPatternAt(mem: Memory, base: nat, size: nat, pattern: seq<int>, k: nat)
    requires Readable(mem, base, size) && k + |pattern| <= size
    requires MatchesAt(Bytes(mem, base, size), pattern, k)
    ensures PatternAt(mem, base + k, pattern)
  {
    var buffer := Bytes(mem, base, size);
    forall j | 0 <= j < |pattern|
      ensures base + k + j in mem && ByteMatches(mem[base + k + j], pattern[j])
    {
      assert buffer[k + j] == mem[base + k + j];
    }
  }

  /**
   * A pattern position holding the sentinel (whether it came from "??" or
   * from a literal "CC") matches whatever byte is there.
   */
  lemma WildcardIgnoresByte(buffer: seq<byte>, pattern: seq<int>, i: nat, j: nat, b: byte)
    requires i + |pattern| <= |buffer| && j < |pattern| && pattern[j] == WILDCARD
    ensures MatchesAt(buffer, pattern, i) <==> MatchesAt(buffer[i + j := b], pattern, i)
  {
    var other := buffer[i + j := b];
    if MatchesAt(buffer, pattern, i) {
      forall q | 0 <= q < |pattern| ensures ByteMatches(other[i + q], pattern[q]) {
        if q != j {
          assert other[i + q] == buffer[i + q];
        }
      }
    }
    if MatchesAt(other, pattern, i) {
      forall q | 0 <= q < |pattern| ensures ByteMatches(buffer[i + q], pattern[q]) {
        if q != j {
          assert other[i + q] == buffer[i + q];
        }
      }
    }
  }

  /** A signed chunk such as "-1" compiles to -1, which matches the byte 0xFF and no other. */
  lemma NegativeChunkMatchesHighByte()
    ensures WellFormed("-1") && ToBytes("-1") == [-1]
    ensures forall b: byte :: ByteMatches(b, -1) <==> b == 0xFF
  {
    assert RemoveSpaces("-1") == "-1";
    assert '?' !in "-1";
  }

  // ----- Page protection -------------------------------------------------------

  const PAGE_SIZE: nat := 0x1000
  const PAGE_NOACCESS: nat := 0x01
  const PAGE_READONLY: nat := 0x02
  const PAGE_EXECUTE_READ: nat := 0x20
  const PAGE_EXECUTE_READWRITE: nat := 0x40
  const MEM_COMMIT: nat := 0x1000

  /** Protection constant of every mapped page, by page number. */
  type Protections = map<nat, nat>

  /** Page `p` holds at least one byte of `[base, base + size)`. */
  predicate InRange(p: nat, base: nat, size: nat)
  {
    size > 0 && base / PAGE_SIZE <= p <= (base + size - 1) / PAGE_SIZE
  }

  /** Every page of the range is mapped. */
  predicate Mapped(prot: Protections, base: nat, size: nat)
  {
    size == 0 || forall p: nat | base / PAGE_SIZE <= p <= (base + size - 1) / PAGE_SIZE :: p in prot
  }

  /** The table with every page of the range set to `value`. */
  function SetPages(prot: Protections, base: nat, size: nat, value: nat): (r: Protections)
    ensures r.Keys == prot.Keys
    ensures forall p | p in r :: r[p] == (if InRange(p, base, size) then value else prot[p])
  {
    map p | p in prot :: if InRange(p, base, size) then value else prot[p]
  }

  datatype ProtectResult = ProtectResult(ok: bool, previous: nat, protection: Protections)

  /**
   * The `lpflOldProtect` argument of VirtualProtectEx: a variable that
   * receives the previous protection, or `std::ptr::null_mut()`.
   */
  datatype OutPointer = Null | Variable

  /**
   * VirtualProtectEx on the protection table. The call fails when
   * `lpflOldProtect` is NULL, as VirtualProtectEx's documented contract says.
   */
  function Protect(prot: Protections, base: nat, size: nat, newProtection: nat, receiver: OutPointer): (r: ProtectResult)
    ensures r.ok <==> receiver.Variable? && size > 0 && newProtection != 0 && Mapped(prot, base, size)
    ensures !r.ok ==> r.previous == 0 && r.protection == prot
    ensures r.ok ==> base / PAGE_SIZE in prot && r.previous == prot[base / PAGE_SIZE]
    ensures r.ok ==> r.protection == SetPages(prot, base, size, newProtection)
  {
    if receiver.Null? || size == 0 || newProtection == 0 || !Mapped(prot, base, size) then ProtectResult(false, 0, prot)
    else
      assert InRange(base / PAGE_SIZE, base, size);
      ProtectResult(true, prot[base / PAGE_SIZE], SetPages(prot, base, size, newProtection))
  }

  /** ReadProcessMemory succeeds: every byte is there and no page forbids access. */
  predicate ReadAllowed(mem: Memory, prot: Protections, address: nat, n: nat)
  {
    && Readable(mem, address, n)
    && (n == 0 || forall p: nat | address / PAGE_SIZE <= p <= (address + n - 1) / PAGE_SIZE ::
          p in prot && prot[p] != PAGE_NOACCESS)
  }

  /** The buffer after a read: the remote bytes, or unchanged when the read fails. */
  function ReadUnder(mem: Memory, prot: Protections, address: nat, buffer: seq<byte>): (r: seq<byte>)
    ensures |r| == |buffer|
    ensures ReadAllowed(mem, prot, address, |buffer|) ==> r == Bytes(mem, address, |buffer|)
    ensures !ReadAllowed(mem, prot, address, |buffer|) ==> r == buffer
  {
    if ReadAllowed(mem, prot, address, |buffer|) then Bytes(mem, address, |buffer|) else buffer
  }

  /**
   * Opening a range whose pages all share one protection and writing the
   * reported previous value back: with the NULL pointer the source passes,
   * the write-back fails and the range stays PAGE_EXECUTE_READWRITE; with a
   * variable to receive the old value, it would restore the table exactly.
   */
  lemma RestoreUniform(prot: Protections, base: nat, size: nat, value: nat)
    requires size > 0 && value != 0 && Mapped(prot, base, size)
    requires forall p | InRange(p, base, size) :: prot[p] == value
    ensures var unlocked := Protect(prot, base, size, PAGE_EXECUTE_READWRITE, Variable);
      && unlocked.ok && unlocked.previous == value
      && !Protect(unlocked.protection, base, size, unlocked.previous, Null).ok
      && Protect(unlocked.protection, base, size, unlocked.previous, Null).protection
         == SetPages(prot, base, size, PAGE_EXECUTE_READWRITE)
      && Protect(unlocked.protection, base, size, unlocked.previous, Variable).protection == prot
  {
    var unlocked := Protect(prot, base, size, PAGE_EXECUTE_READWRITE, Variable);
    assert InRange(base / PAGE_SIZE, base, size);
    var restored := Protect(unlocked.protection, base, size, unlocked.previous, Variable).protection;
    assert Mapped(unlocked.protection, base, size);
    assert restored == prot;
  }

  // ----- The target process ------------------------------------------------------

  /** A region of the address space as the region list stores it. */
  datatype RegionInfo = RegionInfo(size: nat, state: nat)

  /** MEMORY_BASIC_INFORMATION: base, size, state and protection of a region. */
  datatype MemoryInfo = MemoryInfo(base: nat, size: nat, state: nat, protect: nat)

  /** The all-zero record left in the buffer by a failed query. */
  const ZERO_INFO := MemoryInfo(0, 0, 0, 0)

  /** The protection a query reports for a region: that of its first page. */
  function ProtectionAt(prot: Protections, base: nat): nat
  {
    if base / PAGE_SIZE in prot then prot[base / PAGE_SIZE] else PAGE_NOACCESS
  }

  /**
   * VirtualQueryEx over regions laid end to end from `start`: the region
   * holding `address`, or the zero record when there is none.
   */
  function QueryFrom(regions: seq<RegionInfo>, prot: Protections, start: nat, address: nat): (info: MemoryInfo)
    ensures info == ZERO_INFO || (info.base <= address < info.base + info.size)
    ensures (start <= address < start + TotalSize(regions)) <==> info != ZERO_INFO
    decreases |regions|
  {
    if regions == [] || address < start then ZERO_INFO
    else if address < start + regions[0].size then
      MemoryInfo(start, regions[0].size, regions[0].state, ProtectionAt(prot, start))
    else QueryFrom(regions[1..], prot, start + regions[0].size, address)
  }

  /**
   * The record VirtualQueryEx returns is one of the regions: region k, at
   * the start plus the sizes of the regions before it, with the protection
   * of its first page.
   */
  lemma {:induction false} QueryFromFindsRegion(regions: seq<RegionInfo>, prot: Protections, start: nat, address: nat)
    ensures var info := QueryFrom(regions, prot, start, address);
      info != ZERO_INFO ==> exists k | 0 <= k < |regions| ::
        && info.base == start + TotalSize(regions[..k])
        && info.size == regions[k].size && info.state == regions[k].state
        && info.protect == ProtectionAt(prot, info.base)
    decreases |regions|
  {
    var info := QueryFrom(regions, prot, start, address);
    if regions == [] || address < start {
    } else if address < start + regions[0].size {
      assert TotalSize(regions[..0]) == 0;
    } else if info != ZERO_INFO {
      var tail := regions[1..];
      QueryFromFindsRegion(tail, prot, start + regions[0].size, address);
      var k :| 0 <= k < |tail| && info.base == start + regions[0].size + TotalSize(tail[..k])
        && info.size == tail[k].size && info.state == tail[k].state
        && info.protect == ProtectionAt(prot, info.base);
      var prefix := regions[..k + 1];
      assert prefix == [regions[0]] + tail[..k];
      assert TotalSize(prefix) == regions[0].size + TotalSize(tail[..k]);
      assert tail[k] == regions[k + 1];
    }
  }

  function Query(regions: seq<RegionInfo>, prot: Protections, address: nat): MemoryInfo
  {
    QueryFrom(regions, prot, 0, address)
  }

  /** An address past the total size of the regions gets the zero record. */
  lemma {:induction false} QueryPastEnd(regions: seq<RegionInfo>, prot: Protections, start: nat, address: nat)
    requires start + TotalSize(regions) <= address
    ensures QueryFrom(regions, prot, start, address) == ZERO_INFO
    decreases |regions|
  {
    if regions != [] {
      QueryPastEnd(regions[1..], prot, start + regions[0].size, address);
    }
  }

  function TotalSize(regions: seq<RegionInfo>): nat
  {
    if regions == [] then 0 else regions[0].size + TotalSize(regions[1..])
  }

  class Target {
    const memory: Memory
    const regions: seq<RegionInfo>
    var protection: Protections

    constructor (memory: Memory, regions: seq<RegionInfo>, protection: Protections)
      ensures this.memory == memory && this.regions == regions && this.protection == protection
    {
      this.memory := memory;
      this.regions := regions;
      this.protection := protection;
    }

    method VirtualProtectEx(base: nat, size: nat, newProtection: nat, receiver: OutPointer) returns (ok: bool, previous: nat)
      modifies this`protection
      ensures ProtectResult(ok, previous, protection) == Protect(old(protection), base, size, newProtection, receiver)
    {
      var r := Protect(protection, base, size, newProtection, receiver);
      ok, previous, protection := r.ok, r.previous, r.protection;
    }

    method ReadProcessMemory(address: nat, buffer: seq<byte>) returns (ok: bool, filled: seq<byte>)
      ensures ok == ReadAllowed(memory, protection, address, |buffer|)
      ensures filled == ReadUnder(memory, protection, address, buffer)
    {
      ok := ReadAllowed(memory, protection, address, |buffer|);
      filled := ReadUnder(memory, protection, address, buffer);
    }

    method VirtualQueryEx(address: nat) returns (info: MemoryInfo)
      ensures info == Query(regions, protection, address)
    {
      info := Query(regions, protection, address);
    }
  }

  // ----- pattern_scan_module -------------------------------------------------------

  datatype ScanOutcome = Found(address: nat) | NotFound | Panicked | Hangs

  /** How a scan ends, and the protection table it leaves behind. */
  datatype ScanResult = ScanResult(outcome: ScanOutcome, protection: Protections)

  /**
   * `pattern_scan_module`: an empty pattern stops before anything else.
   * Otherwise the module is made PAGE_EXECUTE_READWRITE and read into a
   * zeroed buffer of `size` bytes (a failed read is only reported), a module
   * shorter than the pattern panics, and every other run searches the buffer
   * and asks for the saved protection back over the whole module, through a
   * call that passes a NULL pointer and so fails.
   */
  function ModuleScan(mem: Memory, prot: Protections, pattern: seq<int>, m: ModuleEntry): (r: ScanResult)
    ensures |pattern| == 0 ==> r == ScanResult(NotFound, prot)
    ensures r.outcome.Found? ==> m.base <= r.outcome.address < m.base + m.size - |pattern|
    ensures !r.outcome.Hangs?
  {
    if |pattern| == 0 then ScanResult(NotFound, prot)
    else
      var unlocked := Protect(prot, m.base, m.size, PAGE_EXECUTE_READWRITE, Variable);
      var buffer := ReadUnder(mem, unlocked.protection, m.base, Zeros(m.size));
      if m.size < |pattern| then ScanResult(Panicked, unlocked.protection)
      else
        var found := FirstMatch(buffer, pattern);
        var restored := Protect(unlocked.protection, m.base, m.size, unlocked.previous, Null).protection;
        ScanResult(if found.Some? then Found(m.base + found.value) else NotFound, restored)
  }

  /** `pattern_scan_module`. */
  method PatternScanModule(t: Target, sig: string, m: ModuleEntry) returns (outcome: ScanOutcome)
    requires WellFormed(sig)
    modifies t`protection
    ensures ScanResult(outcome, t.protection) == ModuleScan(t.memory, old(t.protection), ToBytes(sig), m)
  {
    if |ToBytes(sig)| == 0 {
      return NotFound;
    }
    var moduleBuffer := Zeros(m.size);
    var pattern := ToBytes(sig);
    var _, oldProtection := t.VirtualProtectEx(m.base, m.size, PAGE_EXECUTE_READWRITE, Variable);
    var _, filled := t.ReadProcessMemory(m.base, moduleBuffer);
    moduleBuffer := filled;
    if m.size < |pattern| {
      return Panicked;
    }
    var address := Search(moduleBuffer, pattern, m.base);
    if address.Some? {
      var _, _ := t.VirtualProtectEx(m.base, m.size, oldProtection, Null);
      return Found(address.value);
    }
    var _, _ := t.VirtualProtectEx(m.base, m.size, oldProtection, Null);
    return NotFound;
  }

  /**
   * With the module readable, the scan returns the lowest address in
   * `[base, base + size - len)` where the pattern matches remote memory, and
   * NotFound exactly when there is none.
   */
  lemma ModuleScanFindsFirst(mem: Memory, prot: Protections, pattern: seq<int>, m: ModuleEntry)
    requires 0 < |pattern| <= m.size
    requires Readable(mem, m.base, m.size) && Mapped(prot, m.base, m.size)
    ensures var r := ModuleScan(mem, prot, pattern, m).outcome;
      && (r.Found? || r.NotFound?)
      && (r.Found? ==> PatternAt(mem, r.address, pattern))
      && (r.Found? ==> forall a | m.base <= a < r.address :: !PatternAt(mem, a, pattern))
      && (r.NotFound? ==> forall a | m.base <= a < m.base + m.size - |pattern| :: !PatternAt(mem, a, pattern))
  {
    var unlocked := Protect(prot, m.base, m.size, PAGE_EXECUTE_READWRITE, Variable);
    assert ReadAllowed(mem, unlocked.protection, m.base, m.size);
    var buffer := Bytes(mem, m.base, m.size);
    var found := FirstMatch(buffer, pattern);
    forall a | m.base <= a < m.base + m.size - |pattern| && PatternAt(mem, a, pattern)
      ensures MatchesAt(buffer, pattern, a - m.base)
    {
      forall j | 0 <= j < |pattern| ensures ByteMatches(buffer[a - m.base + j], pattern[j]) {
        assert buffer[a - m.base + j] == mem[a + j];
      }
    }
    if found.Some? {
      MatchInBytesIsPatternAt(mem, m.base, m.size, pattern, found.value);
    }
  }

  /**
   * A failed read is only reported: the search then runs over the zeroed
   * buffer, so a pattern of zeros and wildcards is "found" at the base.
   */
  lemma UnreadableModuleMatchesZeros(mem: Memory, prot: Protections, pattern: seq<int>, m: ModuleEntry)
    requires 0 < |pattern| < m.size && !Readable(mem, m.base, m.size)
    requires forall j | 0 <= j < |pattern| :: pattern[j] == 0 || pattern[j] == WILDCARD
    ensures ModuleScan(mem, prot, pattern, m).outcome == Found(m.base)
  {
    var buffer := Zeros(m.size);
    assert MatchesAt(buffer, pattern, 0);
  }

  /**
   * Whichever way the scan ends once the pattern is non-empty, the table is
   * the one the opening VirtualProtectEx left: the write-back never happens.
   */
  lemma ModuleScanLeavesUnlocked(mem: Memory, prot: Protections, pattern: seq<int>, m: ModuleEntry)
    requires 0 < |pattern|
    ensures ModuleScan(mem, prot, pattern, m).protection
      == Protect(prot, m.base, m.size, PAGE_EXECUTE_READWRITE, Variable).protection
  {
    var unlocked := Protect(prot, m.base, m.size, PAGE_EXECUTE_READWRITE, Variable);
    assert !Protect(unlocked.protection, m.base, m.size, unlocked.previous, Null).ok;
  }

  /**
   * A mapped module leaves the scan with every one of its pages
   * PAGE_EXECUTE_READWRITE, so any page that held something else has lost
   * its protection.
   */
  lemma ModuleScanNeverRestores(mem: Memory, prot: Protections, pattern: seq<int>, m: ModuleEntry, p: nat)
    requires 0 < |pattern| && 0 < m.size && Mapped(prot, m.base, m.size)
    requires InRange(p, m.base, m.size) && prot[p] != PAGE_EXECUTE_READWRITE
    ensures var after := ModuleScan(mem, prot, pattern, m).protection;
      && after.Keys == prot.Keys
      && (forall q | InRange(q, m.base, m.size) :: after[q] == PAGE_EXECUTE_READWRITE)
      && after != prot
  {
    ModuleScanLeavesUnlocked(mem, prot, pattern, m);
    var after := ModuleScan(mem, prot, pattern, m).protection;
    assert after == SetPages(prot, m.base, m.size, PAGE_EXECUTE_READWRITE);
    assert after[p] != prot[p];
  }

  /**
   * A two-page module with a read-only header and executable code comes out
   * of the scan with both pages PAGE_EXECUTE_READWRITE.
   */
  lemma CodePageLeftWritable(mem: Memory, pattern: seq<int>)
    requires 0 < |pattern|
    ensures var prot := map[0 := PAGE_READONLY, 1 := PAGE_EXECUTE_READ];
      var after := ModuleScan(mem, prot, pattern, ModuleEntry([], 0, 2 * PAGE_SIZE)).protection;
      after == map[0 := PAGE_EXECUTE_READWRITE, 1 := PAGE_EXECUTE_READWRITE]
  {
    var prot := map[0 := PAGE_READONLY, 1 := PAGE_EXECUTE_READ];
    var m := ModuleEntry([], 0, 2 * PAGE_SIZE);
    assert forall p | InRange(p, 0, 2 * PAGE_SIZE) :: p == 0 || p == 1;
    assert InRange(0, 0, 2 * PAGE_SIZE) && InRange(1, 0, 2 * PAGE_SIZE);
    assert Mapped(prot, m.base, m.size);
    ModuleScanLeavesUnlocked(mem, prot, pattern, m);
    var after := ModuleScan(mem, prot, pattern, m).protection;
    assert after == SetPages(prot, 0, 2 * PAGE_SIZE, PAGE_EXECUTE_READWRITE);
  }

  // ----- pattern_scan_memory -------------------------------------------------------

  /** A region the memory scan looks into: committed and not PAGE_NOACCESS. */
  predicate Scannable(info: MemoryInfo)
  {
    info.state == MEM_COMMIT && info.protect != PAGE_NOACCESS
  }

  /** `Vec::resize(n, 0)`: truncate, or pad with zeros. */
  function Resize(buffer: seq<byte>, n: nat): (r: seq<byte>)
    ensures |r| == n
    ensures forall i | 0 <= i < n :: r[i] == (if i < |buffer| then buffer[i] else 0)
  {
    if n <= |buffer| then buffer[..n] else buffer + Zeros(n - |buffer|)
  }

  /** What one iteration does with a region: end the scan, or go on. */
  datatype Visit = Stop(result: ScanResult) | Continue(protection: Protections)

  /**
   * One iteration of `pattern_scan_memory` on the region `info` describes. A
   * region that cannot be scanned, or whose protection cannot be changed, is
   * stepped over. A read that fails `continue`s without advancing, forever. A
   * region shorter than the pattern panics. Otherwise the region is searched
   * and its saved protection written back.
   */
  function VisitRegion(mem: Memory, prot: Protections, info: MemoryInfo, pattern: seq<int>): (v: Visit)
    ensures !Scannable(info) ==> v == Continue(prot)
    ensures v.Stop? ==> !v.result.outcome.NotFound?
  {
    if !Scannable(info) then Continue(prot)
    else
      var unlocked := Protect(prot, info.base, info.size, PAGE_EXECUTE_READWRITE, Variable);
      if !unlocked.ok then Continue(prot)
      else if !ReadAllowed(mem, unlocked.protection, info.base, info.size) then
        Stop(ScanResult(Hangs, unlocked.protection))
      else if info.size < |pattern| then Stop(ScanResult(Panicked, unlocked.protection))
      else
        var found := FirstMatch(Bytes(mem, info.base, info.size), pattern);
        var restored := Protect(unlocked.protection, info.base, info.size, unlocked.previous, Null).protection;
        if found.Some? then Stop(ScanResult(Found(info.base + found.value), restored))
        else Continue(restored)
  }

  /**
   * The loop of `pattern_scan_memory` from address `chunk` on, below `limit`
   * (the highest application address). The next region starts `size` bytes
   * further on; a zero size (a failed query leaves a zeroed record) makes no
   * progress, forever.
   */
  function MemoryScanFrom(mem: Memory, prot: Protections, regions: seq<RegionInfo>, pattern: seq<int>,
                          limit: nat, chunk: nat): (r: ScanResult)
    decreases limit - chunk
  {
    if chunk >= limit then ScanResult(NotFound, prot)
    else
      var info := Query(regions, prot, chunk);
      match VisitRegion(mem, prot, info, pattern)
      case Stop(result) => result
      case Continue(next) =>
        if info.size == 0 then ScanResult(Hangs, next)
        else MemoryScanFrom(mem, next, regions, pattern, limit, chunk + info.size)
  }

  /** `pattern_scan_memory`: nothing for an empty pattern, else the loop from 0. */
  function MemoryScan(mem: Memory, prot: Protections, regions: seq<RegionInfo>, pattern: seq<int>, limit: nat): (r: ScanResult)
    ensures |pattern| == 0 ==> r == ScanResult(NotFound, prot)
  {
    if |pattern| == 0 then ScanResult(NotFound, prot)
    else MemoryScanFrom(mem, prot, regions, pattern, limit, 0)
  }

  /**
   * One pass of `pattern_scan_memory`'s loop over the region `info`
   * describes, reusing the scan buffer; `stop` is the outcome when the loop
   * ends here.
   */
  method ScanRegion(t: Target, info: MemoryInfo, pattern: seq<int>, buffer: seq<byte>)
    returns (stop: Option<ScanOutcome>, next: seq<byte>)
    modifies t`protection
    ensures var v := VisitRegion(t.memory, old(t.protection), info, pattern);
      && (stop.None? <==> v.Continue?)
      && (v.Continue? ==> t.protection == v.protection)
      && (v.Stop? ==> v.result == ScanResult(stop.value, t.protection))
  {
    next := buffer;
    if !Scannable(info) {
      return None, next;
    }
    next := Resize(next, info.size);
    var unlocked, oldProtection := t.VirtualProtectEx(info.base, info.size, PAGE_EXECUTE_READWRITE, Variable);
    if !unlocked {
      return None, next;
    }
    var read, filled := t.ReadProcessMemory(info.base, next);
    next := filled;
    if !read {
      // `continue` with `chunk` unchanged: the same region again, forever
      return Some(Hangs), next;
    }
    if info.size < |pattern| {
      return Some(Panicked), next;
    }
    var address := Search(next, pattern, info.base);
    var _, _ := t.VirtualProtectEx(info.base, info.size, oldProtection, Null);
    if address.Some? {
      return Some(Found(address.value)), next;
    }
    return None, next;
  }

  /** `pattern_scan_memory`; `limit` is the maximum application address. */
  method PatternScanMemory(t: Target, sig: string, limit: nat) returns (outcome: ScanOutcome)
    requires WellFormed(sig)
    modifies t`protection
    ensures ScanResult(outcome, t.protection) == MemoryScan(t.memory, old(t.protection), t.regions, ToBytes(sig), limit)
  {
    if |ToBytes(sig)| == 0 {
      return NotFound;
    }
    var pattern := ToBytes(sig);
    var chunk := 0;
    var memoryBuffer: seq<byte> := [];
    while chunk < limit
      invariant MemoryScanFrom(t.memory, t.protection, t.regions, pattern, limit, chunk)
        == MemoryScan(t.memory, old(t.protection), t.regions, pattern, limit)
      decreases limit - chunk
    {
      var info := t.VirtualQueryEx(chunk);
      ghost var before := t.protection;
      MemoryScanFromStep(t.memory, before, t.regions, pattern, limit, chunk);
      var stop;
      stop, memoryBuffer := ScanRegion(t, info, pattern, memoryBuffer);
      if stop.Some? {
        return stop.value;
      }
      if info.size == 0 {
        // `chunk += 0`: the loop makes no progress
        return Hangs;
      }
      MemoryScanContinues(t.memory, before, t.regions, pattern, limit, chunk, t.protection);
      chunk := chunk + info.size;
    }
    return NotFound;
  }

  /**
   * A region visit that reports an address found the pattern there, inside
   * a region the scan was allowed to look into.
   */
  lemma VisitFoundMatches(mem: Memory, prot: Protections, info: MemoryInfo, pattern: seq<int>)
    ensures var v := VisitRegion(mem, prot, info, pattern);
      v.Stop? && v.result.outcome.Found? ==>
        && Scannable(info)
        && info.base <= v.result.outcome.address < info.base + info.size
        && PatternAt(mem, v.result.outcome.address, pattern)
  {
    var v := VisitRegion(mem, prot, info, pattern);
    if v.Stop? && v.result.outcome.Found? {
      var unlocked := Protect(prot, info.base, info.size, PAGE_EXECUTE_READWRITE, Variable);
      var found := FirstMatch(Bytes(mem, info.base, info.size), pattern);
      MatchInBytesIsPatternAt(mem, info.base, info.size, pattern, found.value);
    }
  }

  /** Every address the memory scan reports holds the pattern. */
  lemma {:induction false} MemoryScanFoundMatches(mem: Memory, prot: Protections, regions: seq<RegionInfo>,
                                                  pattern: seq<int>, limit: nat, chunk: nat)
    ensures var r := MemoryScanFrom(mem, prot, regions, pattern, limit, chunk).outcome;
      r.Found? ==> PatternAt(mem, r.address, pattern)
    decreases limit - chunk
  {
    if chunk < limit {
      var info := Query(regions, prot, chunk);
      var v := VisitRegion(mem, prot, info, pattern);
      MemoryScanFromStep(mem, prot, regions, pattern, limit, chunk);
      if v.Stop? {
        VisitFoundMatches(mem, prot, info, pattern);
      } else if info.size > 0 {
        MemoryScanFoundMatches(mem, v.protection, regions, pattern, limit, chunk + info.size);
      }
    }
  }

  /** A region the scan steps over hands the rest of the scan its new protection. */
  lemma MemoryScanContinues(mem: Memory, before: Protections, regions: seq<RegionInfo>,
                            pattern: seq<int>, limit: nat, chunk: nat, after: Protections)
    requires chunk < limit && Query(regions, before, chunk).size > 0
    requires VisitRegion(mem, before, Query(regions, before, chunk), pattern) == Continue(after)
    ensures MemoryScanFrom(mem, after, regions, pattern, limit, chunk + Query(regions, before, chunk).size)
      == MemoryScanFrom(mem, before, regions, pattern, limit, chunk)
  {
    MemoryScanFromStep(mem, before, regions, pattern, limit, chunk);
  }

  /** One turn of the memory scan loop, in terms of the region it visits. */
  lemma MemoryScanFromStep(mem: Memory, prot: Protections, regions: seq<RegionInfo>,
                           pattern: seq<int>, limit: nat, chunk: nat)
    requires chunk < limit
    ensures var info := Query(regions, prot, chunk);
      var v := VisitRegion(mem, prot, info, pattern);
      MemoryScanFrom(mem, prot, regions, pattern, limit, chunk)
        == if v.Stop? then v.result
           else if info.size == 0 then ScanResult(Hangs, v.protection)
           else MemoryScanFrom(mem, v.protection, regions, pattern, limit, chunk + info.size)
  {
  }

  /** The protection table a region visit leaves behind, however it ends. */
  function VisitTable(v: Visit): Protections
  {
    if v.Stop? then v.result.protection else v.protection
  }

  /**
   * Visiting a region the scan may look into leaves the table the opening
   * VirtualProtectEx made, on every path: the write-back never happens.
   */
  lemma VisitLeavesUnlocked(mem: Memory, prot: Protections, info: MemoryInfo, pattern: seq<int>)
    requires Scannable(info)
    ensures VisitTable(VisitRegion(mem, prot, info, pattern))
      == Protect(prot, info.base, info.size, PAGE_EXECUTE_READWRITE, Variable).protection
  {
    var unlocked := Protect(prot, info.base, info.size, PAGE_EXECUTE_READWRITE, Variable);
    assert !Protect(unlocked.protection, info.base, info.size, unlocked.previous, Null).ok;
  }

  /** `after` differs from `before` only in pages made PAGE_EXECUTE_READWRITE. */
  predicate OnlyUnlocked(before: Protections, after: Protections)
  {
    && after.Keys == before.Keys
    && forall p | p in before :: after[p] == before[p] || after[p] == PAGE_EXECUTE_READWRITE
  }

  /**
   * The memory scan never gives any page back its protection: every page
   * ends as it was or PAGE_EXECUTE_READWRITE.
   */
  lemma {:induction false} MemoryScanOnlyUnlocks(mem: Memory, prot: Protections, regions: seq<RegionInfo>,
                                                 pattern: seq<int>, limit: nat, chunk: nat)
    ensures OnlyUnlocked(prot, MemoryScanFrom(mem, prot, regions, pattern, limit, chunk).protection)
    decreases limit - chunk
  {
    if chunk < limit {
      var info := Query(regions, prot, chunk);
      var v := VisitRegion(mem, prot, info, pattern);
      MemoryScanFromStep(mem, prot, regions, pattern, limit, chunk);
      assert OnlyUnlocked(prot, VisitTable(v)) by {
        if Scannable(info) {
          VisitLeavesUnlocked(mem, prot, info, pattern);
        }
      }
      if v.Continue? && info.size > 0 {
        var rest := MemoryScanFrom(mem, v.protection, regions, pattern, limit, chunk + info.size).protection;
        MemoryScanOnlyUnlocks(mem, v.protection, regions, pattern, limit, chunk + info.size);
        assert forall p | p in prot :: rest[p] == prot[p] || rest[p] == PAGE_EXECUTE_READWRITE by {
          forall p | p in prot ensures rest[p] == prot[p] || rest[p] == PAGE_EXECUTE_READWRITE {
            assert p in v.protection;
          }
        }
      }
    }
  }

  /**
   * After a failed read the next iteration sees the same thing again: the
   * range is already PAGE_EXECUTE_READWRITE, protecting it changes nothing,
   * and the read fails once more.
   */
  lemma FailedReadRepeats(mem: Memory, prot: Protections, base: nat, size: nat)
    requires Protect(prot, base, size, PAGE_EXECUTE_READWRITE, Variable).ok
    requires !ReadAllowed(mem, Protect(prot, base, size, PAGE_EXECUTE_READWRITE, Variable).protection, base, size)
    ensures var unlocked := Protect(prot, base, size, PAGE_EXECUTE_READWRITE, Variable).protection;
      && Protect(unlocked, base, size, PAGE_EXECUTE_READWRITE, Variable) == ProtectResult(true, PAGE_EXECUTE_READWRITE, unlocked)
      && !ReadAllowed(mem, unlocked, base, size)
  {
    var unlocked := Protect(prot, base, size, PAGE_EXECUTE_READWRITE, Variable).protection;
    assert Mapped(unlocked, base, size);
    assert InRange(base / PAGE_SIZE, base, size);
    assert SetPages(unlocked, base, size, PAGE_EXECUTE_READWRITE) == unlocked;
  }

  /**
   * A limit beyond the last region makes the scan hang once it gets there:
   * the failed query is not detected and the zeroed record has size 0.
   */
  lemma ScanPastLastRegionHangs(mem: Memory, prot: Protections, regions: seq<RegionInfo>,
                                pattern: seq<int>, limit: nat, chunk: nat)
    requires TotalSize(regions) <= chunk < limit
    ensures MemoryScanFrom(mem, prot, regions, pattern, limit, chunk).outcome == Hangs
  {
    QueryPastEnd(regions, prot, 0, chunk);
  }

  // ----- The search as evidently intended ---------------------------------------------

  /**
   * The search with the last offset included: every start at which the whole
   * pattern fits, `|buffer| - |pattern|` too.
   */
  function FirstMatchInclusive(buffer: seq<byte>, pattern: seq<int>): (r: Option<nat>)
    requires |pattern| <= |buffer|
    ensures r.Some? ==> r.value + |pattern| <= |buffer| && MatchesAt(buffer, pattern, r.value)
    ensures r.Some? ==> forall k | 0 <= k < r.value :: !MatchesAt(buffer, pattern, k)
    ensures r.None? ==> forall k | 0 <= k && k + |pattern| <= |buffer| :: !MatchesAt(buffer, pattern, k)
  {
    FirstMatchIn(buffer, pattern, 0, |buffer| - |pattern| + 1)
  }

  /**
   * The search as written never looks at the last start: a pattern that
   * matches only there (here: the whole buffer) is not found.
   */
  lemma LastOffsetNeverExamined(buffer: seq<byte>)
    requires |buffer| > 0
    ensures FirstMatch(buffer, AsInts(buffer)) == None
    ensures FirstMatchInclusive(buffer, AsInts(buffer)) == Some(0)
  {
    var pattern := AsInts(buffer);
    forall j | 0 <= j < |pattern| ensures ByteMatches(buffer[j], pattern[j]) {
      assert pattern[j] % 256 == buffer[j] as int;
    }
    assert MatchesAt(buffer, pattern, 0);
  }

  /**
   * Protection restored page by page, each page to the value it had before:
   * the pages of the range take their saved values back.
   */
  function RestorePages(current: Protections, saved: Protections, base: nat, size: nat): (r: Protections)
    ensures r.Keys == current.Keys
    ensures forall p | p in r :: r[p] == (if InRange(p, base, size) && p in saved then saved[p] else current[p])
  {
    map p | p in current :: if InRange(p, base, size) && p in saved then saved[p] else current[p]
  }

  /**
   * Saving every page's protection before opening the range and restoring
   * page by page gives back the table exactly, whatever the pages held.
   */
  lemma RestorePagesUndoesProtect(prot: Protections, base: nat, size: nat)
    requires Protect(prot, base, size, PAGE_EXECUTE_READWRITE, Variable).ok
    ensures RestorePages(Protect(prot, base, size, PAGE_EXECUTE_READWRITE, Variable).protection, prot, base, size) == prot
  {
    var unlocked := Protect(prot, base, size, PAGE_EXECUTE_READWRITE, Variable).protection;
    var restored := RestorePages(unlocked, prot, base, size);
    assert forall p | p in prot :: restored[p] == prot[p];
  }
}
