/**
 * `api::processes`: owned allocations, typed copies out of the target, the
 * Toolhelp32 snapshot walks over processes and modules, and lookup by name.
 *
 * The operating system is abstract. A snapshot handle is a `Snapshot` object
 * over the entries the snapshot holds; the tables the system would report are
 * a `System` value; OpenProcess is a lookup in that value.
 */
module Processes {
  import opened Options
  import opened Remote

  // ----- NativeAllocation ------------------------------------------------

  /**
   * A buffer obtained from VirtualAlloc. Its size is fixed when it is made:
   * both fields are constants, so no later operation can change them. The
   * bytes behind the pointer are the array's elements, zero-filled at
   * creation as VirtualAlloc's committed pages are.
   */
  class NativeAllocation {
    const size: nat
    const data: array<byte>

    ghost predicate Valid()
    {
      data.Length == size
    }

    /** `NativeAllocation::new`. */
    constructor (size: nat)
      ensures Valid() && this.size == size
      ensures fresh(data) && data[..] == Zeros(size)
    {
      this.size := size;
      data := new byte[size](_ => 0);
    }

    /** `NativeAllocation::get`: the storage itself. */
    function Get(): (memory: array<byte>)
      requires Valid()
      ensures memory == data && memory.Length == size
    {
      data
    }

    /** `NativeAllocation::size`: the size given at construction. */
    function Size(): (n: nat)
      requires Valid()
      ensures n == data.Length
    {
      size
    }
  }

  /**
   * ReadProcessMemory(handle, address, allocation, allocation size): the
   * whole allocation takes the remote bytes when they are readable and is
   * left as it was otherwise.
   */
  method CopyFromRemote(mem: Memory, address: nat, a: NativeAllocation)
    requires a.Valid()
    modifies a.data
    ensures a.data[..] == ReadInto(mem, address, old(a.data[..]))
  {
    if Readable(mem, address, a.data.Length) {
      forall i | 0 <= i < a.data.Length {
        a.data[i] := mem[address + i];
      }
    }
  }

  /**
   * `read_exact::<T>` with `elementSize` standing for `size_of::<T>()`: a new
   * allocation of exactly that many bytes, filled by one copy request of that
   * size from `address`.
   */
  method ReadExact(mem: Memory, address: nat, elementSize: nat) returns (a: NativeAllocation)
    ensures fresh(a) && fresh(a.data) && a.Valid()
    ensures a.size == elementSize
    ensures a.data[..] == ReadElement(mem, address, elementSize)
  {
    a := new NativeAllocation(elementSize);
    CopyFromRemote(mem, address, a);
  }

  /**
   * `read_class::<T>`: the same allocation-then-copy as `read_exact`, the
   * copy request sized by the allocation's recorded size.
   */
  method ReadClass(mem: Memory, address: nat, structSize: nat) returns (a: NativeAllocation)
    ensures fresh(a) && fresh(a.data) && a.Valid()
    ensures a.size == structSize
    ensures a.data[..] == ReadElement(mem, address, structSize)
  {
    a := new NativeAllocation(structSize);
    CopyFromRemote(mem, address, a);
  }

  // ----- Names: clipped at the first NUL, then decoded as UTF-8 -----------

  predicate IsContinuation(b: byte) { 0x80 <= b <= 0xBF }

  /**
   * Well-formed UTF-8 as `String::from_utf8` checks it (RFC 3629): no
   * overlong forms, no surrogates, nothing above U+10FFFF, no truncated
   * sequence.
   */
  predicate ValidUtf8(s: seq<byte>)
    decreases |s|
  {
    if |s| == 0 then true
    else if s[0] < 0x80 then ValidUtf8(s[1..])
    else if 0xC2 <= s[0] <= 0xDF then
      |s| >= 2 && IsContinuation(s[1]) && ValidUtf8(s[2..])
    else if 0xE0 <= s[0] <= 0xEF then
      && |s| >= 3
      && (if s[0] == 0xE0 then 0xA0 <= s[1] <= 0xBF
          else if s[0] == 0xED then 0x80 <= s[1] <= 0x9F
          else IsContinuation(s[1]))
      && IsContinuation(s[2])
      && ValidUtf8(s[3..])
    else if 0xF0 <= s[0] <= 0xF4 then
      && |s| >= 4
      && (if s[0] == 0xF0 then 0x90 <= s[1] <= 0xBF
          else if s[0] == 0xF4 then 0x80 <= s[1] <= 0x8F
          else IsContinuation(s[1]))
      && IsContinuation(s[2]) && IsContinuation(s[3])
      && ValidUtf8(s[4..])
    else false
  }

  /** `take_while(|&i| i != 0)`: the bytes before the first NUL. */
  function TakeUntilNul(raw: seq<byte>): (p: seq<byte>)
    ensures |p| <= |raw| && p == raw[..|p|]
    ensures forall i | 0 <= i < |p| :: p[i] != 0
    ensures |p| == |raw| || raw[|p|] == 0
  {
    if |raw| == 0 || raw[0] == 0 then []
    else [raw[0]] + TakeUntilNul(raw[1..])
  }

  /**
   * The name field of a MODULEENTRY32/PROCESSENTRY32: the bytes before the
   * first NUL when they are valid UTF-8 (`unwrap_or_default`: the empty
   * string otherwise). Names are kept as their UTF-8 bytes, which is what a
   * Rust `String` is and what `eq` compares.
   */
  function ClipName(raw: seq<byte>): (name: seq<byte>)
    ensures ValidUtf8(name)
    ensures |name| <= |raw| && (name == [] || name == raw[..|name|])
    ensures forall i | 0 <= i < |name| :: name[i] != 0
    ensures name == [] || |name| == |raw| || raw[|name|] == 0
    ensures forall k | 0 <= k <= |raw| ::
      ((k == |raw| || raw[k] == 0) && (forall i | 0 <= i < k :: raw[i] != 0)
        && ValidUtf8(raw[..k])) ==> name == raw[..k]
  {
    var prefix := TakeUntilNul(raw);
    assert forall k | 0 <= k <= |raw| &&
      (k == |raw| || raw[k] == 0) && (forall i | 0 <= i < k :: raw[i] != 0) :: k == |prefix|;
    if ValidUtf8(prefix) then prefix else []
  }

  lemma {:induction false} AsciiIsUtf8(s: seq<byte>)
    requires forall i | 0 <= i < |s| :: s[i] < 0x80
    ensures ValidUtf8(s)
    decreases |s|
  {
    if |s| > 0 {
      AsciiIsUtf8(s[1..]);
    }
  }

  /** An ASCII name is kept in full, up to its terminator. */
  lemma AsciiNameSurvives(raw: seq<byte>, k: nat)
    requires k <= |raw| && (k == |raw| || raw[k] == 0)
    requires forall i | 0 <= i < k :: 0 < raw[i] < 0x80
    ensures ClipName(raw) == raw[..k]
  {
    AsciiIsUtf8(raw[..k]);
  }

  // ----- Toolhelp32 snapshots --------------------------------------------

  /** The fields of MODULEENTRY32 the source uses. */
  datatype RawModuleEntry = RawModuleEntry(szModule: seq<byte>, modBaseAddr: nat, modBaseSize: nat)

  /** The fields of PROCESSENTRY32 the source uses. */
  datatype RawProcessEntry = RawProcessEntry(szExeFile: seq<byte>, th32ProcessID: nat)

  datatype ModuleEntry = ModuleEntry(name: seq<byte>, base: nat, size: nat)

  datatype ProcessEntry = ProcessEntry(name: seq<byte>, pid: nat)

  /** `ProcessEntry::default()`. */
  const DefaultProcess := ProcessEntry([], 0)

  /**
   * A snapshot handle: the entries it holds, a cursor the First/Next calls
   * advance, and how many times the handle has been closed.
   */
  class Snapshot<E> {
    const entries: seq<E>
    var cursor: nat
    var closes: nat

    /** CreateToolhelp32Snapshot; a snapshot that could not be taken holds no entries. */
    constructor (entries: seq<E>)
      ensures this.entries == entries && cursor == 0 && closes == 0
    {
      this.entries := entries;
      cursor := 0;
      closes := 0;
    }

    /** Module32First / Process32First: fails on an empty snapshot. */
    method First() returns (r: Option<E>)
      requires closes == 0
      modifies this`cursor
      ensures |entries| > 0 ==> r == Some(entries[0]) && cursor == 1
      ensures |entries| == 0 ==> r == None && cursor == old(cursor)
    {
      if |entries| > 0 {
        r := Some(entries[0]);
        cursor := 1;
      } else {
        r := None;
      }
    }

    /** Module32Next / Process32Next: fails once every entry has been returned. */
    method Next() returns (r: Option<E>)
      requires closes == 0
      modifies this`cursor
      ensures old(cursor) < |entries| ==> r == Some(entries[old(cursor)]) && cursor == old(cursor) + 1
      ensures old(cursor) >= |entries| ==> r == None && cursor == old(cursor)
    {
      if cursor < |entries| {
        r := Some(entries[cursor]);
        cursor := cursor + 1;
      } else {
        r := None;
      }
    }

    /** CloseHandle on the snapshot. */
    method Close()
      modifies this`closes
      ensures closes == old(closes) + 1
    {
      closes := closes + 1;
    }
  }

  function DecodeModule(raw: RawModuleEntry): ModuleEntry
  {
    ModuleEntry(ClipName(raw.szModule), raw.modBaseAddr, raw.modBaseSize)
  }

  function DecodeProcess(raw: RawProcessEntry): ProcessEntry
  {
    ProcessEntry(ClipName(raw.szExeFile), raw.th32ProcessID)
  }

  function DecodeModules(raws: seq<RawModuleEntry>): (ms: seq<ModuleEntry>)
    ensures |ms| == |raws| && forall i | 0 <= i < |ms| :: ms[i] == DecodeModule(raws[i])
  {
    seq(|raws|, i requires 0 <= i < |raws| => DecodeModule(raws[i]))
  }

  function DecodeProcesses(raws: seq<RawProcessEntry>): (ps: seq<ProcessEntry>)
    ensures |ps| == |raws| && forall i | 0 <= i < |ps| :: ps[i] == DecodeProcess(raws[i])
  {
    seq(|raws|, i requires 0 <= i < |raws| => DecodeProcess(raws[i]))
  }

  lemma DecodeModulesSnoc(raws: seq<RawModuleEntry>, raw: RawModuleEntry)
    ensures DecodeModules(raws + [raw]) == DecodeModules(raws) + [DecodeModule(raw)]
  {
  }

  lemma DecodeProcessesSnoc(raws: seq<RawProcessEntry>, raw: RawProcessEntry)
    ensures DecodeProcesses(raws + [raw]) == DecodeProcesses(raws) + [DecodeProcess(raw)]
  {
  }

  /**
   * `iterate_modules`: one entry per snapshot entry, in snapshot order (none
   * when Module32First fails), and the snapshot handle closed exactly once.
   */
  method IterateModules(snapshot: Snapshot<RawModuleEntry>) returns (modules: seq<ModuleEntry>)
    requires snapshot.cursor == 0 && snapshot.closes == 0
    modifies snapshot
    ensures snapshot.closes == 1
    ensures modules == DecodeModules(snapshot.entries)
  {
    modules := [];
    var entry := snapshot.First();
    if entry.Some? {
      var current := entry.value;
      while true
        invariant snapshot.closes == 0 && 1 <= snapshot.cursor <= |snapshot.entries|
        invariant current == snapshot.entries[snapshot.cursor - 1]
        invariant modules == DecodeModules(snapshot.entries[..snapshot.cursor - 1])
        decreases |snapshot.entries| - snapshot.cursor
      {
        DecodeModulesSnoc(snapshot.entries[..snapshot.cursor - 1], current);
        assert snapshot.entries[..snapshot.cursor] == snapshot.entries[..snapshot.cursor - 1] + [current];
        modules := modules + [DecodeModule(current)];
        var next := snapshot.Next();
        if next.None? {
          assert snapshot.entries[..snapshot.cursor] == snapshot.entries;
          break;
        }
        current := next.value;
      }
    }
    snapshot.Close();
  }

  /** `iterate_processes`: the same protocol over the process snapshot. */
  method IterateProcesses(snapshot: Snapshot<RawProcessEntry>) returns (processes: seq<ProcessEntry>)
    requires snapshot.cursor == 0 && snapshot.closes == 0
    modifies snapshot
    ensures snapshot.closes == 1
    ensures processes == DecodeProcesses(snapshot.entries)
  {
    processes := [];
    var entry := snapshot.First();
    if entry.Some? {
      var current := entry.value;
      while true
        invariant snapshot.closes == 0 && 1 <= snapshot.cursor <= |snapshot.entries|
        invariant current == snapshot.entries[snapshot.cursor - 1]
        invariant processes == DecodeProcesses(snapshot.entries[..snapshot.cursor - 1])
        decreases |snapshot.entries| - snapshot.cursor
      {
        DecodeProcessesSnoc(snapshot.entries[..snapshot.cursor - 1], current);
        assert snapshot.entries[..snapshot.cursor] == snapshot.entries[..snapshot.cursor - 1] + [current];
        processes := processes + [DecodeProcess(current)];
        var next := snapshot.Next();
        if next.None? {
          assert snapshot.entries[..snapshot.cursor] == snapshot.entries;
          break;
        }
        current := next.value;
      }
    }
    snapshot.Close();
  }

  // ----- The system the snapshots are taken of -----------------------------

  /**
   * What the operating system would report: the process table, the module
   * list per process id (pid 0 is the calling process for a module
   * snapshot), and the handle OpenProcess returns per process id.
   */
  datatype System = System(
    processTable: seq<RawProcessEntry>,
    moduleTable: map<nat, seq<RawModuleEntry>>,
    grants: map<nat, nat>)

  function ModulesOf(sys: System, pid: nat): seq<RawModuleEntry>
  {
    if pid in sys.moduleTable then sys.moduleTable[pid] else []
  }

  /** Index of the first name equal to `name`, or |names| when there is none. */
  function FirstNamed(names: seq<seq<byte>>, name: seq<byte>): (i: nat)
    ensures i <= |names|
    ensures forall j | 0 <= j < i :: names[j] != name
    ensures i < |names| ==> names[i] == name
  {
    if |names| == 0 then 0
    else if names[0] == name then 0
    else 1 + FirstNamed(names[1..], name)
  }

  /** The names of snapshot entries, in snapshot order. */
  function Names<T>(entries: seq<T>, nameOf: T -> seq<byte>): (names: seq<seq<byte>>)
    ensures |names| == |entries| && forall i | 0 <= i < |entries| :: names[i] == nameOf(entries[i])
  {
    seq(|entries|, i requires 0 <= i < |entries| => nameOf(entries[i]))
  }

  /**
   * `find_process`: the first process of a fresh snapshot whose name is
   * exactly `name`, or None when no process has that name.
   */
  method FindProcess(sys: System, name: seq<byte>) returns (r: Option<ProcessEntry>)
    ensures var ps := DecodeProcesses(sys.processTable);
      && (r.None? <==> forall i | 0 <= i < |ps| :: ps[i].name != name)
      && (r.Some? ==> exists i | 0 <= i < |ps| ::
            r.value == ps[i] && ps[i].name == name && forall j | 0 <= j < i :: ps[j].name != name)
  {
    var snapshot := new Snapshot(sys.processTable);
    var processes := IterateProcesses(snapshot);
    var i := FirstNamed(Names(processes, (p: ProcessEntry) => p.name), name);
    r := if i < |processes| then Some(processes[i]) else None;
  }

  /**
   * `find_module`: the first module, in snapshot order, of the given process
   * (of pid 0 when no process is given) whose name is exactly `name`.
   */
  method FindModule(sys: System, name: seq<byte>, process: Option<ProcessEntry>) returns (r: Option<ModuleEntry>)
    ensures var pid := if process.Some? then process.value.pid else DefaultProcess.pid;
      var ms := DecodeModules(ModulesOf(sys, pid));
      && (r.None? <==> forall i | 0 <= i < |ms| :: ms[i].name != name)
      && (r.Some? ==> exists i | 0 <= i < |ms| ::
            r.value == ms[i] && ms[i].name == name && forall j | 0 <= j < i :: ms[j].name != name)
  {
    var pid := if process.Some? then process.value.pid else DefaultProcess.pid;
    var snapshot := new Snapshot(ModulesOf(sys, pid));
    var modules := IterateModules(snapshot);
    var i := FirstNamed(Names(modules, (m: ModuleEntry) => m.name), name);
    r := if i < |modules| then Some(modules[i]) else None;
  }

  /** A process handle the caller owns. */
  datatype NativeHandle = NativeHandle(handle: nat)

  /** OpenProcess(PROCESS_ALL_ACCESS, FALSE, pid): NULL when access is refused. */
  function OsOpenProcess(sys: System, pid: nat): nat
  {
    if pid in sys.grants then sys.grants[pid] else 0
  }

  /** `open_process`: Some exactly when the system returns a non-null handle. */
  function OpenProcess(sys: System, entry: ProcessEntry): (r: Option<NativeHandle>)
    ensures r.Some? <==> OsOpenProcess(sys, entry.pid) != 0
    ensures r.Some? ==> r.value.handle == OsOpenProcess(sys, entry.pid)
  {
    var handle := OsOpenProcess(sys, entry.pid);
    if handle != 0 then Some(NativeHandle(handle)) else None
  }
}
