# Ethe-rs core, modelled in Dafny

This project models the part of Ethe-rs that does not draw anything. Ethe-rs is an external
tool that reads a running Java game's memory from another process. The modelled part covers:

- **Signatures** (`signature.dfy`, `scanner.dfy`). A signature is text such as
  `"48 8B 0D ?? ?? ?? ??"`. It compiles to one integer per two-character chunk, and `0xCC`
  stands for "any byte". The compiled pattern is searched for:
  - inside one module (`pattern_scan_module`): the module is made readable, read and searched.
    The write-back of the saved protection passes a NULL `lpflOldProtect`, so VirtualProtectEx
    fails and the module stays PAGE_EXECUTE_READWRITE;
  - across every committed, accessible region of the address space (`pattern_scan_memory`).
    Each searched region stays PAGE_EXECUTE_READWRITE for the same reason.
- **The class dictionary walk** (`ether.dfy`, `sdk.dfy`). The runtime's class dictionary is a
  hash table of singly linked entries in the other process. `iterate_classes` walks it bucket
  by bucket. Each link is followed after clearing the tag in bit 0. `spawn_instance` filters
  the classes it finds by the length of their name symbol.
- **Remote Java arrays and buffers** (`java.dfy`). Covers bounds tests, the element address
  computed in `i32` arithmetic, and the copy-then-set-`base` of `from_native`.
- **Process helpers** (`processes.dfy`):
  - owned allocations whose size is fixed;
  - typed copies out of the target (`read_exact`, `read_class`);
  - the Toolhelp32 first/next snapshot protocol over processes and modules, with names clipped
    at the first NUL and decoded as UTF-8;
  - lookup by exact name, and `open_process`.

Windows is abstract throughout:

- Remote memory is a map from address to byte (`Remote.Memory`). A read copies everything or
  nothing. Typed reads go through one map per structure type, and an unreadable address gives
  the all-zero record, as the zero-filled allocation the source reads into would hold.
- The scanners run against a `Scanner.Target` object. It holds the bytes, the region list and a
  page-protection table that VirtualProtectEx changes page by page.
- Snapshots are `Processes.Snapshot` objects over the entries they hold.
- A scan's end is a `Scanner.ScanOutcome`:
  - `Found(address)` or `NotFound` (the source's `Some`/`None`);
  - `Panicked`: the `size - len` subtraction underflows when a region is shorter than the
    pattern;
  - `Hangs`: the memory scan repeats one iteration forever.

`to_bytes` (src/api/sig/mod.rs:34-41) accepts an odd-length signature: the last chunk has one
character and is read as one hex digit (`Signature.OddLengthKeepsLastDigit`).

`DictionaryEntry::next` (src/api/sdk/mod.rs:23) is `& 0xFFFFFFFFFFFFFFFE` on a `usize`.
`Sdk.MaskTag` computes it as `raw - raw % 2`, and `Sdk.MaskTagIsBitwiseAnd` proves the identity
in bv64 arithmetic (for a 64-bit word `raw`, `raw & 0xFFFFFFFFFFFFFFFE == raw - raw % 2`). That
lemma is about bv64 values; it is not stated about `Sdk.MaskTag` on `usize` itself.

## Model

| member | source | states |
|---|---|---|
| Remote.Wrap32 | src/api/sdk/java.rs:36 | the `i32` result equals the exact integer modulo 2^32 and is the integer itself when that fits (release-build wrap-around) |
| Remote.AsUsize | src/api/sdk/java.rs:38 | `i32 as usize` is the unique value below 2^64 congruent to the `i32` modulo 2^64: sign extension |
| Remote.ReadInto | src/api/processes/mod.rs:182-188 | a copy request leaves the buffer's length alone; it holds the remote bytes when the whole range is readable and is untouched otherwise |
| Remote.ReadStruct | src/api/processes/mod.rs:194-209 | a typed read yields the stored record, or the zero record at an unreadable address |
| Signature.Radix16Value | src/api/sig/mod.rs:41 | a chunk `from_str_radix(_, 16)` accepts, including a leading '+' or '-', has a value in -15..255 |
| Signature.ChunkValue | src/api/sig/mod.rs:39-45 | a chunk holding '?' yields 0xCC; any other chunk yields its radix-16 value |
| Signature.RemoveSpaces | src/api/sig/mod.rs:32 | the result has no space, is no longer than the input, and keeps exactly the non-space characters |
| Signature.RemoveSpacesAppend | src/api/sig/mod.rs:32 | removing spaces distributes over concatenation |
| Signature.Chunk | src/api/sig/mod.rs:34 | every chunk cut by `chunks(2)` has one or two characters |
| Signature.Compile | src/api/sig/mod.rs:33-46 | one value per chunk, ceil(len/2) in all, and value k is the value of chunk k |
| Signature.ToBytes | src/api/sig/mod.rs:30-47 | the output length is ceil(len/2) of the space-free text, every value in -15..255 |
| Signature.EmptyPatternIsBlankText | src/api/sig/mod.rs:30-47 | the compiled pattern is empty exactly when the text is all spaces |
| Signature.OddLengthKeepsLastDigit | src/api/sig/mod.rs:34-45 | an odd-length text is accepted and its last value comes from a one-character chunk |
| Signature.FormatRoundTrip | src/api/sig/mod.rs:20-47 | any byte sequence written as space-separated hex pairs is well-formed and compiles back to exactly those bytes |
| Signature.HexPairValue | src/api/sig/mod.rs:34-41 | two hex digits with no space form a well-formed signature of one value, 16 times the first digit plus the second |
| Signature.DigitCaseIgnored | src/api/sig/mod.rs:41 | a pair of hex digits compiles to the same value in lower and upper case: 16 times the first digit plus the second |
| Signature.LiteralCCIsWildcard | src/api/sig/mod.rs:39-45 | a literal "CC" and a wildcard "??" compile to the same value |
| Scanner.FirstMatchIn | src/api/sig/mod.rs:93-108 | the result is a matching offset in the range with no match below it; None means no offset in the range matches |
| Scanner.FirstMatch | src/api/sig/mod.rs:93 | the first matching offset below `len(buffer) - len(pattern)` (the last start is excluded), with no match before it; None exactly when no offset in that range matches |
| Scanner.Search | src/api/sig/mod.rs:92-110 | the nested loops return base plus the first match below `size - len`, and None exactly when there is none |
| Scanner.WildcardIgnoresByte | src/api/sig/mod.rs:97-98 | a position holding 0xCC matches whatever byte is there, literal or wildcard alike |
| Scanner.ByteMatches | src/api/sig/mod.rs:97-98 | a 0xCC pattern value matches every byte; any other value in 0..255 matches exactly the byte equal to it |
| Scanner.NegativeChunkMatchesHighByte | src/api/sig/mod.rs:97-98 | the chunk "-1" is accepted and matches the byte 0xFF only, through the `i8` cast |
| Scanner.SetPages | src/api/sig/mod.rs:69-75 | setting a range's protection changes exactly the pages of the range and keeps the set of mapped pages |
| Scanner.Protect | src/api/sig/mod.rs:69-75 | VirtualProtectEx succeeds exactly when `lpflOldProtect` points to a variable, the range is non-empty and mapped and the protection non-zero; on success it reports the first page's old value and sets the range, on failure (a NULL pointer included) it changes nothing |
| Scanner.ReadUnder | src/api/sig/mod.rs:78-90 | the buffer holds the remote bytes when the read is allowed and is left unchanged otherwise |
| Scanner.RestoreUniform | src/api/sig/mod.rs:130-136 | after opening a range whose pages share one protection, the write-back with the NULL pointer fails and leaves the range PAGE_EXECUTE_READWRITE; with a variable it would restore the table exactly |
| Scanner.QueryFrom | src/api/sig/mod.rs:171-182 | the zero record exactly when the address lies outside the regions laid end to end; otherwise a record whose range holds the address |
| Scanner.QueryFromFindsRegion | src/api/sig/mod.rs:171-182 | a non-zero record is region k of the list, at the start plus the sizes of the regions before it, with the protection of its first page |
| Scanner.QueryPastEnd | src/api/sig/mod.rs:171-182 | past the last region the query yields the zero record, which the `!x == 0` test does not catch |
| Scanner.ModuleScan | src/api/sig/mod.rs:50-140 | an empty pattern returns None with protection untouched; a found address lies in `[base, base + size - len)`; the module scan never hangs |
| Scanner.PatternScanModule | src/api/sig/mod.rs:50-140 | the protect, read, search and failing write-back sequence produces the outcome and protection table `ModuleScan` defines |
| Scanner.ModuleScanFindsFirst | src/api/sig/mod.rs:92-110 | on a readable module the scan returns the lowest address where the pattern matches remote memory, and NotFound exactly when no address below `base + size - len` matches |
| Scanner.UnreadableModuleMatchesZeros | src/api/sig/mod.rs:78-90 | a failed read is only reported, so a pattern of zeros and wildcards is "found" at the module base |
| Scanner.ModuleScanLeavesUnlocked | src/api/sig/mod.rs:69-136 | for every non-empty pattern and every outcome, even after a failed read, the table is the one the opening VirtualProtectEx left: no write-back takes effect |
| Scanner.ModuleScanNeverRestores | src/api/sig/mod.rs:113-136 | a mapped module ends with every page PAGE_EXECUTE_READWRITE, so a page that held anything else is not given it back |
| Scanner.CodePageLeftWritable | src/api/sig/mod.rs:113-136 | a read-only header followed by an executable page ends with both pages PAGE_EXECUTE_READWRITE |
| Scanner.Resize | src/api/sig/mod.rs:189 | `resize(n, 0)` gives n bytes, the old prefix, then zeros |
| Scanner.VisitRegion | src/api/sig/mod.rs:184-262 | a region that is not committed or is PAGE_NOACCESS is skipped, with the table unchanged; an iteration that stops the scan never stops it with NotFound |
| Scanner.VisitLeavesUnlocked | src/api/sig/mod.rs:196-261 | on every path through a scannable region the table is the one the opening VirtualProtectEx left: the write-back with the NULL pointer takes no effect |
| Scanner.MemoryScanOnlyUnlocks | src/api/sig/mod.rs:166-266 | the memory scan keeps the set of mapped pages, and every page ends with its old protection or PAGE_EXECUTE_READWRITE |
| Scanner.MemoryScanFrom | src/api/sig/mod.rs:166-266 | the region loop from address `chunk`: one VisitRegion per region, advancing by its size; a zero size repeats forever (its properties are the lemmas below) |
| Scanner.Scannable | src/api/sig/mod.rs:185 | a region is looked into when it is committed and not PAGE_NOACCESS |
| Scanner.MemoryScan | src/api/sig/mod.rs:143-147 | an empty pattern returns None before any query, protection change or read |
| Scanner.ScanRegion | src/api/sig/mod.rs:184-262 | one pass of the loop body over a region stops the scan exactly when `VisitRegion` says so, with its outcome, and otherwise leaves the protection table `VisitRegion` gives |
| Scanner.PatternScanMemory | src/api/sig/mod.rs:143-272 | the loop over regions, advancing by `RegionSize`, produces the outcome and protection table `MemoryScan` defines |
| Scanner.VisitFoundMatches | src/api/sig/mod.rs:217-249 | an address one region's search reports lies in a committed, accessible region and holds the pattern in remote memory |
| Scanner.MemoryScanFoundMatches | src/api/sig/mod.rs:166-266 | every address the memory scan returns holds the pattern in remote memory |
| Scanner.FailedReadRepeats | src/api/sig/mod.rs:192-214 | after a failed read the next iteration protects with no effect and fails to read again, so `continue` repeats forever |
| Scanner.ScanPastLastRegionHangs | src/api/sig/mod.rs:171-265 | with the limit past the last region the scan hangs there: the zero record advances `chunk` by 0 |
| Scanner.LastOffsetNeverExamined | src/api/sig/mod.rs:93 | a pattern equal to the whole buffer is not found by the exclusive range, and is found at 0 by the inclusive one |
| Scanner.FirstMatchInclusive | src/api/sig/mod.rs:93 | the corrected search checks every start where the pattern fits and returns the first match |
| Scanner.RestorePages | src/api/sig/mod.rs:130-136 | the corrected restore gives each page of the range its own saved value and leaves other pages alone |
| Scanner.RestorePagesUndoesProtect | src/api/sig/mod.rs:130-136 | restoring page by page after opening a range gives back the original table exactly |
| Sdk.MaskTag | src/api/sdk/mod.rs:22-24 | `next()` is even and differs from the raw word at most in bit 0, never above it |
| Sdk.Next | src/api/sdk/mod.rs:22-24 | the link is the raw `next` word with bit 0 cleared: even, at most the raw word and less than 2 below it |
| Sdk.MaskTagIsBitwiseAnd | src/api/sdk/mod.rs:23 | in bv64 arithmetic, `& 0xFFFFFFFFFFFFFFFE` equals the word less its remainder modulo 2, without wrap-around (stated on bv64 values, not on `Sdk.MaskTag`) |
| Sdk.MaskTagNull | src/api/sdk/mod.rs:23 | the masked link is null exactly when the raw word is 0 or 1 |
| Sdk.MaskTagIdempotent | src/api/sdk/mod.rs:23 | masking twice equals masking once |
| Sdk.TagBitIgnored | src/api/sdk/mod.rs:23 | setting the tag bit of an even link does not change its target |
| Ether.Chain | src/ether/mod.rs:54-64 | a chain starts at its head, has at most one entry per step of the bound, and its last entry stops the walk (and is pushed too) |
| Ether.ChainLinks | src/ether/mod.rs:54-64 | every entry of a chain but the last continues, and each later entry is the successor at the masked link of the one before |
| Ether.WalkUpTo | src/ether/mod.rs:43-65 | the walk of n buckets has at least n entries and ends on an entry that stops |
| Ether.WalkFollowsLinks | src/ether/mod.rs:43-65 | wherever an entry of the walk continues it, the next entry pushed is the one at its masked link |
| Ether.VisitBucket | src/ether/mod.rs:44-64 | the closure appends the bucket's whole chain, starting with the entry read at `entries + idx*8` |
| Ether.IterateClasses | src/ether/mod.rs:36-69 | the nested loops yield exactly the bucket-major walk |
| Ether.ChainFuelIrrelevant | src/ether/mod.rs:54-64 | a chain does not depend on the step bound used to define it |
| Ether.WalkFuelIrrelevant | src/ether/mod.rs:43-65 | neither does the whole walk |
| Ether.SelfLinkNeverEnds | src/ether/mod.rs:54-64 | an entry linking to itself gives a chain that ends within no bound |
| Ether.TagOnlyLinkReadsAddressZero | src/ether/mod.rs:55-63 | a raw link of 1 is not treated as the end: the entry at address 0 is read, and when that address is unreadable the zero entry is pushed and ends the chain |
| Ether.EmptyWalk | src/ether/mod.rs:43 | the walk is empty exactly when `table_size <= 0` |
| Ether.WalkIsBucketMajor | src/ether/mod.rs:43-68 | the walk of fewer buckets is a prefix of the walk of more |
| Ether.BucketChainInWalk | src/ether/mod.rs:43-68 | bucket idx's chain directly follows the chains of the buckets before it |
| Ether.Reported | src/ether/mod.rs:14-30 | never more classes are reported than there are entries |
| Ether.ReportedExactly | src/ether/mod.rs:14-30 | the reported classes are exactly those of the entries with a non-null symbol shorter than `MAX_PATH` |
| Ether.ReportedAppend | src/ether/mod.rs:14-30 | the filter distributes over concatenation, so it keeps walk order |
| Ether.SpawnInstance | src/ether/mod.rs:10-34 | reports the filtered walk in order and always returns no error |
| Remote.ReadElement | src/api/processes/mod.rs:178-192 | a typed read yields exactly `size_of::<T>()` bytes: the remote ones when the whole range is readable, zeros (the fresh allocation untouched) otherwise |
| Java.GetAt | src/api/sdk/java.rs:31-40 | None exactly when idx < 0 or idx > length; otherwise the bytes at `array + 0x10 + idx*size` in `i32` arithmetic |
| Java.ElementAddress | src/api/sdk/java.rs:36 | the element address is below 2^64, lies in the sign-extension range (below 2^31 or at least 2^64 - 2^31) and is congruent modulo 2^32 to `array + 0x10 + idx*size`: the `i32` arithmetic wraps, then is sign-extended |
| Java.Get | src/api/sdk/java.rs:44-53 | the same bounds test; the element is read at `array + idx*size` with no header |
| Java.BufferElementAddress | src/api/sdk/java.rs:49 | the element address is below 2^64 and congruent modulo 2^64 to `array + idx*size`: pointer offset from the sign-extended address |
| Java.ArrayFromNative | src/api/sdk/java.rs:67-75 | `base` becomes the source pointer and the other fields come from the copy (zero when unreadable) |
| Java.BufferFromNative | src/api/sdk/java.rs:56-65 | the same copy-then-set-`base` for buffers |
| Java.ElementAddressWithoutOverflow | src/api/sdk/java.rs:27-36 | without overflow, element idx is at `array + 0x10 + idx*size` |
| Java.GetAtReadsOnePastTheEnd | src/api/sdk/java.rs:32-36 | `idx == length` passes the test and reads right after the last element |
| Java.ElementAddressWraps | src/api/sdk/java.rs:36 | an array address near 2^31 wraps and is read at a sign-extended address near 2^64 |
| Java.ArrayOffset | src/api/sdk/java.rs:27-29 | the data of a Java array starts 0x10 bytes past its address |
| Java.BufferElementAddressWithoutOverflow | src/api/sdk/java.rs:49 | a buffer's element idx is at `array + idx*size` |
| Java.GetAtChecked | src/api/sdk/java.rs:32 | the corrected test rejects idx < 0 and idx >= length |
| Java.CheckedReadStaysInArray | src/api/sdk/java.rs:32-36 | every index in `0..length` passes the corrected test, and its element lies inside the array's `length*size` bytes |
| Processes.NativeAllocation.constructor | src/api/processes/mod.rs:44-50 | a new allocation has the requested size and fresh, zero-filled storage |
| Processes.NativeAllocation.Get | src/api/processes/mod.rs:52-54 | `get` returns the storage, whose length is the size |
| Processes.NativeAllocation.Size | src/api/processes/mod.rs:56-58 | `size` is the storage's length, the value given to `new`, a constant no method can change |
| Processes.CopyFromRemote | src/api/processes/mod.rs:182-188 | the allocation takes the remote bytes, or keeps its contents when they cannot be read |
| Processes.ReadExact | src/api/processes/mod.rs:178-192 | a new allocation of exactly `size_of::<T>()` bytes, filled by one copy of that size |
| Processes.ReadClass | src/api/processes/mod.rs:194-209 | the same, with the copy sized by the allocation's recorded size |
| Processes.TakeUntilNul | src/api/processes/mod.rs:104-107 | the prefix before the first zero byte: no zero inside it, and it stops at a zero or at the end |
| Processes.ValidUtf8 | src/api/processes/mod.rs:100 | the byte string is well-formed UTF-8 as `String::from_utf8` requires |
| Processes.ClipName | src/api/processes/mod.rs:100-109 | the name is the prefix before the first NUL when that is valid UTF-8, else empty |
| Processes.AsciiIsUtf8 | src/api/processes/mod.rs:100-109 | ASCII bytes are valid UTF-8 |
| Processes.AsciiNameSurvives | src/api/processes/mod.rs:100-109 | an ASCII name is kept in full up to its terminator |
| Processes.Snapshot.constructor | src/api/processes/mod.rs:91 | a new snapshot holds its entries, with nothing returned and not closed |
| Processes.Snapshot.First | src/api/processes/mod.rs:97 | the first entry, or failure on an empty snapshot |
| Processes.Snapshot.Next | src/api/processes/mod.rs:114 | the next entry in order, or failure once all were returned |
| Processes.Snapshot.Close | src/api/processes/mod.rs:122 | closing counts one more close |
| Processes.DecodeModules | src/api/processes/mod.rs:99-112 | one module per raw entry, in order, with the clipped name, base and size |
| Processes.DecodeProcesses | src/api/processes/mod.rs:140-152 | one process per raw entry, in order, with the clipped name and pid |
| Processes.IterateModules | src/api/processes/mod.rs:87-126 | every snapshot entry decoded in order (none when the first call fails), and the handle closed exactly once |
| Processes.IterateProcesses | src/api/processes/mod.rs:128-164 | the same protocol over the process snapshot |
| Processes.FirstNamed | src/api/processes/mod.rs:212-218 | the index of the first name equal to the query; no earlier name equals it |
| Processes.Names | src/api/processes/mod.rs:211-219 | the names of the entries, one per entry, in order |
| Processes.FindProcess | src/api/processes/mod.rs:211-213 | None exactly when no process has the name, else the first one that has it |
| Processes.FindModule | src/api/processes/mod.rs:215-219 | the same over the given process's modules, pid 0 when none is given |
| Processes.OpenProcess | src/api/processes/mod.rs:221-231 | Some exactly when OpenProcess returns a non-null handle, carrying that handle |

## Left out

- Every WinAPI call is an abstract stand-in: the remote memory map, the `Scanner.Target`
  object, `Processes.System` and the snapshot objects. Partial reads are not modelled, because
  the source ignores the byte counts.
- `VirtualAlloc` failing (a null allocation) is not modelled. `NativeAllocation` always gets its
  storage.
- `Drop` for `NativeAllocation` and `NativeHandle` (VirtualFree, CloseHandle) is not modelled.
  It is resource release with no effect on any result.
- `NativeHandle::new`/`get` are not modelled separately. A handle is a plain value
  (`Processes.NativeHandle`).
- `read::<T>` (src/api/processes/mod.rs:166-176) is left out. No modelled operation calls it.
- Console output (`println!`, `GetLastError`) is left out.
- `GetSystemInfo` is not modelled. The scan limit it supplies is a parameter.
- Pointer arithmetic on addresses is unbounded. `base + i`, `entries + idx * 8` and link
  addresses do not wrap at 2^64. The `i32` arithmetic of `get_at` is modelled with its
  wrap-around.
- Debug-build panics are not modelled.
  - `get_at` uses the release build's `i32` wrap-around, not the debug build's overflow panic.
  - A `size - len` underflow is `Panicked` in both builds. In a release build the out-of-range
    index panics instead of the subtraction.
- Element values are the `size_of::<T>()` bytes read. Decoding them as a `T` is not modelled.
- `JClass` and `JSymbol` are defined in files that are not part of this model.
  - They appear as two maps: class record to symbol pointer, and symbol record to length.
  - The printed class name (`JSymbol::to_string`) is not modelled.
- Protection and reads:
  - A VirtualProtectEx call with a NULL `lpflOldProtect` fails with no change, as its documented
    contract says. Whether Windows applies any part of the change before failing is not
    modelled.
  - Page protection affects reads only through `PAGE_NOACCESS`. Guard pages and other flags
    are not modelled.
  - VirtualProtectEx's demand that a range lie in one allocation is reduced to "every page is
    mapped".
- Ether.IterateClasses: requires every chain to end within a (ghost) bound. On a cyclic chain
  the source loops forever, and `Ether.SelfLinkNeverEnds` shows that such an input falls
  outside the precondition.
- Signature.ToBytes: requires `Signature.WellFormed(sig)`, so the two `unwrap` panics of
  `to_bytes` (src/api/sig/mod.rs:37 and 41) are outside the model. One is a two-byte chunk
  that is not valid UTF-8. The other is a chunk without `?` that `from_str_radix` rejects.
  `Signature.WellFormed` is exactly "every chunk parses", so no other input is excluded.
- Scanner.PatternScanModule: inherits `requires WellFormed(sig)` for the same `unwrap` panics.
  The `size - len` underflow of the search is not excluded. It is the outcome `Panicked`.
- Scanner.PatternScanMemory: inherits `requires WellFormed(sig)` for the same `unwrap`
  panics. The `size - len` underflow in any region is the outcome `Panicked`.
- Scanner.PatternScanMemory: the two endless loops of the source (a failed read that
  `continue`s, a zero-sized step) are returned as the outcome `Hangs` rather than run
  forever. `Scanner.FailedReadRepeats` shows why a failed read repeats.
- Scanner.MemoryScan: its contract does not state that the match is the first in address
  order across regions. What is proved is soundness (`Scanner.MemoryScanFoundMatches`), the
  per-region first match (`Scanner.FirstMatchIn`) and the region-by-region order of the
  recursion itself.
- `src/main.rs` (start-up, the RIP-relative displacement decode, exit codes) is left out, and so
  are the other files under `src/api/sdk/` (entity, world, minecraft, render info). They are
  floating-point game-state wrappers outside the modelled core.

## Findings

The modelled scans, the walk and `get_at` keep the behaviour as written. The corrected
definitions stand beside them, with their intended property proved.

| source | as written | input that shows it | evidently intended | confidence | as-written member | corrected member |
|---|---|---|---|---|---|---|
| src/api/sig/mod.rs:93 | the search tries starts `0..(size - len)`, so the last start `size - len` is never examined | a buffer equal to the pattern, e.g. buffer `90`, signature "90": not found | try every start where the pattern fits, `0..=(size - len)` | high, not executed | Scanner.LastOffsetNeverExamined | Scanner.FirstMatchInclusive |
| src/api/sig/mod.rs:113-136 | every write-back of the saved protection passes `std::ptr::null_mut()` as `lpflOldProtect`, so VirtualProtectEx fails and nothing is restored (with a valid pointer it would still write the first page's value over the whole module) | header page PAGE_READONLY, code page PAGE_EXECUTE_READ: after the scan both pages are PAGE_EXECUTE_READWRITE | each page gets back the protection it had | high, not executed | Scanner.CodePageLeftWritable | Scanner.RestorePagesUndoesProtect |
| src/api/sdk/java.rs:32 | the bounds test is `idx > length`, so `idx == length` is accepted | an array of length 1: `get_at(1)` reads the bytes right after the last element | reject `idx >= length` | high, not executed | Java.GetAtReadsOnePastTheEnd | Java.CheckedReadStaysInArray |
