/**
 * `ether`: walking the target runtime's class dictionary and reporting the
 * classes whose names look sane.
 *
 * The dictionary has `table_size` buckets. For bucket `idx` the walker reads
 * a `DictionaryEntry` record at `entries + idx * 8` and pushes it, then keeps
 * following links: it stops at an entry whose raw `next` word is 0 or whose
 * `klass` pointer is null, and otherwise reads and pushes the entry at the
 * masked link. Records are read through a typed view of remote memory; an
 * address that cannot be read gives the all-zero entry.
 *
 * A chain that loops back on itself makes the source walk forever, so every
 * chain is required to end; the number of links that takes is a ghost fuel
 * bound that the result does not depend on.
 */
module Ether {
  import opened Options
  import opened Remote
  import opened Sdk

  /** `MAX_PATH`: the longest class name `spawn_instance` reports is 259. */
  const MAX_PATH: int := 260

  /** The width of one slot of `entries` (a pointer). */
  const SLOT_SIZE: nat := 8

  const ZERO_ENTRY := DictionaryEntry(0, 0, 0, 0)

  /** `read_class::<DictionaryEntry>` results, by remote address. */
  type EntryView = map<nat, DictionaryEntry>

  function ReadEntry(view: EntryView, address: nat): DictionaryEntry
  {
    ReadStruct(view, address, ZERO_ENTRY)
  }

  /** The number of indices in `0..table_size`. */
  function BucketCount(d: JVMDictionary): nat
  {
    if d.tableSize < 0 then 0 else d.tableSize as nat
  }

  /** `entries.offset(idx)`: slot `idx` of the bucket array. */
  function BucketAddress(d: JVMDictionary, idx: nat): nat
  {
    d.entries + idx * SLOT_SIZE
  }

  /** The first entry pushed for bucket `idx`. */
  function Head(d: JVMDictionary, view: EntryView, idx: nat): DictionaryEntry
  {
    ReadEntry(view, BucketAddress(d, idx))
  }

  /** The walk goes on past `e`: its raw link is set and its class is not null. */
  predicate Continues(e: DictionaryEntry)
  {
    e.next != 0 && e.klass != 0
  }

  /** The entry at `e`'s masked link. */
  function Successor(view: EntryView, e: DictionaryEntry): DictionaryEntry
  {
    ReadEntry(view, Next(e) as nat)
  }

  /** Following links from `e` stops within `fuel` steps. */
  ghost predicate ChainEnds(view: EntryView, e: DictionaryEntry, fuel: nat)
    decreases fuel
  {
    !Continues(e) || (fuel > 0 && ChainEnds(view, Successor(view, e), fuel - 1))
  }

  /**
   * Wherever an entry of `w` continues the walk, the entry after it is its
   * successor.
   */
  ghost predicate FollowsLinks(view: EntryView, w: seq<DictionaryEntry>)
  {
    forall i, j | 0 <= i && j == i + 1 && j < |w| :: Continues(w[i]) ==> w[j] == Successor(view, w[i])
  }

  /**
   * The entries pushed for one bucket whose first entry is `e`: `e` first,
   * at most one entry per step of the bound, and the last one stopping the
   * walk (`ChainLinks` gives the rest of its shape).
   */
  ghost function Chain(view: EntryView, e: DictionaryEntry, fuel: nat): (c: seq<DictionaryEntry>)
    requires ChainEnds(view, e, fuel)
    ensures 1 <= |c| <= fuel + 1
    ensures c[0] == e
    ensures !Continues(c[|c| - 1])
    decreases fuel
  {
    if !Continues(e) then [e]
    else [e] + Chain(view, Successor(view, e), fuel - 1)
  }

  /**
   * Every entry of a chain but the last continues the walk, and each later
   * entry is the successor of the one before.
   */
  lemma {:induction false} ChainLinks(view: EntryView, e: DictionaryEntry, fuel: nat)
    requires ChainEnds(view, e, fuel)
    ensures var c := Chain(view, e, fuel);
      && (forall i | 0 <= i < |c| - 1 :: Continues(c[i]))
      && FollowsLinks(view, c)
    decreases fuel
  {
    if Continues(e) {
      var rest := Chain(view, Successor(view, e), fuel - 1);
      ChainLinks(view, Successor(view, e), fuel - 1);
      var c := Chain(view, e, fuel);
      assert c == [e] + rest;
      forall i | 0 <= i < |c| - 1
        ensures Continues(c[i])
      {
        if i > 0 {
          assert c[i] == rest[i - 1];
        }
      }
      forall i, j | 0 <= i && j == i + 1 && j < |c| && Continues(c[i])
        ensures c[j] == Successor(view, c[i])
      {
        if i > 0 {
          assert c[i] == rest[i - 1] && c[j] == rest[j - 1];
        } else {
          assert c[j] == rest[0];
        }
      }
    }
  }

  /** Two link-following runs joined where the first one stops. */
  lemma FollowsLinksAppend(view: EntryView, a: seq<DictionaryEntry>, b: seq<DictionaryEntry>)
    requires FollowsLinks(view, a) && FollowsLinks(view, b)
    requires |a| > 0 ==> !Continues(a[|a| - 1])
    ensures FollowsLinks(view, a + b)
  {
    var w := a + b;
    forall i, j | 0 <= i && j == i + 1 && j < |w| && Continues(w[i])
      ensures w[j] == Successor(view, w[i])
    {
      if i < |a| - 1 {
        assert w[i] == a[i] && w[j] == a[j];
      } else if i >= |a| {
        assert w[i] == b[i - |a|] && w[j] == b[j - |a|];
      }
    }
  }

  /** Every bucket's chain ends within `fuel` steps. */
  ghost predicate AllChainsEnd(d: JVMDictionary, view: EntryView, fuel: nat)
  {
    forall idx | 0 <= idx < BucketCount(d) :: ChainEnds(view, Head(d, view, idx), fuel)
  }

  /**
   * The entries pushed for the first `n` buckets, bucket after bucket: at
   * least one per bucket, the last one stopping the walk.
   */
  ghost function WalkUpTo(d: JVMDictionary, view: EntryView, fuel: nat, n: nat): (w: seq<DictionaryEntry>)
    requires n <= BucketCount(d) && AllChainsEnd(d, view, fuel)
    ensures n <= |w|
    ensures n > 0 ==> !Continues(w[|w| - 1])
  {
    if n == 0 then []
    else WalkUpTo(d, view, fuel, n - 1) + Chain(view, Head(d, view, n - 1), fuel)
  }

  /** Wherever an entry of the walk continues it, the next entry is its successor. */
  lemma {:induction false} WalkFollowsLinks(d: JVMDictionary, view: EntryView, fuel: nat, n: nat)
    requires n <= BucketCount(d) && AllChainsEnd(d, view, fuel)
    ensures FollowsLinks(view, WalkUpTo(d, view, fuel, n))
  {
    if n > 0 {
      WalkFollowsLinks(d, view, fuel, n - 1);
      ChainLinks(view, Head(d, view, n - 1), fuel);
      FollowsLinksAppend(view, WalkUpTo(d, view, fuel, n - 1), Chain(view, Head(d, view, n - 1), fuel));
    }
  }

  /** Everything `iterate_classes` yields. */
  ghost function Walk(d: JVMDictionary, view: EntryView, fuel: nat): seq<DictionaryEntry>
    requires AllChainsEnd(d, view, fuel)
  {
    WalkUpTo(d, view, fuel, BucketCount(d))
  }

  /**
   * The closure `iterate_classes` runs for bucket `idx`: it pushes the
   * bucket's head entry and every entry linked from it.
   */
  method VisitBucket(d: JVMDictionary, view: EntryView, idx: nat, ghost fuel: nat, classes: seq<DictionaryEntry>)
    returns (pushed: seq<DictionaryEntry>)
    requires ChainEnds(view, Head(d, view, idx), fuel)
    ensures pushed == classes + Chain(view, Head(d, view, idx), fuel)
  {
    var entry := ReadEntry(view, BucketAddress(d, idx));
    ghost var chain := Chain(view, entry, fuel);
    ChainLinks(view, entry, fuel);
    ghost var k := 0;
    pushed := classes + [entry];
    while true
      invariant k < |chain| && entry == chain[k]
      invariant pushed == classes + chain[..k + 1]
      decreases |chain| - k
    {
      if entry.next == 0 || entry.klass == 0 {
        break;
      }
      assert chain[k + 1] == Successor(view, chain[k]);
      entry := ReadEntry(view, Next(entry) as nat);
      k := k + 1;
      assert chain[..k + 1] == chain[..k] + [entry];
      pushed := pushed + [entry];
    }
    assert chain[..k + 1] == chain;
  }

  /** `iterate_classes`: every bucket in index order. */
  method IterateClasses(d: JVMDictionary, view: EntryView, ghost fuel: nat) returns (classes: seq<DictionaryEntry>)
    requires AllChainsEnd(d, view, fuel)
    ensures classes == Walk(d, view, fuel)
  {
    classes := [];
    var idx: nat := 0;
    while idx < d.tableSize as int
      invariant idx <= BucketCount(d)
      invariant classes == WalkUpTo(d, view, fuel, idx)
    {
      classes := VisitBucket(d, view, idx, fuel, classes);
      idx := idx + 1;
    }
  }

  // ----- Properties of the walk --------------------------------------------

  /** The chain does not depend on the fuel bound used to define it. */
  lemma {:induction false} ChainFuelIrrelevant(view: EntryView, e: DictionaryEntry, f1: nat, f2: nat)
    requires ChainEnds(view, e, f1) && ChainEnds(view, e, f2)
    ensures Chain(view, e, f1) == Chain(view, e, f2)
    decreases f1
  {
    if Continues(e) {
      ChainFuelIrrelevant(view, Successor(view, e), f1 - 1, f2 - 1);
    }
  }

  /** The walk does not depend on the fuel bound either. */
  lemma {:induction false} WalkFuelIrrelevant(d: JVMDictionary, view: EntryView, f1: nat, f2: nat, n: nat)
    requires n <= BucketCount(d) && AllChainsEnd(d, view, f1) && AllChainsEnd(d, view, f2)
    ensures WalkUpTo(d, view, f1, n) == WalkUpTo(d, view, f2, n)
  {
    if n > 0 {
      var head := Head(d, view, n - 1);
      WalkFuelIrrelevant(d, view, f1, f2, n - 1);
      ChainFuelIrrelevant(view, head, f1, f2);
      assert WalkUpTo(d, view, f1, n) == WalkUpTo(d, view, f1, n - 1) + Chain(view, head, f1);
      assert WalkUpTo(d, view, f2, n) == WalkUpTo(d, view, f2, n - 1) + Chain(view, head, f2);
    }
  }

  /** An entry that links to itself is a chain that never ends. */
  lemma {:induction false} SelfLinkNeverEnds(view: EntryView, e: DictionaryEntry, fuel: nat)
    requires Continues(e) && Successor(view, e) == e
    ensures !ChainEnds(view, e, fuel)
    decreases fuel
  {
    if fuel > 0 {
      SelfLinkNeverEnds(view, e, fuel - 1);
    }
  }

  /**
   * A link word of 1 (a tag bit and nothing else) is not treated as the end:
   * the walker reads one more entry at address 0, the zero entry when that
   * address is unmapped, and stops there.
   */
  lemma TagOnlyLinkReadsAddressZero(view: EntryView, e: DictionaryEntry)
    requires e.next == 1 && e.klass != 0 && 0 !in view
    ensures ChainEnds(view, e, 1)
    ensures Chain(view, e, 1) == [e, ZERO_ENTRY]
  {
    MaskTagNull(1);
  }

  /** The walk is empty exactly when the table size is not positive. */
  lemma EmptyWalk(d: JVMDictionary, view: EntryView, fuel: nat)
    requires AllChainsEnd(d, view, fuel)
    ensures |Walk(d, view, fuel)| == 0 <==> d.tableSize <= 0
  {
  }

  /** Buckets are walked in order: the walk of fewer buckets is a prefix. */
  lemma {:induction false} WalkIsBucketMajor(d: JVMDictionary, view: EntryView, fuel: nat, m: nat, n: nat)
    requires m <= n <= BucketCount(d) && AllChainsEnd(d, view, fuel)
    ensures WalkUpTo(d, view, fuel, m) <= WalkUpTo(d, view, fuel, n)
    decreases n - m
  {
    if m < n {
      var before := WalkUpTo(d, view, fuel, n - 1);
      WalkIsBucketMajor(d, view, fuel, m, n - 1);
      assert WalkUpTo(d, view, fuel, n) == before + Chain(view, Head(d, view, n - 1), fuel);
      PrefixOfPrefix(WalkUpTo(d, view, fuel, m), before, Chain(view, Head(d, view, n - 1), fuel));
    }
  }

  lemma PrefixOfPrefix<T>(a: seq<T>, b: seq<T>, c: seq<T>)
    requires a <= b
    ensures a <= b + c
  {
    assert (b + c)[..|a|] == b[..|a|];
  }

  /** Bucket `idx`'s chain sits right after the chains of the buckets before it. */
  lemma BucketChainInWalk(d: JVMDictionary, view: EntryView, fuel: nat, idx: nat)
    requires idx < BucketCount(d) && AllChainsEnd(d, view, fuel)
    ensures WalkUpTo(d, view, fuel, idx) + Chain(view, Head(d, view, idx), fuel) <= Walk(d, view, fuel)
  {
    WalkIsBucketMajor(d, view, fuel, idx + 1, BucketCount(d));
  }

  // ----- spawn_instance ------------------------------------------------------

  /** `std::fmt::Error`, the error type `spawn_instance` could return. */
  datatype FormatError = FormatError

  /**
   * The class filter of `spawn_instance`. `classSymbols` gives the `symbol`
   * pointer of the class record at each address and `symbolLengths` the
   * length field of the symbol record at each address; unreadable records
   * read as zero.
   */
  predicate Reportable(e: DictionaryEntry, classSymbols: map<nat, nat>, symbolLengths: map<nat, int>)
  {
    var symbol := ReadStruct(classSymbols, e.klass, 0);
    symbol != 0 && ReadStruct(symbolLengths, symbol, 0) < MAX_PATH
  }

  /**
   * The class pointers `spawn_instance` prints, in walk order, never more
   * than there are entries (`ReportedExactly` says which).
   */
  function Reported(entries: seq<DictionaryEntry>, classSymbols: map<nat, nat>, symbolLengths: map<nat, int>): (r: seq<nat>)
    ensures |r| <= |entries|
  {
    if entries == [] then []
    else
      var rest := Reported(entries[1..], classSymbols, symbolLengths);
      if Reportable(entries[0], classSymbols, symbolLengths) then [entries[0].klass] + rest else rest
  }

  /** The reported class pointers are exactly those of the reportable entries. */
  lemma {:induction false} ReportedExactly(entries: seq<DictionaryEntry>, classSymbols: map<nat, nat>, symbolLengths: map<nat, int>)
    ensures forall x | x in Reported(entries, classSymbols, symbolLengths) ::
      exists e | e in entries :: Reportable(e, classSymbols, symbolLengths) && e.klass == x
    ensures forall e | e in entries && Reportable(e, classSymbols, symbolLengths) ::
      e.klass in Reported(entries, classSymbols, symbolLengths)
  {
    if entries != [] {
      var head, tail := entries[0], entries[1..];
      var rest := Reported(tail, classSymbols, symbolLengths);
      var r := Reported(entries, classSymbols, symbolLengths);
      ReportedExactly(tail, classSymbols, symbolLengths);
      assert r == if Reportable(head, classSymbols, symbolLengths) then [head.klass] + rest else rest;
      forall x | x in r
        ensures exists e | e in entries :: Reportable(e, classSymbols, symbolLengths) && e.klass == x
      {
        if x in rest {
          assert exists e | e in tail :: Reportable(e, classSymbols, symbolLengths) && e.klass == x;
          var e :| e in tail && Reportable(e, classSymbols, symbolLengths) && e.klass == x;
          assert e in entries;
        } else {
          assert head in entries;
        }
      }
      forall e | e in entries && Reportable(e, classSymbols, symbolLengths)
        ensures e.klass in r
      {
        if e != head {
          var i :| 0 <= i < |entries| && entries[i] == e;
          assert tail[i - 1] == e;
        }
      }
    }
  }

  lemma {:induction false} ReportedAppend(a: seq<DictionaryEntry>, b: seq<DictionaryEntry>, classSymbols: map<nat, nat>, symbolLengths: map<nat, int>)
    ensures Reported(a + b, classSymbols, symbolLengths)
      == Reported(a, classSymbols, symbolLengths) + Reported(b, classSymbols, symbolLengths)
    decreases |a|
  {
    if a == [] {
      assert a + b == b;
    } else {
      assert (a + b)[1..] == a[1..] + b;
      ReportedAppend(a[1..], b, classSymbols, symbolLengths);
    }
  }

  /** Reporting one more entry appends its class pointer when it is reportable. */
  lemma ReportedSnoc(entries: seq<DictionaryEntry>, e: DictionaryEntry, classSymbols: map<nat, nat>, symbolLengths: map<nat, int>)
    ensures Reported(entries + [e], classSymbols, symbolLengths)
      == Reported(entries, classSymbols, symbolLengths)
         + (if Reportable(e, classSymbols, symbolLengths) then [e.klass] else [])
  {
    ReportedAppend(entries, [e], classSymbols, symbolLengths);
    assert [e][1..] == [];
  }

  /**
   * `spawn_instance`: walks the dictionary, reports every reportable class in
   * walk order, and returns no error.
   */
  method SpawnInstance(d: JVMDictionary, view: EntryView, ghost fuel: nat,
                       classSymbols: map<nat, nat>, symbolLengths: map<nat, int>)
    returns (reported: seq<nat>, failure: Option<FormatError>)
    requires AllChainsEnd(d, view, fuel)
    ensures reported == Reported(Walk(d, view, fuel), classSymbols, symbolLengths)
    ensures failure == None
  {
    var classes := IterateClasses(d, view, fuel);
    reported := [];
    var i := 0;
    while i < |classes|
      invariant i <= |classes|
      invariant reported == Reported(classes[..i], classSymbols, symbolLengths)
    {
      assert classes[..i + 1] == classes[..i] + [classes[i]];
      ReportedSnoc(classes[..i], classes[i], classSymbols, symbolLengths);
      if Reportable(classes[i], classSymbols, symbolLengths) {
        reported := reported + [classes[i].klass];
      }
      i := i + 1;
    }
    assert classes[..i] == classes;
    failure := None;
  }
}
