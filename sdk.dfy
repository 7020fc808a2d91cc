/**
 * `api::sdk`: the two records of the target runtime's class dictionary and
 * the tag masking of a dictionary entry's link.
 */
module Sdk {
  import opened Remote

  /** The dictionary header, field by field (`table_size`, `entries`, ...). */
  datatype JVMDictionary = JVMDictionary(
    tableSize: i32,
    entries: nat,
    unknown: nat,
    freeEntry: nat,
    endBlock: nat,
    entrySize: i32,
    numEntries: i32)

  /**
   * One node of a bucket chain. `next` is the raw link word: its bit 0 is a
   * tag, not part of the address.
   */
  datatype DictionaryEntry = DictionaryEntry(hash: nat, next: usize, klass: nat, loader: nat)

  /** `0xFFFFFFFFFFFFFFFE`: every bit but the lowest. */
  const TAG_MASK: bv64 := 0xFFFF_FFFF_FFFF_FFFE

  /**
   * The link with its tag bit cleared: the even value that differs from the
   * raw word at most in its lowest bit.
   */
  function MaskTag(raw: usize): (r: usize)
    ensures r % 2 == 0
    ensures r <= raw && raw - r < 2
  {
    raw - raw % 2
  }

  /** `DictionaryEntry::next`. */
  function Next(e: DictionaryEntry): (r: usize)
    ensures r % 2 == 0 && r <= e.next && e.next - r < 2
  {
    MaskTag(e.next)
  }

  /**
   * On the machine word, the source's `& 0xFFFFFFFFFFFFFFFE` is the word less
   * its remainder modulo 2: the formula `MaskTag` applies to the same value
   * (the subtraction cannot wrap, as the remainder is at most the word).
   */
  lemma MaskTagIsBitwiseAnd(raw: bv64)
    ensures raw & TAG_MASK == raw - raw % 2
    ensures raw % 2 <= raw
  {
  }

  /** The masked link is null exactly when the raw word is 0 or 1. */
  lemma MaskTagNull(raw: usize)
    ensures MaskTag(raw) == 0 <==> raw <= 1
  {
  }

  /** Masking twice is masking once. */
  lemma MaskTagIdempotent(raw: usize)
    ensures MaskTag(MaskTag(raw)) == MaskTag(raw)
  {
  }

  /** Setting the tag bit on an even link does not change where it points. */
  lemma TagBitIgnored(link: usize)
    requires link % 2 == 0 && link as int + 1 < TWO_TO_64
    ensures MaskTag(link + 1) == link
  {
  }
}
