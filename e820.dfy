/**
 * The memory map that BIOS service INT 15h, AX = E820h reports
 * (`e820map_t` in src/arch/i386/mm/pmm.h): a signed entry count followed by
 * a fixed array of E820MAX packed 20-byte entries, laid out little-endian as
 * on i386.  Only the first `count` entries are meaningful.
 */
module E820 {
  import opened Types
  import opened Wrappers
  import LittleEndian

  /** E820MAX: capacity of the entry array */
  const E820MAX: nat := 20

  /** E820_ARM: entry type tag of usable RAM */
  const E820_ARM: u32 := 1

  /** E820_ARR: entry type tag of a reserved region */
  const E820_ARR: u32 := 2

  /** Size in bytes of one packed entry: five 32-bit words. */
  const ENTRY_SIZE: nat := 20

  /** Byte offset of the entry array: it follows the 4-byte `int count`. */
  const ENTRIES_OFFSET: nat := 4

  /** Size in bytes of the whole structure. */
  const MAP_SIZE: nat := ENTRIES_OFFSET + E820MAX * ENTRY_SIZE

  /** One entry, its words in storage order (the structure's `type` word is `entryType` here). */
  datatype Entry = Entry(addrLow: u32, addrHigh: u32, lengthLow: u32, lengthHigh: u32, entryType: u32)

  /** The whole structure: the reported count and the entry array (the structure's `map`). */
  datatype E820Map = E820Map(count: i32, entries: seq<Entry>)

  /** What an entry's type tag says about its region. */
  datatype RegionKind = Usable | Reserved | Other(tag: u32)

  /** The reading of an entry's type word; tags other than 1 and 2 are kept as they are. */
  function Kind(e: Entry): (k: RegionKind)
    ensures k == Usable <==> e.entryType == E820_ARM
    ensures k == Reserved <==> e.entryType == E820_ARR
    ensures k.Other? ==> k.tag == e.entryType
  {
    if e.entryType == E820_ARM then Usable
    else if e.entryType == E820_ARR then Reserved
    else Other(e.entryType)
  }

  /** The type word that stands for a kind of region. */
  function KindTag(k: RegionKind): u32
  {
    match k
    case Usable => E820_ARM
    case Reserved => E820_ARR
    case Other(t) => t
  }

  /** The kind of an entry determines its type word. */
  lemma KindTagRoundTrip(e: Entry)
    ensures KindTag(Kind(e)) == e.entryType
  {
  }

  /** The 64-bit physical start address held in the low/high word pair. */
  function Base(e: Entry): (b: nat)
    ensures b < U32_MODULUS * U32_MODULUS
    ensures b % U32_MODULUS == e.addrLow as int && b / U32_MODULUS == e.addrHigh as int
  {
    e.addrHigh as nat * U32_MODULUS + e.addrLow as nat
  }

  /** The 64-bit length in bytes held in the low/high word pair. */
  function Length(e: Entry): (n: nat)
    ensures n < U32_MODULUS * U32_MODULUS
    ensures n % U32_MODULUS == e.lengthLow as int && n / U32_MODULUS == e.lengthHigh as int
  {
    e.lengthHigh as nat * U32_MODULUS + e.lengthLow as nat
  }

  /** The entry that describes `length` bytes of type `tag` from 64-bit address `base`. */
  function MakeEntry(base: nat, length: nat, tag: u32): (e: Entry)
    requires base < U32_MODULUS * U32_MODULUS && length < U32_MODULUS * U32_MODULUS
    ensures Base(e) == base && Length(e) == length && e.entryType == tag
  {
    Entry((base % U32_MODULUS) as u32, (base / U32_MODULUS) as u32,
          (length % U32_MODULUS) as u32, (length / U32_MODULUS) as u32, tag)
  }

  /** Splitting an entry's address and length and joining them again gives the entry back. */
  lemma MakeEntryRoundTrip(e: Entry)
    ensures MakeEntry(Base(e), Length(e), e.entryType) == e
  {
  }

  /** The packed bytes of one entry: its five words, little-endian, one after another. */
  function EncodeEntry(e: Entry): (bs: seq<u8>)
    ensures |bs| == ENTRY_SIZE
  {
    LittleEndian.EncodeU32(e.addrLow) + LittleEndian.EncodeU32(e.addrHigh) + LittleEndian.EncodeU32(e.lengthLow)
      + LittleEndian.EncodeU32(e.lengthHigh) + LittleEndian.EncodeU32(e.entryType)
  }

  /** Each word of a packed entry is found at its byte offset 0, 4, 8, 12 or 16. */
  lemma EncodeEntryLayout(e: Entry)
    ensures LittleEndian.DecodeU32(EncodeEntry(e)[0..4]) == e.addrLow
    ensures LittleEndian.DecodeU32(EncodeEntry(e)[4..8]) == e.addrHigh
    ensures LittleEndian.DecodeU32(EncodeEntry(e)[8..12]) == e.lengthLow
    ensures LittleEndian.DecodeU32(EncodeEntry(e)[12..16]) == e.lengthHigh
    ensures LittleEndian.DecodeU32(EncodeEntry(e)[16..20]) == e.entryType
  {
    var bs := EncodeEntry(e);
    assert bs[0..4] == LittleEndian.EncodeU32(e.addrLow);
    assert bs[4..8] == LittleEndian.EncodeU32(e.addrHigh);
    assert bs[8..12] == LittleEndian.EncodeU32(e.lengthLow);
    assert bs[12..16] == LittleEndian.EncodeU32(e.lengthHigh);
    assert bs[16..20] == LittleEndian.EncodeU32(e.entryType);
    LittleEndian.DecodeEncodeU32(e.addrLow);
    LittleEndian.DecodeEncodeU32(e.addrHigh);
    LittleEndian.DecodeEncodeU32(e.lengthLow);
    LittleEndian.DecodeEncodeU32(e.lengthHigh);
    LittleEndian.DecodeEncodeU32(e.entryType);
  }

  /** The entry stored in 20 packed bytes. */
  function DecodeEntry(bs: seq<u8>): (e: Entry)
    requires |bs| == ENTRY_SIZE
  {
    Entry(LittleEndian.DecodeU32(bs[0..4]), LittleEndian.DecodeU32(bs[4..8]),
          LittleEndian.DecodeU32(bs[8..12]), LittleEndian.DecodeU32(bs[12..16]),
          LittleEndian.DecodeU32(bs[16..20]))
  }

  /** Decoding an encoded entry gives back the same five words. */
  lemma DecodeEncodeEntry(e: Entry)
    ensures DecodeEntry(EncodeEntry(e)) == e
  {
    EncodeEntryLayout(e);
  }

  /** Every 20 bytes are the encoding of the entry they decode to. */
  lemma EncodeDecodeEntry(bs: seq<u8>)
    requires |bs| == ENTRY_SIZE
    ensures EncodeEntry(DecodeEntry(bs)) == bs
  {
    LittleEndian.EncodeDecodeU32(bs[0..4]);
    LittleEndian.EncodeDecodeU32(bs[4..8]);
    LittleEndian.EncodeDecodeU32(bs[8..12]);
    LittleEndian.EncodeDecodeU32(bs[12..16]);
    LittleEndian.EncodeDecodeU32(bs[16..20]);
    assert bs == bs[0..4] + bs[4..8] + bs[8..12] + bs[12..16] + bs[16..20];
  }

  /** The packed bytes of consecutive entries. */
  function EncodeEntries(es: seq<Entry>): (bs: seq<u8>)
    ensures |bs| == ENTRY_SIZE * |es|
  {
    if es == [] then [] else EncodeEntry(es[0]) + EncodeEntries(es[1..])
  }

  /** The entries stored in consecutive 20-byte slots. */
  function DecodeEntries(bs: seq<u8>): (es: seq<Entry>)
    requires |bs| % ENTRY_SIZE == 0
    ensures ENTRY_SIZE * |es| == |bs|
    decreases |bs|
  {
    if bs == [] then [] else [DecodeEntry(bs[..ENTRY_SIZE])] + DecodeEntries(bs[ENTRY_SIZE..])
  }

  /** Entry `i` occupies bytes `20 * i` up to `20 * (i + 1)` of the encoding. */
  lemma {:induction false} EncodeEntriesAt(es: seq<Entry>, i: nat)
    requires i < |es|
    ensures ENTRY_SIZE * i + ENTRY_SIZE <= |EncodeEntries(es)|
    ensures EncodeEntries(es)[ENTRY_SIZE * i .. ENTRY_SIZE * i + ENTRY_SIZE] == EncodeEntry(es[i])
    decreases i
  {
    var head, tail := EncodeEntry(es[0]), EncodeEntries(es[1..]);
    assert EncodeEntries(es) == head + tail;
    if i == 0 {
      assert (head + tail)[..ENTRY_SIZE] == head;
    } else {
      EncodeEntriesAt(es[1..], i - 1);
      var lo := ENTRY_SIZE * (i - 1);
      SliceOfSuffix(head, tail, lo, lo + ENTRY_SIZE);
    }
  }

  /** A slice that lies in the second part of a concatenation is a slice of that part. */
  lemma SliceOfSuffix<T>(x: seq<T>, y: seq<T>, lo: nat, hi: nat)
    requires lo <= hi <= |y|
    ensures (x + y)[|x| + lo .. |x| + hi] == y[lo..hi]
  {
  }

  lemma {:induction false} DecodeEncodeEntries(es: seq<Entry>)
    ensures DecodeEntries(EncodeEntries(es)) == es
    decreases |es|
  {
    if es != [] {
      var bs := EncodeEntries(es);
      assert bs[..ENTRY_SIZE] == EncodeEntry(es[0]);
      assert bs[ENTRY_SIZE..] == EncodeEntries(es[1..]);
      DecodeEncodeEntry(es[0]);
      DecodeEncodeEntries(es[1..]);
    }
  }

  lemma {:induction false} EncodeDecodeEntries(bs: seq<u8>)
    requires |bs| % ENTRY_SIZE == 0
    ensures EncodeEntries(DecodeEntries(bs)) == bs
    decreases |bs|
  {
    if bs != [] {
      var es := DecodeEntries(bs);
      assert es[0] == DecodeEntry(bs[..ENTRY_SIZE]) && es[1..] == DecodeEntries(bs[ENTRY_SIZE..]);
      EncodeDecodeEntry(bs[..ENTRY_SIZE]);
      EncodeDecodeEntries(bs[ENTRY_SIZE..]);
      assert bs == bs[..ENTRY_SIZE] + bs[ENTRY_SIZE..];
    }
  }

  /** The structure has its fixed array of E820MAX entries. */
  predicate Shaped(m: E820Map)
  {
    |m.entries| == E820MAX
  }

  /** A well-formed map reports between 0 and E820MAX entries. */
  predicate WellFormed(m: E820Map)
  {
    Shaped(m) && 0 <= m.count as int <= E820MAX
  }

  /** The bytes of the whole structure: the count's bit pattern, then the packed entries. */
  function EncodeMap(m: E820Map): (bs: seq<u8>)
    requires Shaped(m)
    ensures |bs| == MAP_SIZE
    ensures I32OfBits(LittleEndian.DecodeU32(bs[..ENTRIES_OFFSET])) == m.count
  {
    var head := LittleEndian.EncodeU32(I32Bits(m.count));
    LittleEndian.DecodeEncodeU32(I32Bits(m.count));
    I32BitsRoundTrip(m.count, 0);
    var bs := head + EncodeEntries(m.entries);
    assert bs[..ENTRIES_OFFSET] == head;
    bs
  }

  /** The structure stored in MAP_SIZE bytes. */
  function DecodeMap(bs: seq<u8>): (m: E820Map)
    requires |bs| == MAP_SIZE
    ensures Shaped(m)
  {
    E820Map(I32OfBits(LittleEndian.DecodeU32(bs[..ENTRIES_OFFSET])), DecodeEntries(bs[ENTRIES_OFFSET..]))
  }

  /** Entry `i` of the structure is found at byte offset 4 + 20 * i. */
  lemma EncodeMapEntryAt(m: E820Map, i: nat)
    requires Shaped(m) && i < E820MAX
    ensures DecodeEntry(EncodeMap(m)[ENTRIES_OFFSET + ENTRY_SIZE * i .. ENTRIES_OFFSET + ENTRY_SIZE * i + ENTRY_SIZE]) == m.entries[i]
  {
    var bs := EncodeMap(m);
    var head := LittleEndian.EncodeU32(I32Bits(m.count));
    assert bs == head + EncodeEntries(m.entries);
    EncodeEntriesAt(m.entries, i);
    assert bs[ENTRIES_OFFSET + ENTRY_SIZE * i .. ENTRIES_OFFSET + ENTRY_SIZE * i + ENTRY_SIZE]
        == EncodeEntries(m.entries)[ENTRY_SIZE * i .. ENTRY_SIZE * i + ENTRY_SIZE];
    DecodeEncodeEntry(m.entries[i]);
  }

  /** Decoding an encoded structure gives back the same count and entries. */
  lemma DecodeEncodeMap(m: E820Map)
    requires Shaped(m)
    ensures DecodeMap(EncodeMap(m)) == m
  {
    var bs := EncodeMap(m);
    var head := LittleEndian.EncodeU32(I32Bits(m.count));
    assert bs == head + EncodeEntries(m.entries);
    assert bs[ENTRIES_OFFSET..] == EncodeEntries(m.entries);
    DecodeEncodeEntries(m.entries);
  }

  /** Every MAP_SIZE bytes are the encoding of the structure they decode to. */
  lemma EncodeDecodeMap(bs: seq<u8>)
    requires |bs| == MAP_SIZE
    ensures EncodeMap(DecodeMap(bs)) == bs
  {
    var m := DecodeMap(bs);
    var w := LittleEndian.DecodeU32(bs[..ENTRIES_OFFSET]);
    I32BitsRoundTrip(0, w);
    LittleEndian.EncodeDecodeU32(bs[..ENTRIES_OFFSET]);
    EncodeDecodeEntries(bs[ENTRIES_OFFSET..]);
    assert bs == bs[..ENTRIES_OFFSET] + bs[ENTRIES_OFFSET..];
  }

  /**
   * A decoded map is well formed exactly when its count word, read unsigned,
   * is at most E820MAX: a negative count has its sign bit set.
   */
  lemma DecodedWellFormed(bs: seq<u8>)
    requires |bs| == MAP_SIZE
    ensures WellFormed(DecodeMap(bs)) <==> LittleEndian.DecodeU32(bs[..ENTRIES_OFFSET]) as int <= E820MAX
  {
  }

  /**
   * The entries the firmware reported: the first `count` slots, or None when
   * the count lies outside 0 .. E820MAX.
   */
  function ReportedEntries(m: E820Map): (r: Option<seq<Entry>>)
    requires Shaped(m)
    ensures r.Some? <==> WellFormed(m)
    ensures r.Some? ==> |r.value| == m.count as int
    ensures r.Some? ==> forall i :: 0 <= i < |r.value| ==> r.value[i] == m.entries[i]
  {
    if 0 <= m.count as int <= E820MAX then Some(m.entries[..m.count]) else None
  }

  /** The slots past `count` do not affect what the map reports. */
  lemma ReportedEntriesIgnoresUnusedSlots(m: E820Map, m': E820Map)
    requires WellFormed(m) && Shaped(m') && m'.count == m.count
    requires forall i :: 0 <= i < m.count as int ==> m'.entries[i] == m.entries[i]
    ensures ReportedEntries(m') == ReportedEntries(m)
  {
    assert m'.entries[..m.count] == m.entries[..m.count];
  }
}
