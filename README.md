# Physical memory manager header of Hurlex-II (i386), in Dafny

This project models `src/arch/i386/mm/pmm.h`, the header of the kernel's
physical page-frame manager, and proves properties of the model. The header
has three parts with behaviour:

- **Page geometry.** The header fixes the frame size `PMM_PAGE_SIZE` (0x1000)
  and the mask `PHY_PAGE_MASK` (0xFFFFF000). Masking an address with it aligns
  the address down to its frame. It also fixes the kernel's load address
  `RAM_KERNEL_START` (0x100000). Module `PageAlign`.
- **The BIOS INT 15h / AX = E820h memory map** (`e820map_t`). It is a signed
  `int count` followed by `E820MAX` (20) packed entries. Each entry holds five
  little-endian `uint32_t` words in this order: address low, address high,
  length low, length high, type. Type `E820_ARM` (1) is usable RAM and
  `E820_ARR` (2) is reserved. Module `E820` gives the byte layout of one entry
  and of the whole structure, and both round trips. It also gives the
  well-formedness condition `0 <= count <= E820MAX` and the list of reported
  entries.
- **The frame descriptor `page_t`** and its accessors `page_ref`,
  `set_page_ref`, `page_ref_inc` and `page_ref_dec`. A descriptor holds a
  reference count, a zone (`mem_zone_t`: DMA = 0, NORMAL = 1, HIGHMEM = 2) and a
  physical address. The accessors update the count in place through a pointer,
  so `PageFrame.Page` is a class whose methods modify only `ref`. Their
  contracts tie the new state to the pure functions `WithRef`,
  `RefIncremented` and `RefDecremented`. The lemmas are proved about those
  functions. The count is a `uint32_t`, so increment and decrement wrap
  modulo 2^32. Nothing guards a decrement of 0, which yields 0xFFFFFFFF.

Supporting modules:

- `Types`: the fixed widths of `src/include/types.h` (`u8`, `u32`, `i32` as
  bounded integers). It also defines wrapping increment and decrement on
  `uint32_t` and the two's-complement reading of `int`.
- `Bitwise`: C's `&` defined bit by bit on natural numbers. Repeated halving
  and doubling serve only to prove the mask lemmas: a mask with clear low bits
  reduces to them, and they are division and multiplication by powers of 2.
- `LittleEndian`: the byte order of i386 words.
- `PmmManager`: the strategy table `struct pmm_manager`, and the single-page
  forms `alloc_page()` and `free_page(page)`. The header declares the
  allocation functions without implementing them. The model therefore takes
  them as function values over an abstract allocator state.

Naming: the C field `type` is a Dafny keyword. It is `zone` in `PageState` and
`Page`, and `entryType` in `E820.Entry`. The entry array `map` is `entries`.

## Model

| member | source | states |
|---|---|---|
| `Types.Inc32` | src/arch/i386/mm/pmm.h:85 | `x += 1` on a `uint32_t` is the successor below 0xFFFFFFFF and wraps from 0xFFFFFFFF to 0 |
| `Types.Dec32` | src/arch/i386/mm/pmm.h:91 | `x -= 1` on a `uint32_t` is the predecessor above 0 and wraps from 0 to 0xFFFFFFFF |
| `Types.IncDecInverse` | src/arch/i386/mm/pmm.h:83-93 | wrapping increment and decrement undo each other in both orders, with no exception at 0 or at the maximum |
| `Types.I32Bits` | src/arch/i386/mm/pmm.h:47 | the bit pattern of the `int count` is the value itself when non-negative, and the value plus 2^32 when negative |
| `Types.I32OfBits` | src/arch/i386/mm/pmm.h:47 | a 32-bit pattern read as `int` is the pattern below 2^31, else the pattern minus 2^32 |
| `Types.I32BitsRoundTrip` | src/arch/i386/mm/pmm.h:47 | the two readings are inverse bijections between `int` values and 32-bit patterns |
| `Bitwise.AndAllOnes` | src/arch/i386/mm/pmm.h:31 | a mask with all `n` low bits set keeps every bit of an `n`-bit word |
| `Bitwise.AndLowBitsClear` | src/arch/i386/mm/pmm.h:31 | with a mask whose low `k` bits are clear, `a & mask` is `(a >> k) & (mask >> k)` shifted back left by `k` |
| `PageAlign.MaskShape` | src/arch/i386/mm/pmm.h:31 | `PHY_PAGE_MASK` has its 12 low bits clear and 20 set bits above them |
| `PageAlign.MaskClearsOffset` | src/arch/i386/mm/pmm.h:30-31 | for every 32-bit `a`, `a & 0xFFFFF000` equals `a - a % 0x1000`, which is `0x1000 * (a / 0x1000)` |
| `PageAlign.PageAlignDown` | src/arch/i386/mm/pmm.h:28-31 | `addr & PHY_PAGE_MASK` equals `addr - addr % 0x1000`, that is, `PMM_PAGE_SIZE` times the frame number. It is at most `addr`, and less than 0x1000 below it |
| `PageAlign.PageAlignDownIsMultiple` | src/arch/i386/mm/pmm.h:30-31 | the masked address is a multiple of `PMM_PAGE_SIZE` |
| `PageAlign.MaskMatchesPageSize` | src/arch/i386/mm/pmm.h:28-31 | `PHY_PAGE_MASK` is all bits of a 32-bit word except the `PMM_PAGE_SIZE - 1` offset bits, and `PMM_PAGE_SIZE` is 2^12 |
| `PageAlign.PageAlignDownIdempotent` | src/arch/i386/mm/pmm.h:30-31 | masking twice gives the same result as masking once |
| `PageAlign.PageAlignDownFixedPoints` | src/arch/i386/mm/pmm.h:30-31 | masking leaves an address unchanged exactly when it is a multiple of 0x1000 |
| `PageAlign.PageAlignDownIsGreatest` | src/arch/i386/mm/pmm.h:30-31 | every multiple of 0x1000 that is no greater than `addr` is no greater than the masked address, so the mask rounds down to the nearest frame start |
| `PageAlign.KernelStartIsAligned` | src/arch/i386/mm/pmm.h:34 | `RAM_KERNEL_START` is a frame start |
| `LittleEndian.Decode` | src/arch/i386/mm/pmm.h:49-53 | a little-endian byte string of length `n` denotes a value below 256^n |
| `LittleEndian.DecodeEncode` | src/arch/i386/mm/pmm.h:49-53 | encoding a value that fits in `n` bytes, then decoding it, gives the value back |
| `LittleEndian.EncodeDecode` | src/arch/i386/mm/pmm.h:49-53 | decoding bytes and encoding the value to the same width gives the bytes back |
| `LittleEndian.DecodeU32` | src/arch/i386/mm/pmm.h:49 | a `uint32_t` field is `b0 + 2^8 b1 + 2^16 b2 + 2^24 b3` of its four bytes, lowest address first |
| `LittleEndian.DecodeEncodeU32` | src/arch/i386/mm/pmm.h:49-53 | a 32-bit word survives being stored to and read from four bytes |
| `LittleEndian.EncodeDecodeU32` | src/arch/i386/mm/pmm.h:49-53 | four bytes survive being read as a word and stored again |
| `E820.Kind` | src/arch/i386/mm/pmm.h:42-43 | an entry is usable RAM exactly when its type is `E820_ARM` (1) and reserved exactly when its type is `E820_ARR` (2). Any other tag is kept as it is |
| `E820.KindTagRoundTrip` | src/arch/i386/mm/pmm.h:42-43 | the kind of an entry determines its type word |
| `E820.Base` | src/arch/i386/mm/pmm.h:49-50 | the 64-bit start address has `addr_low` as its low word and `addr_high` as its high word |
| `E820.Length` | src/arch/i386/mm/pmm.h:51-52 | the 64-bit length has `length_low` as its low word and `length_high` as its high word |
| `E820.MakeEntry` | src/arch/i386/mm/pmm.h:49-53 | any 64-bit address and length, split into word pairs, give an entry with that base, length and type |
| `E820.MakeEntryRoundTrip` | src/arch/i386/mm/pmm.h:49-53 | joining and splitting the word pairs gives the entry back |
| `E820.EncodeEntry` | src/arch/i386/mm/pmm.h:48-54 | a packed entry is exactly 20 bytes |
| `E820.EncodeEntryLayout` | src/arch/i386/mm/pmm.h:48-54 | `addr_low`, `addr_high`, `length_low`, `length_high` and `type` are found at byte offsets 0, 4, 8, 12 and 16 of a packed entry |
| `E820.DecodeEncodeEntry` | src/arch/i386/mm/pmm.h:48-54 | decoding an encoded entry gives back the same five words |
| `E820.EncodeDecodeEntry` | src/arch/i386/mm/pmm.h:48-54 | every 20 bytes are the encoding of the entry they decode to |
| `E820.EncodeEntries` | src/arch/i386/mm/pmm.h:54 | packed entries occupy 20 bytes each, with no padding |
| `E820.DecodeEntries` | src/arch/i386/mm/pmm.h:54 | a byte string of 20-byte slots decodes to one entry per slot |
| `E820.EncodeEntriesAt` | src/arch/i386/mm/pmm.h:54 | entry `i` of a packed array occupies bytes `20 i` up to `20 (i + 1)` |
| `E820.DecodeEncodeEntries` | src/arch/i386/mm/pmm.h:54 | decoding an encoded entry array gives the same entries |
| `E820.EncodeDecodeEntries` | src/arch/i386/mm/pmm.h:54 | every sequence of 20-byte slots is the encoding of the entries it decodes to |
| `E820.EncodeMap` | src/arch/i386/mm/pmm.h:45-55 | the structure is 404 bytes, and its first four bytes hold the `int count` |
| `E820.DecodeMap` | src/arch/i386/mm/pmm.h:45-55 | any 404 bytes decode to a count and exactly `E820MAX` entries |
| `E820.EncodeMapEntryAt` | src/arch/i386/mm/pmm.h:45-55 | entry `i` lies at byte offset `4 + 20 i` of the structure |
| `E820.DecodeEncodeMap` | src/arch/i386/mm/pmm.h:45-55 | decoding an encoded structure gives back the same count and entries |
| `E820.EncodeDecodeMap` | src/arch/i386/mm/pmm.h:45-55 | every 404 bytes are the encoding of the structure they decode to |
| `E820.DecodedWellFormed` | src/arch/i386/mm/pmm.h:41-47 | a decoded map has `0 <= count <= E820MAX` exactly when its count word, read unsigned, is at most 20. A negative count sets the sign bit |
| `E820.ReportedEntries` | src/arch/i386/mm/pmm.h:41-54 | the reported entries exist exactly when the map is well formed. They are then the first `count` slots of the array |
| `E820.ReportedEntriesIgnoresUnusedSlots` | src/arch/i386/mm/pmm.h:41-54 | slots past `count` do not affect what the map reports |
| `PageFrame.ZoneValue` | src/arch/i386/mm/pmm.h:59-63 | each zone's enumerator value lies in 0 to 2 |
| `PageFrame.ZoneOf` | src/arch/i386/mm/pmm.h:59-63 | exactly the values 0, 1 and 2 name a zone |
| `PageFrame.ZoneValueRoundTrip` | src/arch/i386/mm/pmm.h:59-63 | zones and their enumerator values correspond one to one: `ZoneOf` inverts `ZoneValue` on every value that names a zone |
| `PageFrame.WithRef` | src/arch/i386/mm/pmm.h:78-81 | setting the count gives the new value and leaves the zone and address as they were |
| `PageFrame.RefIncremented` | src/arch/i386/mm/pmm.h:83-87 | the count becomes `(old + 1) mod 2^32`. Zone and address are unchanged |
| `PageFrame.RefDecremented` | src/arch/i386/mm/pmm.h:89-93 | the count becomes `(old - 1) mod 2^32`. Zone and address are unchanged |
| `PageFrame.RefIncDecInverse` | src/arch/i386/mm/pmm.h:83-93 | increment then decrement restores the descriptor, and so does the reverse order |
| `PageFrame.RefDecFromZeroWraps` | src/arch/i386/mm/pmm.h:89-93 | decrementing a count of 0 yields 0xFFFFFFFF, because nothing guards it |
| `PageFrame.RefIncFromMaxWraps` | src/arch/i386/mm/pmm.h:83-87 | incrementing a count of 0xFFFFFFFF yields 0 |
| `PageFrame.WithRefOverwrites` | src/arch/i386/mm/pmm.h:78-81 | a second set replaces the first, and setting the current count changes nothing |
| `PageFrame.Page.constructor` | src/arch/i386/mm/pmm.h:66-71 | a descriptor holds a count, a zone and an address |
| `PageFrame.ReadAfterWrite` | src/arch/i386/mm/pmm.h:73-93 | `page_ref` reads back the value `set_page_ref` stored, and the count `page_ref_inc` and `page_ref_dec` return. Zone and address stay as they were |
| `PageFrame.Page.SetPageRef` | src/arch/i386/mm/pmm.h:78-81 | after `set_page_ref(p, v)` the count is `v`. Zone and address are unchanged |
| `PageFrame.Page.PageRefInc` | src/arch/i386/mm/pmm.h:83-87 | the count becomes its wrapping successor, the new count is returned, and no other field changes |
| `PageFrame.Page.PageRefDec` | src/arch/i386/mm/pmm.h:89-93 | the count becomes its wrapping predecessor, the new count is returned, and no other field changes |
| `PageFrame.IncThenDec` | src/arch/i386/mm/pmm.h:83-93 | `page_ref_inc` then `page_ref_dec` on one descriptor leaves it as it was. They return `(old + 1) mod 2^32` and the old count |
| `PageFrame.DecThenInc` | src/arch/i386/mm/pmm.h:83-93 | `page_ref_dec` then `page_ref_inc` on one descriptor leaves it as it was, even from 0 |

## Left out

- The allocation strategy is left out: `struct pmm_manager` (src/arch/i386/mm/pmm.h:102-110), `init_pmm`, `page_init`, `alloc_pages` and `free_pages` (src/arch/i386/mm/pmm.h:113-122). The header declares them but does not implement them, so any contract on allocate or free would be invented. `PmmManager.PmmManager` records the table's shape only.
- PmmManager.AllocPage: a definition only, `alloc_pages` with a count of 1 (src/arch/i386/mm/pmm.h:124). It has no contract, because the header promises nothing about what an allocation does.
- PmmManager.FreePage: a definition only, `free_pages` with a count of 1 (src/arch/i386/mm/pmm.h:125). It has no contract, for the same reason.
- The unit of `n` is not resolved. The comment on `alloc_pages` in the table (src/arch/i386/mm/pmm.h:105) calls `n` a byte count. The `alloc_page()` macro (src/arch/i386/mm/pmm.h:124) passes 1, which suggests a page count. The model takes `n` as a plain `uint32_t` and picks neither reading.
- The globals `phy_pages` and `phy_pages_count` (src/arch/i386/mm/pmm.h:96-99) and the linker symbols `kern_start` and `kern_end` (src/arch/i386/mm/pmm.h:37-38) are defined elsewhere. Their values are not part of this model. A `page_t *` is modelled as `PmmManager.PagePtr`, an index into the frame array or NULL.
- The diagnostics `show_memory_info`, `show_management_info` and `test_mm` (src/arch/i386/mm/pmm.h:107-109, 128-134) are declared without bodies. The first two print diagnostics and `test_mm` self-tests the current strategy. None is modelled, and they are absent from the table model too.
- The firmware call that fills `e820map_t` is boot-stage I/O outside this header. Only the data layout is modelled.
- The reference-count accessors are plain field updates with no locking. Concurrency and atomicity are not modelled. Each `Page` method acts on one descriptor, and aliasing between descriptors of the frame array is not modelled.
- `STACK_SIZE` (src/arch/i386/mm/pmm.h:25) has nothing to do with frames or the memory map.
- `src/include/types.h` contributes only the integer widths. `NULL`, `bool`, `pid_t`, `pgd_t` and `pte_t` are not used.
- Under gcc, `mem_zone_t` has no negative enumerators, so its type is `unsigned int` and a field of that type can hold any 32-bit value. The model's `Zone` holds only the three declared enumerators. `ZoneOf` reads a 32-bit value and gives `None` for every value other than 0, 1 and 2.
- The implementation of the manager is not part of this model: the reading of the memory map into usable regions, the frame array with its reserved frames and its zone thresholds, and the rule that a frame is free when its count is 0. The header's `page_ref_dec` does not guard a count of 0, and the model keeps that behaviour.
- `E820.Base` gives the full 64-bit address of an entry, while `page_t.addr` is 32 bits. Whether memory above 4 GiB is meant to be managed is not settled by the header, and the model does not decide it.
