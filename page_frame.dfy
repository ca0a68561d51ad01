/**
 * The physical page-frame descriptor `page_t` of src/arch/i386/mm/pmm.h and
 * its reference-count accessors.  A descriptor records a frame's reference
 * count, its memory zone and its physical address; the accessors read or
 * change the count and nothing else.  The count is a `uint32_t`, so
 * incrementing and decrementing it wrap around modulo 2^32 and nothing keeps
 * a decrement from taking 0 to 0xFFFFFFFF.
 */
module PageFrame {
  import opened Types
  import opened Wrappers

  /** mem_zone_t: the memory zone a frame belongs to */
  datatype Zone = ZoneDma | ZoneNormal | ZoneHighmem

  /**
   * The enumerator value of a zone: ZONE_DMA = 0, ZONE_NORMAL = 1, ZONE_HIGHMEM = 2.
   * With no negative enumerators, gcc gives mem_zone_t the type `unsigned int`.
   */
  function ZoneValue(z: Zone): (v: u32)
    ensures 0 <= v < 3
  {
    match z
    case ZoneDma => 0
    case ZoneNormal => 1
    case ZoneHighmem => 2
  }

  /** The zone an enumerator value names, if any. */
  function ZoneOf(v: u32): (r: Option<Zone>)
    ensures r.Some? <==> v < 3
  {
    if v == 0 then Some(ZoneDma)
    else if v == 1 then Some(ZoneNormal)
    else if v == 2 then Some(ZoneHighmem)
    else None
  }

  /** Zones and their enumerator values correspond one to one. */
  lemma ZoneValueRoundTrip(z: Zone, v: u32)
    ensures ZoneOf(ZoneValue(z)) == Some(z)
    ensures ZoneOf(v).Some? ==> ZoneValue(ZoneOf(v).value) == v
  {
  }

  /** The contents of a descriptor (`type` in the structure is `zone` here). */
  datatype PageState = PageState(ref: u32, zone: Zone, addr: u32)

  /** set_page_ref on a descriptor's contents: the count becomes `val`. */
  function WithRef(s: PageState, val: u32): (r: PageState)
    ensures r.ref == val
    ensures r.zone == s.zone && r.addr == s.addr
  {
    s.(ref := val)
  }

  /** page_ref_inc on a descriptor's contents: the count goes up by one, modulo 2^32. */
  function RefIncremented(s: PageState): (r: PageState)
    ensures r.ref as int == (s.ref as int + 1) % U32_MODULUS
    ensures r.zone == s.zone && r.addr == s.addr
  {
    s.(ref := Inc32(s.ref))
  }

  /** page_ref_dec on a descriptor's contents: the count goes down by one, modulo 2^32. */
  function RefDecremented(s: PageState): (r: PageState)
    ensures r.ref as int == (s.ref as int - 1) % U32_MODULUS
    ensures r.zone == s.zone && r.addr == s.addr
  {
    s.(ref := Dec32(s.ref))
  }

  /** Incrementing then decrementing restores the descriptor, and so does the reverse order. */
  lemma RefIncDecInverse(s: PageState)
    ensures RefDecremented(RefIncremented(s)) == s
    ensures RefIncremented(RefDecremented(s)) == s
  {
    IncDecInverse(s.ref);
  }

  /** Decrementing a count of 0 is not guarded: it yields 0xFFFFFFFF. */
  lemma RefDecFromZeroWraps(s: PageState)
    requires s.ref == 0
    ensures RefDecremented(s).ref == U32_MAX
  {
  }

  /** Incrementing a count of 0xFFFFFFFF yields 0. */
  lemma RefIncFromMaxWraps(s: PageState)
    requires s.ref == U32_MAX
    ensures RefIncremented(s).ref == 0
  {
  }

  /** Setting the count twice keeps the second value; setting it to itself changes nothing. */
  lemma WithRefOverwrites(s: PageState, v: u32, w: u32)
    ensures WithRef(WithRef(s, v), w) == WithRef(s, w)
    ensures WithRef(s, s.ref) == s
  {
  }

  /** page_t: a frame descriptor, updated in place through a pointer. */
  class Page {
    var ref: u32
    var zone: Zone
    var addr: u32

    /** The descriptor's current contents. */
    function State(): PageState
      reads this
    {
      PageState(ref, zone, addr)
    }

    constructor (ref: u32, zone: Zone, addr: u32)
      ensures State() == PageState(ref, zone, addr)
    {
      this.ref := ref;
      this.zone := zone;
      this.addr := addr;
    }

    /** page_ref: the current reference count; reading it changes nothing. */
    function PageRef(): (r: u32)
      reads this
      ensures r == State().ref
    {
      ref
    }

    /** set_page_ref: the count becomes `val`; zone and address are unchanged. */
    method SetPageRef(val: u32)
      modifies this
      ensures State() == WithRef(old(State()), val)
    {
      ref := val;
    }

    /** page_ref_inc: increments the count modulo 2^32 and returns the new count. */
    method PageRefInc() returns (r: u32)
      modifies this
      ensures State() == RefIncremented(old(State()))
      ensures r == ref
    {
      ref := Inc32(ref);
      r := ref;
    }

    /** page_ref_dec: decrements the count modulo 2^32 and returns the new count. */
    method PageRefDec() returns (r: u32)
      modifies this
      ensures State() == RefDecremented(old(State()))
      ensures r == ref
    {
      ref := Dec32(ref);
      r := ref;
    }
  }

  /**
   * page_ref reads back what each mutator leaves: the value just set, and the
   * count that page_ref_inc and page_ref_dec return.  Zone and address never change.
   */
  method ReadAfterWrite(p: Page, v: u32) returns (afterSet: u32, inc: u32, afterInc: u32, dec: u32, afterDec: u32)
    modifies p
    ensures afterSet == v
    ensures afterInc == inc && inc as int == (v as int + 1) % U32_MODULUS
    ensures afterDec == dec && dec == v
    ensures p.PageRef() == v
    ensures p.zone == old(p.zone) && p.addr == old(p.addr)
  {
    p.SetPageRef(v);
    afterSet := p.PageRef();
    inc := p.PageRefInc();
    afterInc := p.PageRef();
    dec := p.PageRefDec();
    afterDec := p.PageRef();
    RefIncDecInverse(WithRef(old(p.State()), v));
  }

  /** An increment followed by a decrement leaves the descriptor as it was. */
  method IncThenDec(p: Page) returns (up: u32, down: u32)
    modifies p
    ensures p.State() == old(p.State())
    ensures up as int == (old(p.ref) as int + 1) % U32_MODULUS && down == old(p.ref)
  {
    up := p.PageRefInc();
    down := p.PageRefDec();
    RefIncDecInverse(old(p.State()));
  }

  /** A decrement followed by an increment leaves the descriptor as it was, even from a count of 0. */
  method DecThenInc(p: Page) returns (down: u32, up: u32)
    modifies p
    ensures p.State() == old(p.State())
    ensures down as int == (old(p.ref) as int - 1) % U32_MODULUS && up == old(p.ref)
  {
    down := p.PageRefDec();
    up := p.PageRefInc();
    RefIncDecInverse(old(p.State()));
  }
}
