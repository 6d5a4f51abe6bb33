/**
 * The power-of-two ring buffer of main/ulp/ringbuf.h, shared by the
 * low-power core and the main core.  Indices are `uint16_t`; the macros
 * mask with `cap - 1` instead of taking a remainder.
 */
module UlpRingBuf {
  import opened Wrappers
  import opened UlpCommon


  /** ringbuf_check_cap_power_of_2: a non-zero power of two. */
  predicate PowerOfTwo(cap: bv16) {
    cap != 0 && cap & (cap - 1) == 0
  }

  /** The slot ringbuf_push returns and the new values of `*start` and `*count`. */
  datatype Pushed = Pushed(slot: bv16, start: bv16, count: bv16)

  /** ringbuf_push */
  function RingPush(start: bv16, count: bv16, capMinusOne: bv16): Pushed {
    if count <= capMinusOne then Pushed(count, start, count + 1)
    else Pushed(start, (start + 1) & capMinusOne, count)
  }

  /** ringbuf_newest_nth */
  function NewestNth(start: bv16, count: bv16, cap: bv16, i: bv16): bv16 {
    (start + count - (1 + i)) & (cap - 1)
  }

  /** ringbuf_next */
  function Next(cap: bv16, i: bv16): bv16 {
    (i + 1) & (cap - 1)
  }

  /** The capacity of ulp_sample_ringbuf_t, the ring the cores share. */
  const SampleCap: bv16 := 32

  /** 2 to the power k, for k below 16. */
  function Pow2(k: nat): bv16
    requires k < 16
  {
    if k == 0 then 1 else 2 * Pow2(k - 1)
  }

  /** The sixteen powers of two a `uint16_t` holds. */
  predicate Listed(cap: bv16) {
    cap == 1 || cap == 2 || cap == 4 || cap == 8 || cap == 16 || cap == 32 || cap == 64 || cap == 128
    || cap == 256 || cap == 512 || cap == 1024 || cap == 2048 || cap == 4096 || cap == 8192
    || cap == 16384 || cap == 32768
  }

  lemma PowerOfTwoListed(cap: bv16)
    ensures PowerOfTwo(cap) <==> Listed(cap)
  {
  }

  /** The check accepts exactly the powers of two that fit a `uint16_t`, 1 to 32768. */
  lemma PowerOfTwoIff(cap: bv16)
    ensures PowerOfTwo(cap) <==> exists k :: 0 <= k < 16 && cap == Pow2(k)
  {
    PowerOfTwoListed(cap);
    assert Pow2(0) == 1 && Pow2(1) == 2 && Pow2(2) == 4 && Pow2(3) == 8;
    assert Pow2(4) == 16 && Pow2(5) == 32 && Pow2(6) == 64 && Pow2(7) == 128;
    assert Pow2(8) == 256 && Pow2(9) == 512 && Pow2(10) == 1024 && Pow2(11) == 2048;
    assert Pow2(12) == 4096 && Pow2(13) == 8192 && Pow2(14) == 16384 && Pow2(15) == 32768;
    if PowerOfTwo(cap) {
      var k := Log2(cap);
      assert cap == Pow2(k);
    }
  }

  /** The exponent of a power of two. */
  function Log2(cap: bv16): (k: nat)
    requires Listed(cap)
    ensures k < 16
  {
    if cap == 1 then 0 else if cap == 2 then 1 else if cap == 4 then 2 else if cap == 8 then 3
    else if cap == 16 then 4 else if cap == 32 then 5 else if cap == 64 then 6 else if cap == 128 then 7
    else if cap == 256 then 8 else if cap == 512 then 9 else if cap == 1024 then 10 else if cap == 2048 then 11
    else if cap == 4096 then 12 else if cap == 8192 then 13 else if cap == 16384 then 14 else 15
  }

  /**
   * ringbuf_check_cap_power_of_2: the capacity itself, the size of the
   * struct holding the static assertion adding nothing; a capacity that is
   * not a power of two does not compile.
   */
  function CheckCap(cap: bv16): (r: Option<bv16>)
    ensures r.Some? <==> exists k :: 0 <= k < 16 && cap == Pow2(k)
    ensures r.Some? ==> r.value == cap
  {
    PowerOfTwoIff(cap);
    if PowerOfTwo(cap) then Some(cap) else None
  }

  /**
   * The static assertion in the header: the check of 2 yields 2; and the
   * sample ring compiles, its capacity being 2 to the power 5.
   */
  lemma CapacityCheck()
    ensures CheckCap(2) == Some(2) && CheckCap(SampleCap) == Some(SampleCap)
    ensures CheckCap(0) == None && CheckCap(24) == None
  {
  }

  /**
   * The state every push keeps on a ring of `cap` slots: the start is a
   * slot, the count at most the capacity, and (the ring being zeroed
   * static storage) the start stays 0 until the ring is full.
   */
  predicate RingOk(cap: bv16, start: bv16, count: bv16) {
    start < cap && count <= cap && (count < cap ==> start == 0)
  }

  /** A push keeps the ring well formed and returns a slot of the array. */
  lemma PushKeepsRing(cap: bv16, start: bv16, count: bv16)
    requires PowerOfTwo(cap) && RingOk(cap, start, count)
    ensures var r := RingPush(start, count, cap - 1);
            RingOk(cap, r.start, r.count) && r.slot < cap
  {
  }

  /** Below the capacity a push appends: it returns the old count, counts one more and keeps the start. */
  lemma PushWhileFilling(cap: bv16, start: bv16, count: bv16)
    requires PowerOfTwo(cap) && RingOk(cap, start, count) && count < cap
    ensures RingPush(start, count, cap - 1) == Pushed(count, start, count + 1)
  {
  }

  /** At the capacity a push overwrites the oldest slot and moves the start to the next one. */
  lemma PushWhenFull(cap: bv16, start: bv16)
    requires PowerOfTwo(cap) && RingOk(cap, start, cap)
    ensures RingPush(start, cap, cap - 1) == Pushed(start, Next(cap, start), cap)
  {
  }

  /** ringbuf_next steps through the slots: i + 1, and 0 after the last one. */
  lemma NextWraps(cap: bv16, i: bv16)
    requires PowerOfTwo(cap) && i < cap
    ensures Next(cap, i) < cap
    ensures i + 1 < cap ==> Next(cap, i) == i + 1
    ensures i + 1 == cap ==> Next(cap, i) == 0
  {
  }

  /** The slot a push returns is ringbuf_newest afterwards, on the sample ring. */
  lemma PushedIsNewest(start: bv16, count: bv16)
    requires RingOk(SampleCap, start, count)
    ensures var r := RingPush(start, count, SampleCap - 1); NewestNth(r.start, r.count, SampleCap, 0) == r.slot
  {
  }

  /** Every push on the sample ring ages the entries: the n-th newest becomes the n+1-th newest. */
  lemma PushAges(start: bv16, count: bv16, n: bv16)
    requires RingOk(SampleCap, start, count)
    ensures var r := RingPush(start, count, SampleCap - 1);
      NewestNth(r.start, r.count, SampleCap, n + 1) == NewestNth(start, count, SampleCap, n)
  {
    if count < SampleCap {
      AgesWhileFilling(SampleCap, start, count, n);
    } else {
      AgesWhenFull(start, n);
    }
  }

  /** Below the capacity the start stays and the count grows by one. */
  lemma AgesWhileFilling(cap: bv16, start: bv16, count: bv16, n: bv16)
    ensures NewestNth(start, count + 1, cap, n + 1) == NewestNth(start, count, cap, n)
  {
  }

  /** At the capacity the start moves on by one slot. */
  lemma AgesWhenFull(start: bv16, n: bv16)
    ensures NewestNth(Next(SampleCap, start), SampleCap, SampleCap, n + 1) == NewestNth(start, SampleCap, SampleCap, n)
  {
  }

  /** ringbuf_newest_nth names `count` distinct slots of the sample ring. */
  lemma NewestDistinct(start: bv16, count: bv16, m: bv16, n: bv16)
    requires RingOk(SampleCap, start, count) && m < count && n < count && m != n
    ensures NewestNth(start, count, SampleCap, m) != NewestNth(start, count, SampleCap, n)
  {
  }

  /**
   * ulp_sample_ringbuf_t and `*ringbuf_emplace(&sample_ringbuf) = sample`
   * (main/ulp/main.c), the only use of the ring.
   */
  class SampleRing {
    var start: bv16
    var count: bv16
    const items: array<Sample>

    ghost predicate Valid()
      reads this
    {
      items.Length == SampleCap as int && RingOk(SampleCap, start, count)
    }

    /** The zero-initialised static storage. */
    constructor(blank: Sample)
      ensures Valid() && start == 0 && count == 0 && fresh(items)
    {
      start := 0;
      count := 0;
      items := new Sample[SampleCap as int](_ => blank);
    }

    /** ringbuf_push, writing through `&start` and `&count`. */
    method Push(capMinusOne: bv16) returns (slot: bv16)
      modifies this
      ensures Pushed(slot, start, count) == RingPush(old(start), old(count), capMinusOne)
    {
      if count <= capMinusOne {
        slot := count;
        count := count + 1;
      } else {
        slot := start;
        start := (start + 1) & capMinusOne;
      }
    }

    /** ringbuf_emplace followed by the store of the new sample. */
    method Emplace(sample: Sample) returns (slot: bv16)
      requires Valid()
      modifies this, items
      ensures Valid()
      ensures CheckCap(SampleCap).Some?
      ensures Pushed(slot, start, count) == RingPush(old(start), old(count), CheckCap(SampleCap).value - 1)
      ensures slot < SampleCap && items[slot as int] == sample
      ensures NewestNth(start, count, SampleCap, 0) == slot
      ensures forall k :: 0 <= k < items.Length && k != slot as int ==> items[k] == old(items[k])
    {
      CapacityCheck();
      PushKeepsRing(SampleCap, start, count);
      PushedIsNewest(start, count);
      slot := Push(CheckCap(SampleCap).value - 1);
      items[slot] := sample;
    }
  }
}
