/**
 Segment descriptors as `ker/protect.c` writes them, decoded as the processor does (Intel SDM volume 3A,
 section 3.4.5). A right shift is a division, a store into a narrow field a remainder, and the
 or-operations of `setseg` add bits that do not overlap.
 */
module Descriptors {

  const U32: nat := 0x1_0000_0000

  /** The fields of `struct segdesc` that `setseg` writes. */
  datatype SegDesc = SegDesc(limitLow: nat, baseLow: nat, baseMiddle: nat, granularity: nat, baseHigh: nat)

  const PAGES: nat := 0x80
  const DEFAULT32: nat := 0x40

  /** `setseg`. */
  function SetSeg(base: nat, size: nat): SegDesc {
    if size > 0xF_FFFF then
      SegDesc(size / 0x1000 % 0x1_0000, base % 0x1_0000, base / 0x1_0000 % 0x100,
              (PAGES + size / 0x1000_0000) % 0x100 + DEFAULT32, base / 0x100_0000 % 0x100)
    else
      SegDesc(size % 0x1_0000, base % 0x1_0000, base / 0x1_0000 % 0x100,
              size / 0x1_0000 % 0x100 + DEFAULT32, base / 0x100_0000 % 0x100)
  }

  /** A descriptor in a table. */
  class Descriptor {
    var limitLow: nat
    var baseLow: nat
    var baseMiddle: nat
    var granularity: nat
    var baseHigh: nat

    constructor ()
      ensures Value() == SegDesc(0, 0, 0, 0, 0)
    {
      limitLow, baseLow, baseMiddle, granularity, baseHigh := 0, 0, 0, 0, 0;
    }

    function Value(): SegDesc
      reads this
    {
      SegDesc(limitLow, baseLow, baseMiddle, granularity, baseHigh)
    }

    /** `setseg`. */
    method Set(base: nat, size: nat)
      requires base < U32 && size < U32
      modifies this
      ensures Value() == SetSeg(base, size)
      ensures BaseOf(Value()) == base
      ensures LimitOf(Value()) == if size > 0xF_FFFF then size / 0x1000 * 0x1000 + 0xFFF else size
    {
      BaseBack(base, size);
      LimitBack(base, size);
      baseLow := base % 0x1_0000;
      baseMiddle := base / 0x1_0000 % 0x100;
      baseHigh := base / 0x100_0000 % 0x100;
      if size > 0xF_FFFF {
        limitLow := size / 0x1000 % 0x1_0000;
        granularity := (PAGES + size / 0x1000_0000) % 0x100;
      } else {
        limitLow := size % 0x1_0000;
        granularity := size / 0x1_0000 % 0x100;
      }
      granularity := granularity + DEFAULT32;
    }
  }

  // ---------- what the processor makes of it ----------

  function BaseOf(s: SegDesc): nat {
    s.baseLow + 0x1_0000 * s.baseMiddle + 0x100_0000 * s.baseHigh
  }

  /** The highest offset; with the granularity flag the limit counts pages of 4096 bytes. */
  function LimitOf(s: SegDesc): nat {
    var l := s.limitLow + 0x1_0000 * (s.granularity % 0x10);
    if s.granularity / PAGES % 2 == 1 then l * 0x1000 + 0xFFF else l
  }

  lemma BaseBack(base: nat, size: nat)
    requires base < U32
    ensures BaseOf(SetSeg(base, size)) == base
  {
    var lo, mid, top := base % 0x1_0000, base / 0x1_0000 % 0x100, base / 0x100_0000;
    assert base == lo + 0x1_0000 * mid + 0x100_0000 * top && top < 0x100;
  }

  /** The limit is the size itself, or the last byte of the page that offset `size` lies in. */
  lemma LimitBack(base: nat, size: nat)
    requires size < U32
    ensures LimitOf(SetSeg(base, size)) == if size > 0xF_FFFF then size / 0x1000 * 0x1000 + 0xFFF else size
  {
    if size > 0xF_FFFF {
      var h, q, r := size / 0x1000_0000, size / 0x1000 % 0x1_0000, size % 0x1000;
      assert size / 0x1000 == 0x1_0000 * h + q;
      Nibble(h);
    } else {
      Nibble(size / 0x1_0000);
    }
  }

  /** Every field fits its bits, and the segment is a 32-bit one. */
  lemma FieldsFit(base: nat, size: nat)
    requires base < U32 && size < U32
    ensures var s := SetSeg(base, size);
            && s.limitLow < 0x1_0000 && s.baseLow < 0x1_0000 && s.baseMiddle < 0x100 && s.baseHigh < 0x100
            && s.granularity < 0x100 && s.granularity / 0x40 % 2 == 1
  {
    if size > 0xF_FFFF {
      Nibble(size / 0x1000_0000);
    } else {
      Nibble(size / 0x1_0000);
    }
  }

  /** Four limit bits under the two flags. */
  lemma Nibble(h: nat)
    requires h < 0x10
    ensures (PAGES + h) % 0x100 + DEFAULT32 == 0xC0 + h && (0xC0 + h) % 0x10 == h && (0xC0 + h) / PAGES == 1
    ensures h % 0x100 + DEFAULT32 == 0x40 + h && (0x40 + h) % 0x10 == h && (0x40 + h) / PAGES == 0
  {
  }
}
