/**
 The packed ARGB colour codec (`ColorFromArgb`, `ColorToArgb` in
 XIVLauncher/Util.cs). A C# `int` is modelled by its two's-complement bit
 pattern, a `bv32`; a colour channel (a C# `byte`) is a `bv8`.
 Layout: alpha in bits 24-31, red in 16-23, green in 8-15, blue in 0-7.
 */
module Argb {

  /** A colour as its four sRGB bytes, the only part `ColorToArgb` reads. */
  datatype Color = Color(a: bv8, r: bv8, g: bv8, b: bv8)

  /**
   C#'s `>>` on a signed `int`: an arithmetic shift. The bits the shift keeps
   are those of the logical shift; `SarSignExtends` states the filled ones.
   */
  function Sar(x: bv32, n: bv32): (r: bv32)
    requires n < 32
    ensures r & (0xFFFF_FFFF >> n) == x >> n
  {
    if x & 0x8000_0000 == 0 then x >> n else (x >> n) | !(0xFFFF_FFFF >> n)
  }

  /**
   Every bit vacated by the shift is a copy of the sign bit: a non-negative
   value shifts in zeros, a negative one shifts in ones.
   */
  lemma SarSignExtends(x: bv32, n: bv32)
    requires n < 32
    ensures Sar(x, n) & 0x8000_0000 == x & 0x8000_0000
    ensures x & 0x8000_0000 == 0 ==> Sar(x, n) == x >> n
    ensures x & 0x8000_0000 != 0 ==> Sar(x, n) | (0xFFFF_FFFF >> n) == 0xFFFF_FFFF
  {
    if x & 0x8000_0000 == 0 {
      ShiftClearsTopBit(x, n);
    } else {
      FillKeepsTopBit(x, n);
      FillSetsVacatedBits(x, n);
    }
  }

  lemma ShiftClearsTopBit(x: bv32, n: bv32)
    requires n < 32 && x & 0x8000_0000 == 0
    ensures (x >> n) & 0x8000_0000 == 0
  {
  }

  lemma FillKeepsTopBit(x: bv32, n: bv32)
    requires n < 32 && x & 0x8000_0000 != 0
    ensures ((x >> n) | !(0xFFFF_FFFF >> n)) & 0x8000_0000 == 0x8000_0000
  {
  }

  lemma FillSetsVacatedBits(x: bv32, n: bv32)
    requires n < 32
    ensures ((x >> n) | !(0xFFFF_FFFF >> n)) | (0xFFFF_FFFF >> n) == 0xFFFF_FFFF
  {
  }

  /** An unchecked `(byte)` cast keeps the low eight bits. */
  function LowByte(x: bv32): bv8
  {
    (x & 0xFF) as bv8
  }

  /** `ColorFromArgb`: each channel is the low byte of the value shifted down. */
  function ColorFromArgb(argb: bv32): (c: Color)
    ensures c.a as bv32 == argb >> 24
    ensures c.r as bv32 == (argb >> 16) & 0xFF
    ensures c.g as bv32 == (argb >> 8) & 0xFF
    ensures c.b as bv32 == argb & 0xFF
  {
    Color(LowByte(Sar(argb, 24)), LowByte(Sar(argb, 16)), LowByte(Sar(argb, 8)), LowByte(argb))
  }

  /** `ColorToArgb`: the channels shifted into place and or-ed together. */
  function ColorToArgb(c: Color): (argb: bv32)
    ensures argb >> 24 == c.a as bv32
    ensures (argb >> 16) & 0xFF == c.r as bv32
    ensures (argb >> 8) & 0xFF == c.g as bv32
    ensures argb & 0xFF == c.b as bv32
  {
    (c.a as bv32 << 24) | (c.r as bv32 << 16) | (c.g as bv32 << 8) | c.b as bv32
  }

  /** Unpacking then packing gives back every 32-bit value. */
  lemma ArgbRoundTrip(argb: bv32)
    ensures ColorToArgb(ColorFromArgb(argb)) == argb
  {
  }

  /** Packing then unpacking gives back every colour built from four bytes. */
  lemma ColorRoundTrip(c: Color)
    ensures ColorFromArgb(ColorToArgb(c)) == c
  {
  }

  /** The value of a bit pattern read as a C# `int` (two's complement). */
  function SignedValue(x: bv32): (v: int)
    ensures -0x8000_0000 <= v < 0x8000_0000
    ensures v < 0 <==> x & 0x8000_0000 != 0
  {
    HighBitIsSign(x);
    if x < 0x8000_0000 then x as int else x as int - 0x1_0000_0000
  }

  lemma HighBitIsSign(x: bv32)
    ensures x < 0x8000_0000 <==> x & 0x8000_0000 == 0
    ensures x < 0x8000_0000 <==> x as int < 0x8000_0000
    ensures x as int < 0x1_0000_0000
  {
    BitIsSignAsBits(x);
    if x < 0x8000_0000 {
      BelowHalfAsInt(x);
    } else {
      AtLeastHalfAsInt(x);
    }
  }

  lemma BitIsSignAsBits(x: bv32)
    ensures x < 0x8000_0000 <==> x & 0x8000_0000 == 0
  {
  }

  lemma BelowHalfAsInt(x: bv32)
    requires x < 0x8000_0000
    ensures x as int < 0x8000_0000
  {
    assert (x as bv31) as int == x as int;
  }

  lemma AtLeastHalfAsInt(x: bv32)
    requires x >= 0x8000_0000
    ensures 0x8000_0000 <= x as int < 0x1_0000_0000
  {
  }

  /** Distinct bit patterns are distinct `int` values. */
  lemma SignedValueInjective(x: bv32, y: bv32)
    ensures SignedValue(x) == SignedValue(y) <==> x == y
  {
    if SignedValue(x) == SignedValue(y) {
      assert x as int == y as int;
      assert (x as int) as bv32 == x && (y as int) as bv32 == y;
    }
  }

  /**
   `color.A << 24` wraps in C#: the packed `int` is negative exactly when
   the alpha channel has its top bit set.
   */
  lemma PackedSignFollowsAlpha(c: Color)
    ensures SignedValue(ColorToArgb(c)) < 0 <==> c.a >= 0x80
  {
  }

  /** Conversely, a negative `int` always unpacks to an alpha of at least 0x80. */
  lemma NegativeArgbHasHighAlpha(argb: bv32)
    ensures ColorFromArgb(argb).a >= 0x80 <==> SignedValue(argb) < 0
  {
  }
}
