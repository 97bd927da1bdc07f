/**
 * Architecture.cs: the machine's size parameters (all C# longs), the data-path
 * masks derived from them, and the conversion between a code index (the position
 * of an opcode in the program) and a packed address (word address shifted left,
 * sub-word slot in the low bits).
 */
module Architecture {
  import opened Wrappers
  import opened Bits

  /** `x << (int)k` on a long: the count is cast to int and masked to 6 bits, the product wraps. */
  function ShiftLeft64(x: int, k: int): (r: int)
    ensures IsInt64(r)
  {
    Wrap64(x * Pow2(Wrap32(k) % 64))
  }

  /** `x >> (int)k` on a long: an arithmetic shift, that is floor division by 2^count. */
  function ShiftRight64(x: int, k: int): (r: int)
    ensures IsInt64(x) ==> IsInt64(r)
    ensures 0 <= x ==> 0 <= r <= x
  {
    var p := Pow2(Wrap32(k) % 64);
    assert x < 0 ==> x <= x / p < 0 by {
      if x < 0 { DivBounds(x, p); }
    }
    assert 0 <= x ==> 0 <= x / p <= x by {
      if 0 <= x { DivMod(x, p); }
    }
    x / p
  }

  lemma DivBounds(x: int, p: int)
    requires x < 0 && p >= 1
    ensures x <= x / p < 0
  {
    QuotientBounds(x, p, x / p, x % p);
  }

  lemma QuotientBounds(x: int, p: int, q: int, m: int)
    requires x < 0 && p >= 1 && x == p * q + m && 0 <= m < p
    ensures x <= q < 0
  {
    var a, b := p - 1, -(q + 1);
    assert a * b >= 0;
    assert a * b == -(p * q) - p + q + 1;
  }

  /**
   * `(1 << (int)k) - 1`, computed in 32-bit int arithmetic: the count is masked to
   * 5 bits, so the mask has Wrap32(k) % 32 one bits (never more than 31).
   */
  function IntLowMask(k: int): (r: int)
    ensures r == Pow2(Wrap32(k) % 32) - 1
  {
    var j := Wrap32(k) % 32;
    Pow2Monotone(j, 31);
    Pow2Values();
    assert Pow2(j) < Two31 || Pow2(j) == Two31;
    Wrap32(Wrap32(Pow2(j)) - 1)
  }

  /** `x & (2^j - 1)`: keeping the low j bits of a two's complement value is reduction modulo 2^j. */
  function LowBits(x: int, j: nat): (r: int)
    ensures 0 <= r < Pow2(j)
  {
    x % Pow2(j)
  }

  datatype Arch = Arch(
    opcodeWordSize: int,
    opcodeInstructionSize: int,
    opcodeInstructionsPerWord: int,
    opcodeSubWordSlotBits: int,
    dataPathWordSize: int)
  {
    /** `1L << (int)DataPathWordSize`. */
    function DataPathCarryBit(): (r: int)
      ensures IsInt64(r)
    {
      ShiftLeft64(1, dataPathWordSize)
    }

    /** `DataPathCarryBit - 1`, wrapping at long.MinValue. */
    function DataPathMask(): (r: int)
      ensures IsInt64(r)
    {
      Wrap64(DataPathCarryBit() - 1)
    }

    /** `DataPathCarryBit >> 1`. */
    function DataPathMsBit(): (r: int)
      ensures IsInt64(r)
    {
      ShiftRight64(DataPathCarryBit(), 1)
    }

    /** Division of v by OpcodeInstructionsPerWord does not throw. */
    predicate Divides(v: int) {
      opcodeInstructionsPerWord != 0 && !(v == -Two63 && opcodeInstructionsPerWord == -1)
    }

    /**
     * Code index to packed address: word address in the high bits, slot in the low
     * bits. The long division throws for zero instructions per word, and overflows
     * for long.MinValue divided by -1.
     */
    function ToAddressAndSubWordSlot(v: int): (r: Result<int>)
      ensures r.Ok? <==> Divides(v)
      ensures opcodeInstructionsPerWord == 0 ==> r == Err(DivideByZero)
      ensures opcodeInstructionsPerWord != 0 && !Divides(v) ==> r == Err(ArithmeticOverflow)
      ensures r.Ok? ==> IsInt64(r.value)
    {
      var p := opcodeInstructionsPerWord;
      if p == 0 then Err(DivideByZero)
      else if v == -Two63 && p == -1 then Err(ArithmeticOverflow)
      else Ok(Wrap64(ShiftLeft64(TDiv(v, p), opcodeSubWordSlotBits) + TRem(v, p)))
    }

    /** Packed address to code index, with the slot mask built as a 32-bit int. */
    function ToCodeIndex(a: int): (r: int)
      ensures IsInt64(r)
    {
      var k := opcodeSubWordSlotBits;
      Wrap64(Wrap64(ShiftRight64(a, k) * opcodeInstructionsPerWord) + LowBits(a, Wrap32(k) % 32))
    }

    /** ToCodeIndex with the mask built as a long (`(1L << k) - 1`). */
    function ToCodeIndexWide(a: int): (r: int)
      ensures IsInt64(r)
    {
      var k := opcodeSubWordSlotBits;
      Wrap64(Wrap64(ShiftRight64(a, k) * opcodeInstructionsPerWord) + LowBits(a, Wrap32(k) % 64))
    }

    /** Slot numbers fit the slot field and its shift does not wrap. */
    predicate SlotsFit() {
      1 <= opcodeInstructionsPerWord && 0 <= opcodeSubWordSlotBits < 63
      && opcodeInstructionsPerWord <= Pow2(opcodeSubWordSlotBits)
    }
  }

  /** The property initialisers. */
  function Defaults(): (a: Arch)
    ensures a.SlotsFit()
  {
    Arch(32, 5, 6, 3, 32)
  }

  /** A shift count in 0..62 survives the int cast and the 6-bit count mask. */
  lemma SmallCount(k: int)
    requires 0 <= k < 63
    ensures Wrap32(k) == k && Wrap32(k) % 64 == k && (k < 32 ==> Wrap32(k) % 32 == k)
  {
  }

  lemma ShiftLeftExact(x: int, k: int)
    requires 0 <= k < 63 && IsInt64(x * Pow2(k))
    ensures ShiftLeft64(x, k) == x * Pow2(k)
  {
    SmallCount(k);
  }

  lemma ShiftRightExact(x: int, k: int)
    requires 0 <= k < 63
    ensures ShiftRight64(x, k) == x / Pow2(k)
  {
    SmallCount(k);
  }

  /** The masks are 2^w, 2^w - 1 and 2^(w-1) while the data path is narrower than 63 bits. */
  lemma DataPathMasks(a: Arch)
    requires 0 <= a.dataPathWordSize < 63
    ensures a.DataPathCarryBit() == Pow2(a.dataPathWordSize)
    ensures a.DataPathMask() == Pow2(a.dataPathWordSize) - 1
    ensures a.DataPathMsBit() == Pow2(a.dataPathWordSize) / 2
    ensures a.dataPathWordSize >= 1 ==> 2 * a.DataPathMsBit() == a.DataPathCarryBit()
  {
    var w := a.dataPathWordSize;
    assert Pow2(w) < Two63 by {
      Pow2Monotone(w, 62);
      Pow2Add(62, 1);
      Pow2Values();
    }
    ShiftLeftExact(1, w);
    ShiftRightExact(Pow2(w), 1);
  }

  /** At 63 bits the carry bit is long.MinValue and the mask long.MaxValue. */
  lemma DataPathMasksAt63(a: Arch)
    requires a.dataPathWordSize == 63
    ensures a.DataPathCarryBit() == -Two63 && a.DataPathMask() == Two63 - 1
    ensures a.DataPathMsBit() == -Two63 / 2
  {
    assert Wrap32(63) == 63;
    Pow2Values();
    assert Wrap32(1) % 64 == 1;
  }

  lemma DefaultMasks()
    ensures Defaults().DataPathCarryBit() == 0x1_0000_0000
    ensures Defaults().DataPathMask() == 0xFFFF_FFFF
    ensures Defaults().DataPathMsBit() == 0x8000_0000
  {
    DataPathMasks(Defaults());
    Pow2Values();
  }

  lemma MulMonotone(q: int, p: int, m: int)
    requires 0 <= q && p <= m
    ensures q * p <= q * m
  {
    assert q * m - q * p == q * (m - p);
  }

  /** Packing a code index: (v / p) shifted by k, plus v % p, all as plain arithmetic. */
  lemma AddressOf(a: Arch, v: int)
    requires a.SlotsFit() && 0 <= v
    requires v / a.opcodeInstructionsPerWord * Pow2(a.opcodeSubWordSlotBits) + v % a.opcodeInstructionsPerWord < Two63
    ensures a.ToAddressAndSubWordSlot(v) ==
      Ok(v / a.opcodeInstructionsPerWord * Pow2(a.opcodeSubWordSlotBits) + v % a.opcodeInstructionsPerWord)
  {
    var p, k := a.opcodeInstructionsPerWord, a.opcodeSubWordSlotBits;
    var q, r := v / p, v % p;
    DivMod(v, p);
    assert TDiv(v, p) == q;
    assert TRem(v, p) == r;
    MulMonotone(q, 0, Pow2(k));
    ShiftLeftExact(q, k);
  }

  /** Unpacking an address whose slot field is r: word q times p, plus r. */
  lemma IndexOf(a: Arch, q: int, r: int)
    requires a.SlotsFit() && 0 <= q && 0 <= r < Pow2(a.opcodeSubWordSlotBits)
    requires q * Pow2(a.opcodeSubWordSlotBits) + r < Two63
    ensures a.ToCodeIndexWide(q * Pow2(a.opcodeSubWordSlotBits) + r) == q * a.opcodeInstructionsPerWord + r
  {
    var p, k := a.opcodeInstructionsPerWord, a.opcodeSubWordSlotBits;
    var x := q * Pow2(k) + r;
    SmallCount(k);
    ShiftRightExact(x, k);
    DivModSplit(r, Pow2(k), q);
    assert x / Pow2(k) == q && x % Pow2(k) == r;
    MulMonotone(q, p, Pow2(k));
    MulMonotone(q, 0, p);
  }

  /** A packed code index unpacks to itself (with the long-wide slot mask). */
  lemma CodeIndexRoundTripWide(a: Arch, v: int)
    requires a.SlotsFit() && 0 <= v
    requires v / a.opcodeInstructionsPerWord * Pow2(a.opcodeSubWordSlotBits) + v % a.opcodeInstructionsPerWord < Two63
    ensures a.ToAddressAndSubWordSlot(v).Ok? && a.ToCodeIndexWide(a.ToAddressAndSubWordSlot(v).value) == v
  {
    var p, k := a.opcodeInstructionsPerWord, a.opcodeSubWordSlotBits;
    var q, r := v / p, v % p;
    DivMod(v, p);
    AddressOf(a, v);
    var x := a.ToAddressAndSubWordSlot(v).value;
    assert x == q * Pow2(k) + r;
    IndexOf(a, q, r);
  }

  /** With at most 31 slot bits the 32-bit mask and the 64-bit mask agree. */
  lemma NarrowMaskAgrees(a: Arch, x: int)
    requires 0 <= a.opcodeSubWordSlotBits < 32
    ensures a.ToCodeIndex(x) == a.ToCodeIndexWide(x)
  {
    SmallCount(a.opcodeSubWordSlotBits);
  }

  /** With at most 31 slot bits the source's ToCodeIndex undoes ToAddressAndSubWordSlot. */
  lemma CodeIndexRoundTrip(a: Arch, v: int)
    requires a.SlotsFit() && a.opcodeSubWordSlotBits <= 31 && 0 <= v
    requires v / a.opcodeInstructionsPerWord * Pow2(a.opcodeSubWordSlotBits) + v % a.opcodeInstructionsPerWord < Two63
    ensures a.ToAddressAndSubWordSlot(v).Ok? && a.ToCodeIndex(a.ToAddressAndSubWordSlot(v).value) == v
  {
    CodeIndexRoundTripWide(a, v);
    NarrowMaskAgrees(a, a.ToAddressAndSubWordSlot(v).value);
  }

  /** An address whose slot field names an existing slot packs back to itself. */
  lemma AddressRoundTrip(a: Arch, x: int)
    requires a.SlotsFit() && a.opcodeSubWordSlotBits <= 31 && 0 <= x < Two63
    requires x % Pow2(a.opcodeSubWordSlotBits) < a.opcodeInstructionsPerWord
    ensures a.ToAddressAndSubWordSlot(a.ToCodeIndex(x)) == Ok(x)
  {
    var m := Pow2(a.opcodeSubWordSlotBits);
    DivMod(x, m);
    UnpackIndex(a, x);
    PackIndex(a, x / m, x % m);
  }

  /** Packing the code index of word q, slot r gives back q shifted by k, plus r. */
  lemma PackIndex(a: Arch, q: int, r: int)
    requires a.SlotsFit() && 0 <= q && 0 <= r < a.opcodeInstructionsPerWord
    requires q * Pow2(a.opcodeSubWordSlotBits) + r < Two63
    ensures var c := q * a.opcodeInstructionsPerWord + r;
      a.ToAddressAndSubWordSlot(c) == Ok(q * Pow2(a.opcodeSubWordSlotBits) + r)
  {
    var p := a.opcodeInstructionsPerWord;
    var c := q * p + r;
    DivModSplit(r, p, q);
    MulMonotone(q, 0, p);
    assert c / p == q && c % p == r && 0 <= c;
    AddressOf(a, c);
  }

  lemma UnpackIndex(a: Arch, x: int)
    requires a.SlotsFit() && a.opcodeSubWordSlotBits <= 31 && 0 <= x < Two63
    ensures var m := Pow2(a.opcodeSubWordSlotBits);
      a.ToCodeIndex(x) == x / m * a.opcodeInstructionsPerWord + x % m
  {
    var m := Pow2(a.opcodeSubWordSlotBits);
    DivMod(x, m);
    NarrowMaskAgrees(a, x);
    IndexOf(a, x / m, x % m);
  }

  /** A code index at the start of a word packs to slot field 0. */
  lemma WordStartSlotZero(a: Arch, v: int)
    requires a.SlotsFit() && 0 <= v && v % a.opcodeInstructionsPerWord == 0
    requires v / a.opcodeInstructionsPerWord * Pow2(a.opcodeSubWordSlotBits) < Two63
    ensures a.ToAddressAndSubWordSlot(v).Ok? && a.ToAddressAndSubWordSlot(v).value % Pow2(a.opcodeSubWordSlotBits) == 0
  {
    var q, m := v / a.opcodeInstructionsPerWord, Pow2(a.opcodeSubWordSlotBits);
    AddressOf(a, v);
    assert a.ToAddressAndSubWordSlot(v).value == q * m;
    MulModZero(q, m);
  }

  /** Under the defaults (6 slots, 3 slot bits) the slot field is v % 6. */
  lemma DefaultSlotField(v: int)
    requires 0 <= v < Two32
    ensures Defaults().ToAddressAndSubWordSlot(v).Ok? && Defaults().ToAddressAndSubWordSlot(v).value % 8 == v % 6
  {
    Pow2Values();
    DivMod(v, 6);
    AddressOf(Defaults(), v);
    assert Defaults().ToAddressAndSubWordSlot(v).value == v % 6 + 8 * (v / 6);
    DivModSplit(v % 6, 8, v / 6);
  }

  lemma ThirtyTwoBitSlotAddress(a: Arch)
    requires a.opcodeSubWordSlotBits == 32 && 2 <= a.opcodeInstructionsPerWord
    ensures a.ToAddressAndSubWordSlot(1) == Ok(1)
  {
    SmallCount(32);
    assert TDiv(1, a.opcodeInstructionsPerWord) == 0;
  }

  lemma ThirtyTwoBitSlotIndex(a: Arch)
    requires a.opcodeSubWordSlotBits == 32
    ensures a.ToCodeIndex(1) == 0 && a.ToCodeIndexWide(1) == 1
  {
    SmallCount(32);
    Pow2Values();
    assert Pow2(0) == 1;
    assert ShiftRight64(1, 32) == 1 / Two32 == 0;
    assert LowBits(1, 0) == 1 % 1 == 0;
    assert LowBits(1, 32) == 1 % Two32 == 1;
  }

  /**
   * With 32 slot bits the int mask `(1 << 32) - 1` is 0, so ToCodeIndex loses the slot:
   * code index 1 packs to address 1, which unpacks to 0 (the long-wide mask gives 1 back).
   */
  lemma WideSlotFieldLosesSlot(a: Arch)
    requires a.opcodeSubWordSlotBits == 32 && 2 <= a.opcodeInstructionsPerWord <= Two32
    ensures a.SlotsFit()
    ensures a.ToAddressAndSubWordSlot(1) == Ok(1) && a.ToCodeIndex(1) == 0 && a.ToCodeIndexWide(1) == 1
  {
    Pow2Values();
    ThirtyTwoBitSlotAddress(a);
    ThirtyTwoBitSlotIndex(a);
  }
}
