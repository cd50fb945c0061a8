/** The CRC of the game identifier (src/system.c): a table filled upside down,
    proved equal to the bit-serial CRC with polynomial 0x04C11DB7. */
module Crc {
  import opened Options

  // ----- The register -----

  predicate Top(c: bv32) {
    c & 0x8000_0000 != 0
  }

  function Shl(c: bv32): bv32 {
    c << 1
  }

  function Mix(c: bv32): bv32 {
    c ^ 0x04C1_1DB7
  }

  function Xor(x: bv32, y: bv32): bv32 {
    x ^ y
  }

  /** Shifts one message bit into the register. */
  function BitStep(c: bv32, bit: bool): bv32 {
    if Top(c) != bit then Mix(Shl(c)) else Shl(c)
  }

  /** Shifts the register without a message bit. */
  function Shift(c: bv32): bv32 {
    if Top(c) then Mix(Shl(c)) else Shl(c)
  }

  function Shifts(c: bv32, n: nat): bv32 {
    if n == 0 then c else Shift(Shifts(c, n - 1))
  }

  function Shls(c: bv32, n: nat): bv32 {
    if n == 0 then c else Shl(Shls(c, n - 1))
  }

  lemma XorCancel(a: bv32, b: bv32, p: bv32)
    ensures (a ^ p) ^ (b ^ p) == a ^ b
  {}

  lemma XorLeft(a: bv32, b: bv32, p: bv32)
    ensures (a ^ p) ^ b == (a ^ b) ^ p
  {}

  lemma XorRight(a: bv32, b: bv32, p: bv32)
    ensures a ^ (b ^ p) == (a ^ b) ^ p
  {}

  lemma MixBoth(a: bv32, b: bv32)
    ensures Xor(Mix(a), Mix(b)) == Xor(a, b)
  {
    XorCancel(a, b, 0x04C1_1DB7);
  }

  lemma MixLeft(a: bv32, b: bv32)
    ensures Xor(Mix(a), b) == Mix(Xor(a, b))
  {
    XorLeft(a, b, 0x04C1_1DB7);
  }

  lemma MixRight(a: bv32, b: bv32)
    ensures Xor(a, Mix(b)) == Mix(Xor(a, b))
  {
    XorRight(a, b, 0x04C1_1DB7);
  }

  lemma TopXor(x: bv32, y: bv32)
    ensures Top(Xor(x, y)) <==> Top(x) != Top(y)
  {}

  lemma ShlXor(x: bv32, y: bv32)
    ensures Shl(Xor(x, y)) == Xor(Shl(x), Shl(y))
  {}

  /** Shifting is linear. */
  lemma ShiftXor(x: bv32, y: bv32)
    ensures Shift(Xor(x, y)) == Xor(Shift(x), Shift(y))
  {
    hide Top, Shl, Mix, Xor;
    TopXor(x, y);
    ShlXor(x, y);
    MixBoth(Shl(x), Shl(y));
    MixLeft(Shl(x), Shl(y));
    MixRight(Shl(x), Shl(y));
  }

  lemma {:induction false} ShiftsXor(x: bv32, y: bv32, n: nat)
    ensures Shifts(Xor(x, y), n) == Xor(Shifts(x, n), Shifts(y, n))
  {
    hide Shift, Xor;
    if n > 0 {
      ShiftsXor(x, y, n - 1);
      ShiftXor(Shifts(x, n - 1), Shifts(y, n - 1));
    }
  }

  // ----- Bit by bit -----

  /** The first `n` bits of a byte, most significant first. */
  function ByteBits(b: bv32, n: nat): (bits: seq<bool>)
    ensures |bits| == n
  {
    if n == 0 then [] else ByteBits(b, n - 1) + [Top(Shls(Place(b), n - 1))]
  }

  /** A byte at the top of the register. */
  function Place(b: bv32): bv32 {
    b << 24
  }

  function MessageBits(bytes: seq<bv32>): seq<bool> {
    if bytes == [] then [] else MessageBits(bytes[..|bytes| - 1]) + ByteBits(bytes[|bytes| - 1], 8)
  }

  /** The bit-serial CRC. */
  function BitSerial(c: bv32, bits: seq<bool>): bv32
    decreases |bits|
  {
    if bits == [] then c else BitStep(BitSerial(c, bits[..|bits| - 1]), bits[|bits| - 1])
  }

  lemma {:induction false} BitSerialConcat(c: bv32, a: seq<bool>, b: seq<bool>)
    ensures BitSerial(c, a + b) == BitSerial(BitSerial(c, a), b)
    decreases |b|
  {
    hide BitStep;
    if b == [] {
      assert a + b == a;
    } else {
      assert (a + b)[..|a + b| - 1] == a + b[..|b| - 1];
      BitSerialConcat(c, a, b[..|b| - 1]);
    }
  }

  /** Shifting a register with a byte mixed in takes its top bit in like a message bit. */
  lemma ShiftTakesBit(s: bv32, r: bv32)
    ensures Shift(Xor(s, r)) == Xor(BitStep(s, Top(r)), Shl(r))
  {
    hide Top, Shl, Mix, Xor;
    TopXor(s, r);
    ShlXor(s, r);
    MixLeft(Shl(s), Shl(r));
  }

  lemma {:induction false} ShiftsTakeBits(c: bv32, b: bv32, n: nat)
    ensures Shifts(Xor(c, Place(b)), n) == Xor(BitSerial(c, ByteBits(b, n)), Shls(Place(b), n))
  {
    hide Shift, BitStep, Xor, Top, Shl, Place;
    if n > 0 {
      ShiftsTakeBits(c, b, n - 1);
      ShiftTakesBit(BitSerial(c, ByteBits(b, n - 1)), Shls(Place(b), n - 1));
      assert ByteBits(b, n)[..n - 1] == ByteBits(b, n - 1);
    }
  }

  lemma ShlChain(x: bv32)
    ensures Shl(x) == x << 1 && Shl(x << 1) == x << 2 && Shl(x << 2) == x << 3 && Shl(x << 3) == x << 4
    ensures Shl(x << 4) == x << 5 && Shl(x << 5) == x << 6 && Shl(x << 6) == x << 7 && Shl(x << 7) == x << 8
  {}

  lemma ShlsEight(c: bv32)
    ensures Shls(c, 8) == c << 8
  {
    hide Shl;
    ShlChain(c);
    assert Shls(c, 2) == Shl(Shls(c, 1)) == c << 2;
    assert Shls(c, 4) == Shl(Shls(c, 3)) == c << 4;
    assert Shls(c, 6) == Shl(Shls(c, 5)) == c << 6;
  }

  lemma XorZero(x: bv32)
    ensures Xor(x, 0) == x
  {}

  lemma PlaceShiftsOut(b: bv32)
    requires b < 0x100
    ensures Place(b) << 8 == 0
  {}

  /** Eight bits of a byte are eight shifts with the byte mixed in on top. */
  lemma ByteIsEightShifts(c: bv32, b: bv32)
    requires b < 0x100
    ensures BitSerial(c, ByteBits(b, 8)) == Shifts(Xor(c, Place(b)), 8)
  {
    hide Shift, BitStep, Xor, Top, Shl, Place, Shifts, Shls, ByteBits, BitSerial;
    ShiftsTakeBits(c, b, 8);
    ShlsEight(Place(b));
    PlaceShiftsOut(b);
    XorZero(BitSerial(c, ByteBits(b, 8)));
  }

  // ----- With the table -----

  /** The table entry of a byte. */
  function Entry(b: bv32): bv32 {
    Shifts(Place(b), 8)
  }

  function HighByte(c: bv32): bv32 {
    (c >> 24) & 0xFF
  }

  /** The low three bytes, and the same three bytes moved up. */
  function Low(c: bv32): bv32 {
    c & 0x00FF_FFFF
  }

  function Shl8(c: bv32): bv32 {
    c << 8
  }

  function Up(c: bv32): bv32 {
    Shl8(c) & 0xFFFF_FF00
  }

  /** One byte through the table. */
  function TableStep(c: bv32, b: bv32): bv32 {
    Xor(Entry(Xor(b, HighByte(c))), Up(c))
  }

  function TableCrc(c: bv32, bytes: seq<bv32>): bv32 {
    if bytes == [] then c else TableStep(TableCrc(c, bytes[..|bytes| - 1]), bytes[|bytes| - 1])
  }

  lemma HighAndLow(c: bv32)
    ensures Xor(Place(HighByte(c)), Low(c)) == c
  {}

  lemma PlaceXor(x: bv32, y: bv32)
    ensures Place(Xor(x, y)) == Xor(Place(x), Place(y))
  {}

  lemma XorRotate(x: bv32, y: bv32, z: bv32)
    ensures Xor(Xor(x, y), z) == Xor(Xor(y, z), x)
  {}

  lemma SplitRegister(c: bv32, b: bv32)
    ensures Xor(c, Place(b)) == Xor(Place(Xor(b, HighByte(c))), Low(c))
  {
    hide Xor, Place, HighByte, Low;
    PlaceXor(b, HighByte(c));
    XorRotate(Place(b), Place(HighByte(c)), Low(c));
    HighAndLow(c);
  }

  predicate AtMost(y: bv32, bound: bv32) {
    y <= bound
  }

  lemma ShlMonotone(y: bv32, bound: bv32)
    requires AtMost(y, bound) && !Top(bound)
    ensures !Top(y) && AtMost(Shl(y), Shl(bound))
  {}

  lemma BoundTops(n: nat)
    requires n < 8
    ensures !Top(Shls(0x00FF_FFFF, n))
  {
    assert Shls(0x00FF_FFFF, 3) == 0x07FF_FFF8;
    assert Shls(0x00FF_FFFF, 6) == 0x3FFF_FFC0;
  }

  lemma {:induction false} LowBound(x: bv32, n: nat)
    requires AtMost(x, 0x00FF_FFFF) && n < 8
    ensures AtMost(Shls(x, n), Shls(0x00FF_FFFF, n)) && !Top(Shls(x, n))
  {
    hide Top, Shl, AtMost;
    BoundTops(n);
    if n > 0 {
      LowBound(x, n - 1);
      BoundTops(n - 1);
      ShlMonotone(Shls(x, n - 1), Shls(0x00FF_FFFF, n - 1));
    }
    ShlMonotone(Shls(x, n), Shls(0x00FF_FFFF, n));
  }

  /** Until the eighth shift no bit of the low three bytes reaches the top. */
  lemma {:induction false} LowShifts(x: bv32, n: nat)
    requires AtMost(x, 0x00FF_FFFF) && n <= 8
    ensures Shifts(x, n) == Shls(x, n)
  {
    hide Top, Shl, Mix, AtMost;
    if n > 0 {
      LowShifts(x, n - 1);
      LowBound(x, n - 1);
    }
  }

  lemma LowBytes(c: bv32)
    ensures AtMost(Low(c), 0x00FF_FFFF) && Shl8(Low(c)) == Up(c)
  {}

  lemma ShlsByte(c: bv32)
    ensures Shls(c, 8) == Shl8(c)
  {
    hide Shls;
    ShlsEight(c);
  }

  /** The low three bytes are only moved up. */
  lemma LowBytesShift(c: bv32)
    ensures Shifts(Low(c), 8) == Up(c)
  {
    hide Shifts, Shls, AtMost, Low, Up, Shl8;
    LowBytes(c);
    LowShifts(Low(c), 8);
    ShlsByte(Low(c));
  }

  /** One byte through the table is its eight bits, one after the other. */
  lemma TableStepIsEightBits(c: bv32, b: bv32)
    requires b < 0x100
    ensures TableStep(c, b) == BitSerial(c, ByteBits(b, 8))
  {
    hide Shift, BitStep, Xor, Top, Shl, Place, Shifts, ByteBits, BitSerial, HighByte, Low, Up;
    ByteIsEightShifts(c, b);
    SplitRegister(c, b);
    ShiftsXor(Place(Xor(b, HighByte(c))), Low(c), 8);
    LowBytesShift(c);
  }

  ghost predicate AreBytes(bytes: seq<bv32>) {
    forall i :: 0 <= i < |bytes| ==> bytes[i] < 0x100
  }

  /** The table-driven CRC is the bit-serial CRC, for byte strings of any length. */
  lemma {:induction false} TableIsBitSerial(c: bv32, bytes: seq<bv32>)
    requires AreBytes(bytes)
    ensures TableCrc(c, bytes) == BitSerial(c, MessageBits(bytes))
  {
    hide TableStep, BitStep, ByteBits;
    if bytes != [] {
      var n := |bytes| - 1;
      TableIsBitSerial(c, bytes[..n]);
      TableStepIsEightBits(TableCrc(c, bytes[..n]), bytes[n]);
      BitSerialConcat(c, MessageBits(bytes[..n]), ByteBits(bytes[n], 8));
    }
  }

  // ----- The table as it is filled -----

  /** The shift of the table loop, with its test the other way round. */
  function UpsideDown(c: bv32): bv32 {
    if Top(c) then Shl(c) else Mix(Shl(c))
  }

  function UpsideDowns(c: bv32, n: nat): bv32 {
    if n == 0 then c else UpsideDown(UpsideDowns(c, n - 1))
  }

  /** With the complement in the top byte the wrong test is the right one. */
  lemma UpsideDownXor(d: bv32, f: bv32)
    requires Top(f)
    ensures UpsideDown(Xor(d, f)) == Xor(Shift(d), Shl(f))
  {
    hide Top, Shl, Mix, Xor;
    TopXor(d, f);
    ShlXor(d, f);
    MixLeft(Shl(d), Shl(f));
  }

  lemma {:induction false} UpsideDownsXor(d: bv32, n: nat)
    requires n <= 8
    ensures UpsideDowns(Xor(d, 0xFF00_0000), n) == Xor(Shifts(d, n), Shls(0xFF00_0000, n))
  {
    hide Top, Shl, Mix, Xor, Shift, UpsideDown;
    if n > 0 {
      UpsideDownsXor(d, n - 1);
      ComplementTop(n - 1);
      UpsideDownXor(Shifts(d, n - 1), Shls(0xFF00_0000, n - 1));
    }
  }

  lemma ComplementTop(n: nat)
    requires n < 8
    ensures Top(Shls(0xFF00_0000, n))
  {
    assert Shls(0xFF00_0000, 3) == 0xF800_0000;
    assert Shls(0xFF00_0000, 6) == 0xC000_0000;
  }

  lemma ComplementPlace(t: bv32)
    requires t < 0x100
    ensures Place(t) == Xor(Place(0xFF - t), 0xFF00_0000)
  {}

  /** What the loop computes from `t` is the entry of the complement of `t`,
      where the loop stores it. */
  lemma FilledRightSideUp(t: bv32)
    requires t < 0x100
    ensures UpsideDowns(Place(t), 8) == Entry(0xFF - t)
  {
    hide Place, Xor, UpsideDowns, Shifts, Shls;
    ComplementPlace(t);
    UpsideDownsXor(Place(0xFF - t), 8);
    ShlsEight(0xFF00_0000);
    XorZero(Shifts(Place(0xFF - t), 8));
  }

  // ----- The function -----

  /** The bytes the CRC covers: the string with its NUL, but at most 33 bytes. */
  function Covered(s: seq<bv32>): seq<bv32> {
    if |s| < 33 then s + [0] else s[..33]
  }

  /** Two strings are told apart by what is covered exactly when they differ within
      their first 33 bytes. */
  lemma CoveredAgreeIff(s: seq<bv32>, t: seq<bv32>)
    requires IsString(s) && IsString(t)
    ensures Covered(s) == Covered(t) <==>
            (if |s| < 33 then s else s[..33]) == (if |t| < 33 then t else t[..33])
    ensures |s| < 33 ==> |Covered(s)| == |s| + 1 && Covered(s)[|s|] == 0
  {
    hide Covered;
    CoveredShape(s);
    CoveredShape(t);
  }

  lemma CoveredShape(s: seq<bv32>)
    requires IsString(s)
    ensures |s| < 33 ==> |Covered(s)| == |s| + 1 && Covered(s)[|s|] == 0 && Covered(s)[..|s|] == s
    ensures |s| < 33 ==> Covered(s) == s + [0]
    ensures |s| >= 33 ==> Covered(s) == s[..33] && Covered(s)[32] != 0
    ensures forall i :: 0 <= i < |s| && i < 33 ==> Covered(s)[i] != 0
  {}

  /** The bytes of a C string before its NUL. */
  ghost predicate IsString(s: seq<bv32>) {
    forall i :: 0 <= i < |s| ==> 0 < s[i] < 0x100
  }

  predicate SevenBit(s: seq<bv32>) {
    forall i :: 0 <= i < |s| ==> s[i] < 0x80
  }

  /** A char as an int. */
  function Extended(b: bv32): bv32 {
    if b < 0x80 then b else b | 0xFFFF_FF00
  }

  /** The index stays in the table exactly for a 7-bit character; for others the
      char is negative, and so is the index. */
  lemma IndexInTableIff(b: bv32, c: bv32)
    requires b < 0x100
    ensures Xor(Extended(b), HighByte(c)) < 0x400 <==> b < 0x80
    ensures b < 0x80 ==> Xor(Extended(b), HighByte(c)) == Xor(b, HighByte(c)) < 0x100
    ensures b >= 0x80 ==> Extended(b) + 0x100 == b
  {}

  /** A string of one such character, whose first look-up is outside the table. */
  lemma HighCharLeavesTable()
    ensures IsString([0x80]) && !SevenBit(Covered([0x80])) && Xor(Extended(0x80), HighByte(0)) >= 0x400
  {
    assert Covered([0x80])[0] == 0x80;
    IndexInTableIff(0x80, 0);
  }

  /** Index of a byte in the table. */
  function Index(b: bv32): nat
    requires b < 0x100
  {
    b as int
  }

  lemma IndexBelow(a: bv32)
    requires a < 0x100
    ensures Index(a) < 0x100
  {}

  lemma IndexInjective(a: bv32, b: bv32)
    requires a < 0x100 && b < 0x100 && Index(a) == Index(b)
    ensures a == b
  {}

  lemma IndexComplement(b: bv32)
    requires b < 0x100
    ensures Index(0xFF - b) == 255 - Index(b)
  {}

  ghost predicate Filled(tab: array<bv32>)
    requires tab.Length >= 0x100
    reads tab
  {
    forall b: bv32 :: b < 0x100 ==> Index(b) < 0x100 && tab[Index(b)] == Entry(b)
  }

  /** The CRC of a string; None when a look-up leaves the table. */
  method Crc32(s: seq<bv32>, crctab: array<bv32>) returns (r: Option<bv32>)
    requires IsString(s) && crctab.Length == 0x400
    modifies crctab
    ensures r == if SevenBit(Covered(s)) then Some(BitSerial(0, MessageBits(Covered(s)))) else None
  {
    hide TableStep, Filled, Extended;
    var crc := FillTable(crctab);
    var count := 0;
    var byte: bv32;
    while true
      invariant Filled(crctab)
      invariant 0 <= count < |Covered(s)| && SevenBit(Covered(s)[..count])
      invariant crc == TableCrc(0, Covered(s)[..count])
      decreases |Covered(s)| - count
    {
      byte := if count < |s| then s[count] else 0;
      count := count + 1;
      assert byte == Covered(s)[count - 1] && Covered(s)[..count][..count - 1] == Covered(s)[..count - 1];
      IndexInTableIff(byte, crc);
      if Xor(Extended(byte), HighByte(crc)) >= 0x400 {
        return None;
      }
      crc := Lookup(crctab, crc, byte);
      if byte == 0 || count > 32 {
        break;
      }
    }
    assert Covered(s)[..count] == Covered(s);
    TableIsBitSerial(0, Covered(s));
    r := Some(crc);
  }

  method Lookup(crctab: array<bv32>, crc: bv32, byte: bv32) returns (r: bv32)
    requires crctab.Length >= 0x100 && Filled(crctab) && byte < 0x80
    ensures r == TableStep(crc, byte)
  {
    hide Entry;
    IndexInTableIff(byte, crc);
    r := Xor(crctab[Index(Xor(Extended(byte), HighByte(crc)))], (crc << 8) & 0xFFFF_FF00);
  }

  /** Fills the table; the last value computed is 0, the start of the CRC. */
  method FillTable(crctab: array<bv32>) returns (crc: bv32)
    requires crctab.Length >= 0x100
    modifies crctab
    ensures Filled(crctab) && crc == 0
  {
    hide Place, UpsideDown, Entry, Index;
    crc := 0;
    var table: bv32 := 0;
    while table < 0x100
      invariant table <= 0x100
      invariant forall b: bv32 :: b < 0x100 && 0xFF - b < table ==> Index(b) < 0x100 && crctab[Index(b)] == Entry(b)
      invariant table == 0x100 ==> crc == 0
      decreases 0x100 - table
    {
      crc := Place(table);
      var count := 8;
      while count > 0
        invariant 0 <= count <= 8 && crc == UpsideDowns(Place(table), 8 - count)
      {
        crc := UpsideDown(crc);
        count := count - 1;
      }
      FilledRightSideUp(table);
      LastEntry();
      IndexComplement(table);
      forall b: bv32 | b < 0x100 ensures Index(b) < 0x100 && (Index(b) == 255 - Index(table) ==> b == 0xFF - table) {
        IndexBelow(b);
        if Index(b) == 255 - Index(table) {
          IndexInjective(b, 0xFF - table);
        }
      }
      crctab[255 - Index(table)] := crc;
      table := table + 1;
    }
  }

  lemma LastEntry()
    ensures Entry(0) == 0
  {
    assert Place(0) == 0 && Shift(0) == 0;
    assert Shifts(0, 2) == 0;
    assert Shifts(0, 4) == 0;
    assert Shifts(0, 6) == 0;
  }
}
