/** What the CRC of src/system.c means: the remainder of the message polynomial,
    multiplied by x^32, under division by the generator of CRC-32. */
module CrcPolynomial {
  import opened Crc

  /** A polynomial over the field of two elements: the exponents of its terms. */
  type Poly = set<nat>

  /** x^32 + x^26 + x^23 + x^22 + x^16 + x^12 + x^11 + x^10 + x^8 + x^7 + x^5 + x^4 + x^2 + x + 1 */
  const GENERATOR: Poly := {32, 26, 23, 22, 16, 12, 11, 10, 8, 7, 5, 4, 2, 1, 0}

  function Add(a: Poly, b: Poly): (s: Poly)
    ensures forall e :: e in s <==> (e in a) != (e in b)
  {
    (a - b) + (b - a)
  }

  function TimesX(a: Poly): (s: Poly)
    ensures forall e: nat :: e in s <==> e > 0 && e - 1 in a
  {
    var s := set e | e in a :: e + 1;
    assert forall e :: e in a ==> e + 1 in s;
    s
  }

  function TimesXs(a: Poly, n: nat): Poly {
    if n == 0 then a else TimesX(TimesXs(a, n - 1))
  }

  /** `p` multiplied by the polynomial whose coefficients are `bits`, the highest first. */
  function Times(bits: seq<bool>, p: Poly): Poly {
    if bits == [] then {}
    else Add(TimesX(Times(bits[..|bits| - 1], p)), if bits[|bits| - 1] then p else {})
  }

  /** The polynomial of a message, its first bit being the highest coefficient. */
  function Message(bits: seq<bool>): Poly {
    Times(bits, {0})
  }

  /** The polynomial in the register: its top bit is the coefficient of x^31. */
  ghost function Register(c: bv32): (p: Poly)
    ensures forall e :: e in p ==> e < 32
  {
    set e: nat | e < 32 && Coefficient(c, e)
  }

  ghost predicate Coefficient(c: bv32, e: nat) {
    e < 32 && Top(Shls(c, 31 - e))
  }

  // ----- Bits of the register -----

  lemma {:induction false} ShlsOfShl(c: bv32, n: nat)
    ensures Shls(Shl(c), n) == Shls(c, n + 1)
  {
    hide Shl;
    if n > 0 {
      ShlsOfShl(c, n - 1);
    }
  }

  lemma {:induction false} ShlsAdd(c: bv32, m: nat, n: nat)
    ensures Shls(c, m + n) == Shls(Shls(c, m), n)
  {
    hide Shl;
    if n > 0 {
      ShlsAdd(c, m, n - 1);
    }
  }

  lemma FourBytesOut(c: bv32)
    ensures c << 8 << 8 << 8 << 8 == 0
  {}

  lemma ShlsOut(c: bv32)
    ensures !Top(Shls(c, 32))
  {
    hide Shls;
    ShlsAdd(c, 24, 8);
    ShlsAdd(c, 16, 8);
    ShlsAdd(c, 8, 8);
    ShlsEight(c);
    ShlsEight(c << 8);
    ShlsEight(c << 8 << 8);
    ShlsEight(c << 8 << 8 << 8);
    FourBytesOut(c);
  }

  lemma {:induction false} ShlsXor(a: bv32, b: bv32, n: nat)
    ensures Shls(Xor(a, b), n) == Xor(Shls(a, n), Shls(b, n))
  {
    hide Shl, Xor;
    if n > 0 {
      ShlsXor(a, b, n - 1);
      ShlXor(Shls(a, n - 1), Shls(b, n - 1));
    }
  }

  lemma RegisterXor(a: bv32, b: bv32)
    ensures Register(Xor(a, b)) == Add(Register(a), Register(b))
  {
    hide Xor, Top, Shls;
    forall e: nat | e < 32
      ensures Coefficient(Xor(a, b), e) <==> Coefficient(a, e) != Coefficient(b, e)
    {
      ShlsXor(a, b, 31 - e);
      TopXor(Shls(a, 31 - e), Shls(b, 31 - e));
    }
  }

  /** Shifting the register multiplies by x; the top bit leaves as x^32. */
  lemma RegisterShl(c: bv32)
    ensures TimesX(Register(c)) == Add(Register(Shl(c)), if Top(c) then {32} else {})
  {
    hide Top, Shl;
    var up, shifted := TimesX(Register(c)), Add(Register(Shl(c)), if Top(c) then {32} else {});
    assert Shls(c, 0) == c;
    forall e: nat ensures e in up <==> e in shifted {
      if e < 32 {
        ShlsOfShl(c, 31 - e);
        if e == 0 {
          ShlsOut(c);
        } else {
          assert Coefficient(Shl(c), e) <==> Coefficient(c, e - 1);
        }
      } else if e == 32 {
        assert Coefficient(c, 31) <==> Top(c);
      }
    }
  }

  const FEEDBACK: bv32 := 0x04C1_1DB7

  lemma FeedbackBits0()
    ensures forall n: nat :: n < 8 ==> (Top(Shls(FEEDBACK, n)) <==> n == 5)
    ensures Shls(FEEDBACK, 8) == 0xC11D_B700
  {
    assert Shls(FEEDBACK, 2) == 0x1304_76DC;
    assert Shls(FEEDBACK, 4) == 0x4C11_DB70;
    assert Shls(FEEDBACK, 6) == 0x3047_6DC0 && Shls(FEEDBACK, 5) == 0x9823_B6E0;
    assert Shls(FEEDBACK, 8) == 0xC11D_B700 && Shls(FEEDBACK, 7) == 0x608E_DB80;
    assert Shls(FEEDBACK, 1) == 0x0982_3B6E && Shls(FEEDBACK, 3) == 0x2608_EDB8 && Shls(FEEDBACK, 0) == FEEDBACK;
  }

  lemma FeedbackBits1()
    ensures forall n: nat :: n < 8 ==> (Top(Shls(0xC11D_B700, n)) <==> n in {0, 1, 7})
    ensures Shls(0xC11D_B700, 8) == 0x1DB7_0000
  {
    assert Shls(0xC11D_B700, 1) == 0x823B_6E00 && Shls(0xC11D_B700, 0) == 0xC11D_B700;
    assert Shls(0xC11D_B700, 2) == 0x0476_DC00 && Shls(0xC11D_B700, 3) == 0x08ED_B800;
    assert Shls(0xC11D_B700, 4) == 0x11DB_7000 && Shls(0xC11D_B700, 5) == 0x23B6_E000;
    assert Shls(0xC11D_B700, 6) == 0x476D_C000 && Shls(0xC11D_B700, 7) == 0x8EDB_8000;
    assert Shls(0xC11D_B700, 8) == 0x1DB7_0000;
  }

  lemma FeedbackBits2()
    ensures forall n: nat :: n < 8 ==> (Top(Shls(0x1DB7_0000, n)) <==> n in {3, 4, 5, 7})
    ensures Shls(0x1DB7_0000, 8) == 0xB700_0000
  {
    assert Shls(0x1DB7_0000, 1) == 0x3B6E_0000 && Shls(0x1DB7_0000, 0) == 0x1DB7_0000;
    assert Shls(0x1DB7_0000, 2) == 0x76DC_0000 && Shls(0x1DB7_0000, 3) == 0xEDB8_0000;
    assert Shls(0x1DB7_0000, 4) == 0xDB70_0000 && Shls(0x1DB7_0000, 5) == 0xB6E0_0000;
    assert Shls(0x1DB7_0000, 6) == 0x6DC0_0000 && Shls(0x1DB7_0000, 7) == 0xDB80_0000;
    assert Shls(0x1DB7_0000, 8) == 0xB700_0000;
  }

  lemma FeedbackBits3()
    ensures forall n: nat :: n < 8 ==> (Top(Shls(0xB700_0000, n)) <==> n in {0, 2, 3, 5, 6, 7})
  {
    assert Shls(0xB700_0000, 1) == 0x6E00_0000 && Shls(0xB700_0000, 0) == 0xB700_0000;
    assert Shls(0xB700_0000, 2) == 0xDC00_0000 && Shls(0xB700_0000, 3) == 0xB800_0000;
    assert Shls(0xB700_0000, 4) == 0x7000_0000 && Shls(0xB700_0000, 5) == 0xE000_0000;
    assert Shls(0xB700_0000, 6) == 0xC000_0000 && Shls(0xB700_0000, 7) == 0x8000_0000;
  }

  /** The feedback word is the generator without its first term. */
  lemma FeedbackIsGenerator()
    ensures Register(FEEDBACK) == GENERATOR - {32}
  {
    hide Top, Shls;
    FeedbackBits0();
    FeedbackBits1();
    FeedbackBits2();
    FeedbackBits3();
    forall e: nat | e < 32 ensures Coefficient(FEEDBACK, e) <==> e in GENERATOR - {32} {
      var n := 31 - e;
      if n >= 24 {
        ShlsAdd(FEEDBACK, 8, n - 8);
        ShlsAdd(0xC11D_B700, 8, n - 16);
        ShlsAdd(0x1DB7_0000, 8, n - 24);
      } else if n >= 16 {
        ShlsAdd(FEEDBACK, 8, n - 8);
        ShlsAdd(0xC11D_B700, 8, n - 16);
      } else if n >= 8 {
        ShlsAdd(FEEDBACK, 8, n - 8);
      }
    }
  }

  lemma MixIsXor(c: bv32)
    ensures Mix(c) == Xor(c, FEEDBACK)
  {}

  /** One bit: the register times x plus the bit as x^32, reduced by the generator. */
  lemma BitStepReduces(c: bv32, bit: bool)
    ensures Add(if Top(c) != bit then GENERATOR else {}, Register(BitStep(c, bit))) ==
            Add(TimesX(Register(c)), if bit then {32} else {})
  {
    hide Top, Shl, Mix, Xor, Shls, Register;
    RegisterShl(c);
    MixIsXor(Shl(c));
    RegisterXor(Shl(c), FEEDBACK);
    FeedbackIsGenerator();
  }

  // ----- The whole message -----

  lemma TimesXAdd(a: Poly, b: Poly)
    ensures TimesX(Add(a, b)) == Add(TimesX(a), TimesX(b))
  {}

  lemma {:induction false} TimesXsAdd(a: Poly, b: Poly, n: nat)
    ensures TimesXs(Add(a, b), n) == Add(TimesXs(a, n), TimesXs(b, n))
  {
    hide Add, TimesX;
    if n > 0 {
      TimesXsAdd(a, b, n - 1);
      TimesXAdd(TimesXs(a, n - 1), TimesXs(b, n - 1));
    }
  }

  lemma {:induction false} TimesXsOfX(a: Poly, n: nat)
    ensures TimesXs(TimesX(a), n) == TimesX(TimesXs(a, n))
  {
    hide TimesX;
    if n > 0 {
      TimesXsOfX(a, n - 1);
    }
  }

  lemma {:induction false} TimesXsOne(n: nat)
    ensures TimesXs({0}, n) == {n} && TimesXs({}, n) == {}
  {
    if n > 0 {
      TimesXsOne(n - 1);
    }
  }

  lemma Regroup(m: Poly, r: Poly, g: Poly, r': Poly, b: Poly)
    requires Add(g, r') == Add(r, b)
    ensures Add(Add(m, g), r') == Add(Add(m, r), b)
  {}

  /** The register after a message is the remainder of its polynomial times x^32
      under division by the generator; `q` are the coefficients of the quotient. */
  lemma {:induction false} CrcIsRemainder(bits: seq<bool>) returns (q: seq<bool>)
    ensures |q| == |bits|
    ensures Add(Times(q, GENERATOR), Register(BitSerial(0, bits))) == TimesXs(Message(bits), 32)
    decreases |bits|
  {
    hide Add, TimesX, Register, BitStep, TimesXs;
    TimesXsOne(32);
    if bits == [] {
      q := [];
      ZeroRegister();
    } else {
      var before, bit := bits[..|bits| - 1], bits[|bits| - 1];
      var c := BitSerial(0, before);
      var q0 := CrcIsRemainder(before);
      var t := Top(c) != bit;
      q := q0 + [t];
      assert q[..|q0|] == q0;
      var m, b := Times(q0, GENERATOR), if bit then {0} else {};
      BitStepReduces(c, bit);
      Regroup(TimesX(m), TimesX(Register(c)), if t then GENERATOR else {}, Register(BitStep(c, bit)),
              if bit then {32} else {});
      TimesXAdd(m, Register(c));
      TimesXsAdd(TimesX(Message(before)), b, 32);
      TimesXsOfX(Message(before), 32);
    }
  }

  lemma ZeroRegister()
    ensures Register(0) == {} && Add({}, Register(0)) == {}
  {
    forall n: nat ensures Shls(0, n) == 0 {
      ZeroShls(n);
    }
  }

  lemma {:induction false} ZeroShls(n: nat)
    ensures Shls(0, n) == 0
  {
    if n > 0 {
      ZeroShls(n - 1);
    }
  }

  /** The bits of a byte go in with the highest first. */
  lemma ByteBitsAre(b: bv32)
    requires b < 0x100
    ensures ByteBits(b, 8) ==
            [b & 0x80 != 0, b & 0x40 != 0, b & 0x20 != 0, b & 0x10 != 0,
             b & 0x08 != 0, b & 0x04 != 0, b & 0x02 != 0, b & 0x01 != 0]
  {
    hide Shl;
    ShlChain(Place(b));
    var c := Place(b);
    assert Shls(c, 0) == c && Shls(c, 1) == c << 1 && Shls(c, 2) == c << 2 && Shls(c, 3) == c << 3;
    assert Shls(c, 4) == c << 4 && Shls(c, 5) == c << 5;
    assert Shls(c, 6) == c << 6 && Shls(c, 7) == c << 7;
    TopBits(b);
    BitsUnfold(b);
  }

  lemma TopBits(b: bv32)
    requires b < 0x100
    ensures (Top(Place(b)) <==> b & 0x80 != 0) && (Top(Place(b) << 1) <==> b & 0x40 != 0)
    ensures (Top(Place(b) << 2) <==> b & 0x20 != 0) && (Top(Place(b) << 3) <==> b & 0x10 != 0)
    ensures (Top(Place(b) << 4) <==> b & 0x08 != 0) && (Top(Place(b) << 5) <==> b & 0x04 != 0)
    ensures (Top(Place(b) << 6) <==> b & 0x02 != 0) && (Top(Place(b) << 7) <==> b & 0x01 != 0)
  {}

  lemma OneBitMore(b: bv32, n: nat)
    ensures ByteBits(b, n + 1) == ByteBits(b, n) + [Top(Shls(Place(b), n))]
  {}

  lemma BitsUnfold(b: bv32)
    ensures ByteBits(b, 8) ==
            [Top(Shls(Place(b), 0)), Top(Shls(Place(b), 1)), Top(Shls(Place(b), 2)), Top(Shls(Place(b), 3)),
             Top(Shls(Place(b), 4)), Top(Shls(Place(b), 5)), Top(Shls(Place(b), 6)), Top(Shls(Place(b), 7))]
  {
    assert ByteBits(b, 0) == [];
    hide Top, Shls, Place, ByteBits;
    OneBitMore(b, 0);
    OneBitMore(b, 1);
    OneBitMore(b, 2);
    OneBitMore(b, 3);
    OneBitMore(b, 4);
    OneBitMore(b, 5);
    OneBitMore(b, 6);
    OneBitMore(b, 7);
  }
}
