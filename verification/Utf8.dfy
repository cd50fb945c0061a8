/** The table-driven UTF-8 decoder (include/utf8.h, used by src/fntsys.c), proved
    equal to the grammar of section 4 of RFC 3629. */
module Utf8 {
  import opened Bytes

  const UTF8_ACCEPT := 0
  const UTF8_REJECT := 1
  const U32 := 0x1_0000_0000

  // ----- The table -----

  function Repeat(v: nat, n: nat): (r: seq<nat>)
    ensures |r| == n && forall i :: 0 <= i < n ==> r[i] == v
  {
    if n == 0 then [] else Repeat(v, n - 1) + [v]
  }

  /** The classes of the bytes below 0xe0, and of the others. */
  function LowClasses(): (r: seq<nat>)
    ensures |r| == 0xe0
  {
    Repeat(0, 0x80) + Repeat(1, 16) + Repeat(9, 16) + Repeat(7, 32) + Repeat(8, 2) + Repeat(2, 30)
  }

  function HighClasses(): (r: seq<nat>)
    ensures |r| == 0x20
  {
    [0xa] + Repeat(3, 12) + [4] + Repeat(3, 2) + [0xb] + Repeat(6, 3) + [5] + Repeat(8, 11)
  }

  /** The classes of the 256 bytes. */
  function ClassTable(): seq<nat> {
    LowClasses() + HighClasses()
  }

  const S0: seq<nat> := [0, 1, 2, 3, 5, 8, 7, 1, 1, 1, 4, 6, 1, 1, 1, 1]
  const S1: seq<nat> := [1, 1, 1, 1, 1, 1, 1, 1, 1, 1, 1, 1, 1, 1, 1, 1]
  const S2: seq<nat> := [1, 0, 1, 1, 1, 1, 1, 0, 1, 0, 1, 1, 1, 1, 1, 1]
  const S3: seq<nat> := [1, 2, 1, 1, 1, 1, 1, 2, 1, 2, 1, 1, 1, 1, 1, 1]
  const S4: seq<nat> := [1, 1, 1, 1, 1, 1, 1, 2, 1, 1, 1, 1, 1, 1, 1, 1]
  const S5: seq<nat> := [1, 2, 1, 1, 1, 1, 1, 1, 1, 2, 1, 1, 1, 1, 1, 1]
  const S6: seq<nat> := [1, 1, 1, 1, 1, 1, 1, 3, 1, 3, 1, 1, 1, 1, 1, 1]
  const S7: seq<nat> := [1, 3, 1, 1, 1, 1, 1, 3, 1, 3, 1, 1, 1, 1, 1, 1]
  const S8: seq<nat> := [1, 3, 1, 1, 1, 1, 1, 1, 1, 1, 1, 1, 1, 1, 1, 1]

  /** The row of successors of a state, one for each byte class. */
  function StateRow(s: nat): (row: seq<nat>)
    requires s < 9
    ensures |row| == 16
  {
    if s == 0 then S0 else if s == 1 then S1 else if s == 2 then S2 else if s == 3 then S3
    else if s == 4 then S4 else if s == 5 then S5 else if s == 6 then S6 else if s == 7 then S7 else S8
  }

  /** The successors of the first `n` states, row after row. */
  function StateTable(n: nat): (r: seq<nat>)
    requires n <= 9
    ensures |r| == 16 * n
  {
    if n == 0 then [] else StateTable(n - 1) + StateRow(n - 1)
  }

  /** utf8d: byte classes, then the successor rows. */
  function Utf8d(): seq<nat> {
    ClassTable() + StateTable(9)
  }

  /** The class of a byte, range by range. */
  function TypeOf(b: Byte): (k: nat)
    ensures k < 12
  {
    if b < 0x80 then 0
    else if b < 0x90 then 1
    else if b < 0xa0 then 9
    else if b < 0xc0 then 7
    else if b < 0xc2 then 8
    else if b < 0xe0 then 2
    else if b == 0xe0 then 10
    else if b == 0xed then 4
    else if b < 0xf0 then 3
    else if b == 0xf0 then 11
    else if b < 0xf4 then 6
    else if b == 0xf4 then 5
    else 8
  }

  predicate IsTail(k: nat) {
    k == 1 || k == 7 || k == 9
  }

  /** The successor of a state under a byte class. */
  function NextState(s: nat, k: nat): (r: nat)
    ensures r < 9
  {
    if s == 0 then
      if k == 0 then 0 else if k == 2 then 2 else if k == 3 then 3 else if k == 4 then 5
      else if k == 5 then 8 else if k == 6 then 7 else if k == 10 then 4 else if k == 11 then 6 else 1
    else if s == 2 && IsTail(k) then 0
    else if s == 3 && IsTail(k) then 2
    else if s == 4 && k == 7 then 2
    else if s == 5 && (k == 1 || k == 9) then 2
    else if s == 6 && (k == 7 || k == 9) then 3
    else if s == 7 && IsTail(k) then 3
    else if s == 8 && k == 1 then 3
    else 1
  }

  lemma LowClassesAre(b: Byte)
    requires b < 0xe0
    ensures LowClasses()[b] == TypeOf(b)
  {
  }

  lemma HighClassesAre(b: Byte)
    requires 0xe0 <= b
    ensures HighClasses()[b - 0xe0] == TypeOf(b)
  {
  }

  lemma ClassTableIs(b: Byte)
    ensures |ClassTable()| == 256 && ClassTable()[b] == TypeOf(b)
  {
    hide LowClasses, HighClasses, TypeOf;
    if b < 0xe0 { LowClassesAre(b); } else { HighClassesAre(b); }
  }

  lemma RowIs(s: nat, k: nat)
    requires s < 9 && k < 12
    ensures StateRow(s)[k] == NextState(s, k)
  {
  }

  lemma {:induction false} StateTableIs(n: nat, s: nat, k: nat)
    requires s < n <= 9 && k < 16
    ensures StateTable(n)[s * 16 + k] == StateRow(s)[k]
  {
    hide StateRow;
    if s < n - 1 {
      StateTableIs(n - 1, s, k);
    }
  }

  /** The table, looked up as utf8Decode does, is the class and successor functions. */
  lemma TableIs(s: nat, b: Byte)
    requires s < 9
    ensures |Utf8d()| == 400 && Utf8d()[b] == TypeOf(b)
    ensures Utf8d()[256 + s * 16 + TypeOf(b)] == NextState(s, TypeOf(b))
  {
    hide ClassTable, StateTable, StateRow, TypeOf, NextState;
    ClassTableIs(b);
    StateTableIs(9, s, TypeOf(b));
    RowIs(s, TypeOf(b));
  }

  // ----- The decoder -----

  /** `*state` and `*codep`. */
  datatype Dec = Dec(state: nat, codep: nat)

  /** (0xff >> type) & byte. */
  function LeadBits(k: nat, b: nat): nat {
    if k == 0 then b
    else if k == 1 then b % 0x80
    else if k == 2 then b % 0x40
    else if k == 3 then b % 0x20
    else if k == 4 then b % 0x10
    else if k == 5 then b % 8
    else if k == 6 then b % 4
    else if k == 7 then b % 2
    else 0
  }

  /** What one byte does to the decoder. */
  function Step(d: Dec, b: Byte): (r: Dec)
    ensures r.state < 9
  {
    Dec(NextState(d.state, TypeOf(b)),
        if d.state != UTF8_ACCEPT then Low6(b) + d.codep * 0x40 % U32 else LeadBits(TypeOf(b), b))
  }

  function Low6(b: int): nat {
    b % 0x40
  }

  lemma SixOrSevenBits(b: bv8)
    ensures (b & 0x7F) as nat == b as nat % 0x80
    ensures (b & 0x3F) as nat == b as nat % 0x40
  {}

  lemma FourOrFiveBits(b: bv8)
    ensures (b & 0x1F) as nat == b as nat % 0x20
    ensures (b & 0x0F) as nat == b as nat % 0x10
  {}

  lemma TwoOrThreeBits(b: bv8)
    ensures (b & 7) as nat == b as nat % 8
    ensures (b & 3) as nat == b as nat % 4
  {}

  lemma OneBit(b: bv8)
    ensures (b & 1) as nat == b as nat % 2
  {}

  lemma Masks()
    ensures (0xFF as bv8) >> 0 == 0xFF && (0xFF as bv8) >> 1 == 0x7F && (0xFF as bv8) >> 2 == 0x3F
    ensures (0xFF as bv8) >> 3 == 0x1F && (0xFF as bv8) >> 4 == 0x0F && (0xFF as bv8) >> 5 == 7
    ensures (0xFF as bv8) >> 6 == 3 && (0xFF as bv8) >> 7 == 1
  {}

  /** Shift and mask as the source writes them. */
  lemma BitsAre(k: nat, b: bv8)
    ensures LeadBits(k, b as nat) == if k < 8 then (((0xFF as bv8) >> k) & b) as nat else 0
    ensures Low6(b as nat) == (b & 0x3F) as nat
  {
    SixOrSevenBits(b);
    FourOrFiveBits(b);
    TwoOrThreeBits(b);
    OneBit(b);
    Masks();
    assert b & 0xFF == b;
    if k == 0 {
    } else if k == 1 {
    } else if k == 2 {
    } else if k == 3 {
    } else if k == 4 {
    } else if k == 5 {
    } else if k == 6 {
    }
  }

  /** Feeds a byte string: the final state, and the code point at each return to ACCEPT. */
  function Feed(d: Dec, bs: seq<Byte>): (Dec, seq<nat>)
    decreases bs
  {
    if bs == [] then (d, [])
    else
      var d' := Step(d, bs[0]);
      var (last, out) := Feed(d', bs[1..]);
      (last, (if d'.state == UTF8_ACCEPT then [d'.codep] else []) + out)
  }

  /** REJECT is absorbing: nothing is decoded after it. */
  lemma {:induction false} RejectStays(d: Dec, bs: seq<Byte>)
    requires d.state == UTF8_REJECT
    ensures Feed(d, bs).0.state == UTF8_REJECT && Feed(d, bs).1 == []
    decreases bs
  {
    if bs != [] {
      RejectStays(Step(d, bs[0]), bs[1..]);
    }
  }

  class Decoder {
    var state: nat
    var codep: nat

    constructor ()
      ensures state == UTF8_ACCEPT
    {
      state, codep := UTF8_ACCEPT, 0;
    }

    method Utf8Decode(c: Byte) returns (r: nat)
      requires state < 9
      modifies this
      ensures Dec(state, codep) == Step(Dec(old(state), old(codep)), c) && r == state
    {
      hide Utf8d, TypeOf, NextState, LeadBits;
      TableIs(state, c);
      var k := Utf8d()[c];
      codep := if state != UTF8_ACCEPT then Low6(c) + codep * 0x40 % U32 else LeadBits(k, c);
      state := Utf8d()[256 + state * 16 + k];
      r := state;
    }
  }

  // ----- RFC 3629, section 4 -----

  predicate UTF8Tail(b: Byte) {
    0x80 <= b <= 0xBF
  }

  predicate UTF8Two(a: Byte, b: Byte) {
    0xC2 <= a <= 0xDF && UTF8Tail(b)
  }

  predicate UTF8Three(a: Byte, b: Byte, c: Byte) {
    && (|| (a == 0xE0 && 0xA0 <= b <= 0xBF)
        || (0xE1 <= a <= 0xEC && UTF8Tail(b))
        || (a == 0xED && 0x80 <= b <= 0x9F)
        || (0xEE <= a <= 0xEF && UTF8Tail(b)))
    && UTF8Tail(c)
  }

  predicate UTF8Four(a: Byte, b: Byte, c: Byte, d: Byte) {
    && (|| (a == 0xF0 && 0x90 <= b <= 0xBF)
        || (0xF1 <= a <= 0xF3 && UTF8Tail(b))
        || (a == 0xF4 && 0x80 <= b <= 0x8F))
    && UTF8Tail(c) && UTF8Tail(d)
  }

  /** UTF8-char. */
  predicate IsChar(cs: seq<Byte>) {
    || (|cs| == 1 && cs[0] <= 0x7F)
    || (|cs| == 2 && UTF8Two(cs[0], cs[1]))
    || (|cs| == 3 && UTF8Three(cs[0], cs[1], cs[2]))
    || (|cs| == 4 && UTF8Four(cs[0], cs[1], cs[2], cs[3]))
  }

  /** The character number in the free bits of a UTF8-char. */
  function Number(cs: seq<Byte>): nat
    requires IsChar(cs)
  {
    if |cs| == 1 then cs[0]
    else if |cs| == 2 then Append6(cs[0] % 0x20, cs[1])
    else if |cs| == 3 then Append6(Append6(cs[0] % 0x10, cs[1]), cs[2])
    else Append6(Append6(Append6(cs[0] % 8, cs[1]), cs[2]), cs[3])
  }

  /** Six more bits. */
  function Append6(high: nat, b: nat): nat {
    high * 0x40 + b % 0x40
  }

  /** The length of the UTF8-char a byte string begins with, 0 when it begins with none. */
  function CharLen(bs: seq<Byte>): (n: nat)
    ensures n <= |bs| && n <= 4 && (n > 0 ==> IsChar(bs[..n]))
    ensures n == 0 ==> forall k :: 0 < k <= |bs| ==> !IsChar(bs[..k])
  {
    if |bs| >= 1 && IsChar(bs[..1]) then 1
    else if |bs| >= 2 && IsChar(bs[..2]) then 2
    else if |bs| >= 3 && IsChar(bs[..3]) then 3
    else if |bs| >= 4 && IsChar(bs[..4]) then 4
    else 0
  }

  /** UTF8-octets. */
  predicate IsOctets(bs: seq<Byte>) {
    bs == [] || (CharLen(bs) > 0 && IsOctets(bs[CharLen(bs)..]))
  }

  /** The character numbers of the longest sequence of whole UTF8-chars in front. */
  function Numbers(bs: seq<Byte>): seq<nat> {
    if CharLen(bs) == 0 then []
    else [Number(bs[..CharLen(bs)])] + Numbers(bs[CharLen(bs)..])
  }

  // ----- The decoder is the grammar -----

  /** Feeding a byte string byte by byte from the front. */
  lemma FeedOne(d: Dec, bs: seq<Byte>)
    requires bs != []
    ensures
      var d' := Step(d, bs[0]);
      Feed(d, bs) == if d'.state != UTF8_ACCEPT then Feed(d', bs[1..])
                     else (Feed(d', bs[1..]).0, [d'.codep] + Feed(d', bs[1..]).1)
  {
    var out := Feed(Step(d, bs[0]), bs[1..]).1;
    assert [] + out == out;
  }

  /** The bits a lead byte contributes. */
  lemma LeadByte(b: Byte)
    ensures b < 0x80 ==> LeadBits(TypeOf(b), b) == b
    ensures 0xC2 <= b < 0xE0 ==> LeadBits(TypeOf(b), b) == b % 0x20
    ensures 0xE0 <= b < 0xF0 ==> LeadBits(TypeOf(b), b) == b % 0x10
    ensures 0xF0 <= b < 0xF5 ==> LeadBits(TypeOf(b), b) == b % 8
  {
  }

  /** A continuation byte appends its six bits while 32 bits suffice. */
  lemma TailByte(d: Dec, b: Byte)
    requires d.state != UTF8_ACCEPT && d.codep < 0x400_0000
    ensures Step(d, b).codep == Append6(d.codep, b)
  {
  }

  lemma Append6Small(high: nat, b: nat)
    ensures high < 0x20 ==> Append6(high, b) < 0x800
    ensures high < 0x800 ==> Append6(high, b) < 0x2_0000
  {
  }

  /** A whole UTF8-char leads from ACCEPT to ACCEPT with its character number. */
  lemma FeedChar(c: nat, bs: seq<Byte>)
    requires CharLen(bs) > 0
    ensures
      var n := CharLen(bs);
      var rest := Feed(Dec(UTF8_ACCEPT, Number(bs[..n])), bs[n..]);
      Feed(Dec(UTF8_ACCEPT, c), bs) == (rest.0, [Number(bs[..n])] + rest.1)
  {
    var n, d0 := CharLen(bs), Dec(UTF8_ACCEPT, c);
    var d1 := Step(d0, bs[0]);
    FeedOne(d0, bs);
    LeadByte(bs[0]);
    if n > 1 {
      var d2 := Step(d1, bs[1]);
      TailByte(d1, bs[1]);
      FeedOne(d1, bs[1..]);
      assert bs[1..][1..] == bs[2..];
      if n > 2 {
        var d3 := Step(d2, bs[2]);
        Append6Small(d1.codep, bs[1]);
        TailByte(d2, bs[2]);
        FeedOne(d2, bs[2..]);
        assert bs[2..][1..] == bs[3..];
        if n > 3 {
          Append6Small(d2.codep, bs[2]);
          TailByte(d3, bs[3]);
          FeedOne(d3, bs[3..]);
          assert bs[3..][1..] == bs[4..];
          assert Step(d3, bs[3]) == Dec(UTF8_ACCEPT, Number(bs[..4]));
        }
      }
    }
  }

  /** A byte string that begins with no UTF8-char never reaches ACCEPT. */
  lemma FeedNoChar(c: nat, bs: seq<Byte>)
    requires CharLen(bs) == 0 && bs != []
    ensures Feed(Dec(UTF8_ACCEPT, c), bs).1 == [] && Feed(Dec(UTF8_ACCEPT, c), bs).0.state != UTF8_ACCEPT
  {
    var d0 := Dec(UTF8_ACCEPT, c);
    var d1 := Step(d0, bs[0]);
    assert !IsChar(bs[..1]);
    FeedOne(d0, bs);
    if d1.state == UTF8_REJECT {
      RejectStays(d1, bs[1..]);
    } else if |bs| > 1 {
      var d2 := Step(d1, bs[1]);
      assert !IsChar(bs[..2]);
      FeedOne(d1, bs[1..]);
      assert bs[1..][1..] == bs[2..];
      if d2.state == UTF8_REJECT {
        RejectStays(d2, bs[2..]);
      } else if |bs| > 2 {
        var d3 := Step(d2, bs[2]);
        assert !IsChar(bs[..3]);
        FeedOne(d2, bs[2..]);
        assert bs[2..][1..] == bs[3..];
        if d3.state == UTF8_REJECT {
          RejectStays(d3, bs[3..]);
        } else if |bs| > 3 {
          assert !IsChar(bs[..4]);
          FeedOne(d3, bs[3..]);
          RejectStays(Step(d3, bs[3]), bs[4..]);
          assert bs[3..][1..] == bs[4..];
        }
      }
    }
  }

  /** For every byte string: the decoder yields the character numbers of the
      longest run of whole UTF8-chars in front and then nothing more, and it ends
      in ACCEPT exactly for the strings of the grammar. */
  lemma {:induction false} DecodesTheGrammar(c: nat, bs: seq<Byte>)
    ensures Feed(Dec(UTF8_ACCEPT, c), bs).1 == Numbers(bs)
    ensures Feed(Dec(UTF8_ACCEPT, c), bs).0.state == UTF8_ACCEPT <==> IsOctets(bs)
    decreases |bs|
  {
    var n := CharLen(bs);
    if bs == [] {
    } else if n == 0 {
      FeedNoChar(c, bs);
    } else {
      FeedChar(c, bs);
      DecodesTheGrammar(Number(bs[..n]), bs[n..]);
    }
  }

  // ----- Encoding -----

  /** The character numbers a UTF8-char may stand for: no surrogates, at most 0x10FFFF. */
  predicate IsScalar(cp: nat) {
    cp < 0xD800 || 0xE000 <= cp <= 0x10FFFF
  }

  function Encode(cp: nat): (cs: seq<Byte>)
    requires IsScalar(cp)
  {
    if cp < 0x80 then [cp]
    else if cp < 0x800 then [0xC0 + cp / 0x40, 0x80 + cp % 0x40]
    else if cp < 0x10000 then [0xE0 + cp / 0x1000, 0x80 + cp / 0x40 % 0x40, 0x80 + cp % 0x40]
    else [0xF0 + cp / 0x40000, 0x80 + cp / 0x1000 % 0x40, 0x80 + cp / 0x40 % 0x40, 0x80 + cp % 0x40]
  }

  lemma Split6(n: nat)
    ensures Append6(n / 0x40, n % 0x40) == n && Append6(n / 0x40, 0x80 + n % 0x40) == n
    ensures n / 0x1000 == n / 0x40 / 0x40 && n / 0x40000 == n / 0x40 / 0x40 / 0x40
  {}

  lemma EncodeTwo(a: nat, c: nat)
    requires 2 <= a < 0x20 && c < 0x40
    ensures IsChar([0xC0 + a, 0x80 + c]) && Number([0xC0 + a, 0x80 + c]) == Append6(a, c)
  {}

  lemma EncodeThree(b: nat, c: nat, d: nat)
    requires b < 0x10 && c < 0x40 && d < 0x40 && (b == 0 ==> c >= 0x20) && (b == 13 ==> c < 0x20)
    ensures IsChar([0xE0 + b, 0x80 + c, 0x80 + d])
    ensures Number([0xE0 + b, 0x80 + c, 0x80 + d]) == Append6(Append6(b, c), d)
  {
    hide IsChar, Append6;
    ThreeIsChar(b, c, d);
    TailBits(b, c);
    TailBits(Append6(b, c), d);
    assert (0xE0 + b) % 0x10 == b;
  }

  lemma ThreeIsChar(b: nat, c: nat, d: nat)
    requires b < 0x10 && c < 0x40 && d < 0x40 && (b == 0 ==> c >= 0x20) && (b == 13 ==> c < 0x20)
    ensures IsChar([0xE0 + b, 0x80 + c, 0x80 + d])
  {}

  lemma FourIsChar(a: nat, b: nat, c: nat, d: nat)
    requires a <= 4 && b < 0x40 && c < 0x40 && d < 0x40 && (a == 0 ==> b >= 0x10) && (a == 4 ==> b < 0x10)
    ensures IsChar([0xF0 + a, 0x80 + b, 0x80 + c, 0x80 + d])
  {}

  lemma TailBits(high: nat, x: nat)
    requires x < 0x40
    ensures Append6(high, 0x80 + x) == Append6(high, x)
  {}

  lemma EncodeFour(a: nat, b: nat, c: nat, d: nat)
    requires a <= 4 && b < 0x40 && c < 0x40 && d < 0x40 && (a == 0 ==> b >= 0x10) && (a == 4 ==> b < 0x10)
    ensures IsChar([0xF0 + a, 0x80 + b, 0x80 + c, 0x80 + d])
    ensures Number([0xF0 + a, 0x80 + b, 0x80 + c, 0x80 + d]) == Append6(Append6(Append6(a, b), c), d)
  {
    hide IsChar, Append6;
    FourIsChar(a, b, c, d);
    TailBits(a, b);
    TailBits(Append6(a, b), c);
    TailBits(Append6(Append6(a, b), c), d);
    assert (0xF0 + a) % 8 == a;
  }

  lemma EncodeIsChar(cp: nat)
    requires IsScalar(cp)
    ensures IsChar(Encode(cp)) && Number(Encode(cp)) == cp
  {
    hide Number, IsChar, Append6;
    Split6(cp);
    Split6(cp / 0x40);
    Split6(cp / 0x40 / 0x40);
    if cp < 0x80 {
      EncodeOne(cp);
    } else if cp < 0x800 {
      EncodeTwo(cp / 0x40, cp % 0x40);
    } else if cp < 0x10000 {
      EncodeThree(cp / 0x40 / 0x40, cp / 0x40 % 0x40, cp % 0x40);
    } else {
      EncodeFour(cp / 0x40 / 0x40 / 0x40, cp / 0x40 / 0x40 % 0x40, cp / 0x40 % 0x40, cp % 0x40);
    }
  }

  lemma EncodeOne(a: nat)
    requires a < 0x80
    ensures IsChar([a]) && Number([a]) == a
  {}

  lemma Unsplit6(high: nat, b: Byte)
    requires UTF8Tail(b)
    ensures Append6(high, b) / 0x40 == high && 0x80 + Append6(high, b) % 0x40 == b
  {}

  /** Every UTF8-char is the encoding of its character number, which is a scalar value. */
  lemma CharIsEncoded(cs: seq<Byte>)
    requires IsChar(cs)
    ensures IsScalar(Number(cs)) && Encode(Number(cs)) == cs
  {
    hide Encode, Append6, UTF8Two, UTF8Three, UTF8Four, IsScalar;
    if |cs| == 1 {
      OneIsEncoded(cs[0]);
    } else if |cs| == 2 {
      TwoIsEncoded(cs[0], cs[1]);
    } else if |cs| == 3 {
      ThreeIsEncoded(cs[0], cs[1], cs[2]);
    } else if |cs| == 4 {
      FourIsEncoded(cs[0], cs[1], cs[2], cs[3]);
    }
  }

  lemma OneIsEncoded(a: Byte)
    requires a <= 0x7F
    ensures IsScalar(a) && Encode(a) == [a]
  {}

  lemma TwoIsEncoded(a: Byte, b: Byte)
    requires UTF8Two(a, b)
    ensures
      var n := Append6(a % 0x20, b);
      0x80 <= n < 0x800 && IsScalar(n) && Encode(n) == [a, b]
  {
    hide Append6;
    Unsplit6(a % 0x20, b);
  }

  lemma ThreeIsEncoded(a: Byte, b: Byte, c: Byte)
    requires UTF8Three(a, b, c)
    ensures
      var n := Append6(Append6(a % 0x10, b), c);
      0x800 <= n < 0x10000 && IsScalar(n) && Encode(n) == [a, b, c]
  {
    hide Append6;
    var m := Append6(a % 0x10, b);
    Unsplit6(a % 0x10, b);
    Unsplit6(m, c);
    ThreeRange(a, b, c, m, Append6(m, c));
  }

  lemma ThreeRange(a: Byte, b: Byte, c: Byte, m: nat, n: nat)
    requires UTF8Three(a, b, c)
    requires m / 0x40 == a % 0x10 && 0x80 + m % 0x40 == b && n / 0x40 == m && 0x80 + n % 0x40 == c
    ensures 0x800 <= n < 0x10000 && IsScalar(n) && a == 0xE0 + a % 0x10
  {}

  lemma FourRange(a: Byte, b: Byte, c: Byte, d: Byte, m: nat, k: nat, n: nat)
    requires UTF8Four(a, b, c, d)
    requires m / 0x40 == a % 8 && 0x80 + m % 0x40 == b && k / 0x40 == m && 0x80 + k % 0x40 == c
    requires n / 0x40 == k && 0x80 + n % 0x40 == d
    ensures 0x10000 <= n <= 0x10FFFF && a == 0xF0 + a % 8
  {}

  lemma FourIsEncoded(a: Byte, b: Byte, c: Byte, d: Byte)
    requires UTF8Four(a, b, c, d)
    ensures
      var n := Append6(Append6(Append6(a % 8, b), c), d);
      0x10000 <= n <= 0x10FFFF && IsScalar(n) && Encode(n) == [a, b, c, d]
  {
    hide Append6;
    var m := Append6(a % 8, b);
    Unsplit6(a % 8, b);
    Unsplit6(m, c);
    Unsplit6(Append6(m, c), d);
    FourRange(a, b, c, d, m, Append6(m, c), Append6(Append6(m, c), d));
  }

  function EncodeAll(cps: seq<nat>): seq<Byte>
    requires forall i :: 0 <= i < |cps| ==> IsScalar(cps[i])
  {
    if cps == [] then [] else Encode(cps[0]) + EncodeAll(cps[1..])
  }

  /** No UTF8-char is the beginning of another one. */
  lemma CharLenOfEncoded(cs: seq<Byte>, rest: seq<Byte>)
    requires IsChar(cs)
    ensures CharLen(cs + rest) == |cs| && (cs + rest)[..|cs|] == cs && (cs + rest)[|cs|..] == rest
  {
    assert (cs + rest)[..|cs|] == cs;
    forall k | 0 < k < |cs| ensures !IsChar((cs + rest)[..k]) {
      assert (cs + rest)[..k] == cs[..k];
    }
  }

  /** Feeding the encodings of any scalar values yields exactly these values. */
  lemma {:induction false} DecodesEncodings(c: nat, cps: seq<nat>)
    requires forall i :: 0 <= i < |cps| ==> IsScalar(cps[i])
    ensures Feed(Dec(UTF8_ACCEPT, c), EncodeAll(cps)).0.state == UTF8_ACCEPT
    ensures Feed(Dec(UTF8_ACCEPT, c), EncodeAll(cps)).1 == cps
    decreases cps
  {
    if cps != [] {
      EncodeIsChar(cps[0]);
      CharLenOfEncoded(Encode(cps[0]), EncodeAll(cps[1..]));
      FeedChar(c, EncodeAll(cps));
      DecodesEncodings(cps[0], cps[1..]);
    }
  }

  // ----- The loop over a string -----

  /** The loop of fntRenderString up to the glyph lookup: the code points a
      string is drawn with. */
  method DecodeString(bs: seq<Byte>) returns (cps: seq<nat>)
    ensures cps == Numbers(bs)
  {
    var dec := new Decoder();
    ghost var start := Dec(dec.state, dec.codep);
    cps := [];
    for i := 0 to |bs|
      invariant dec.state < 9
      invariant Feed(start, bs).1 == cps + Feed(Dec(dec.state, dec.codep), bs[i..]).1
    {
      FeedOne(Dec(dec.state, dec.codep), bs[i..]);
      assert bs[i..][1..] == bs[i + 1..];
      var r := dec.Utf8Decode(bs[i]);
      if r == UTF8_ACCEPT {
        cps := cps + [dec.codep];
      }
    }
    DecodesTheGrammar(start.codep, bs);
  }
}
