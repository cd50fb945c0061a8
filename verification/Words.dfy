/** Little-endian words in byte strings. */
module Words {
  import opened Bytes

  const B := 0x100
  const WORD := 0x1_0000_0000

  function PackU16(n: nat): (b: seq<Byte>)
    requires n < B * B
    ensures |b| == 2
  {
    [n % B, n / B]
  }

  function PackU32(n: nat): (b: seq<Byte>)
    requires n < WORD
    ensures |b| == 4
  {
    [n % B, n / B % B, n / (B * B) % B, n / (B * B * B)]
  }

  function UnpackU32(b: seq<Byte>): (n: nat)
    requires |b| == 4
    ensures n < WORD
  {
    b[0] + B * (b[1] + B * (b[2] + B * b[3]))
  }

  function PackU64(n: nat): (b: seq<Byte>)
    requires n < WORD * WORD
    ensures |b| == 8
  {
    PackU32(n % WORD) + PackU32(n / WORD)
  }

  function UnpackU64(b: seq<Byte>): nat
    requires |b| == 8
  {
    UnpackU32(b[..4]) + WORD * UnpackU32(b[4..])
  }

  lemma UnpackPackU32(n: nat)
    requires n < WORD
    ensures UnpackU32(PackU32(n)) == n
  {
    var q1 := n / B;
    var q2 := q1 / B;
    assert n / (B * B) == q2 && n / (B * B * B) == q2 / B;
  }

  lemma UnpackPackU64(n: nat)
    requires n < WORD * WORD
    ensures UnpackU64(PackU64(n)) == n
  {
    UnpackPackU32(n % WORD);
    UnpackPackU32(n / WORD);
    assert PackU64(n)[..4] == PackU32(n % WORD) && PackU64(n)[4..] == PackU32(n / WORD);
  }

  /** The number that bytes stand for, the least significant one first. */
  function Value(b: seq<Byte>): nat {
    if b == [] then 0 else b[0] + B * Value(b[1..])
  }

  lemma ValueFour(b: seq<Byte>)
    requires |b| == 4
    ensures Value(b) == UnpackU32(b)
  {
    ValueStep(b);
    ValueStep(b[1..]);
    ValueStep(b[2..]);
    ValueStep(b[3..]);
    assert b[1..][1..] == b[2..] && b[2..][1..] == b[3..] && b[3..][1..] == [];
  }

  lemma ValueStep(b: seq<Byte>)
    requires b != []
    ensures Value(b) == b[0] + B * Value(b[1..])
  {}

  lemma ValueEight(b: seq<Byte>)
    requires |b| == 8
    ensures Value(b) == UnpackU64(b)
  {
    var hi := b[4..];
    ValueFour(hi);
    ValueFour(b[..4]);
    ValueStep(b);
    ValueStep(b[1..]);
    ValueStep(b[2..]);
    ValueStep(b[3..]);
    assert b[1..][1..] == b[2..] && b[2..][1..] == b[3..] && b[3..][1..] == hi;
  }

  /** What is packed stands least significant byte first. */
  lemma PackedValues(n: nat)
    ensures n < B * B ==> Value(PackU16(n)) == n
    ensures n < WORD ==> Value(PackU32(n)) == n
    ensures n < WORD * WORD ==> Value(PackU64(n)) == n
  {
    if n < B * B {
      ValueStep(PackU16(n));
      ValueStep(PackU16(n)[1..]);
    }
    if n < WORD {
      ValueFour(PackU32(n));
      UnpackPackU32(n);
    }
    if n < WORD * WORD {
      ValueEight(PackU64(n));
      UnpackPackU64(n);
    }
  }

  /** The words of a table, one after the other. */
  function PackTable(words: seq<nat>): (b: seq<Byte>)
    requires forall i :: 0 <= i < |words| ==> words[i] < WORD
    ensures |b| == 4 * |words|
  {
    if words == [] then [] else PackTable(words[..|words| - 1]) + PackU32(words[|words| - 1])
  }

  lemma {:induction false} PackTableAt(words: seq<nat>, i: nat)
    requires forall k :: 0 <= k < |words| ==> words[k] < WORD
    requires i < |words|
    ensures PackTable(words)[4 * i..4 * i + 4] == PackU32(words[i])
  {
    var n := |words| - 1;
    if i < n {
      PackTableAt(words[..n], i);
      assert PackTable(words)[4 * i..4 * i + 4] == PackTable(words[..n])[4 * i..4 * i + 4];
    }
  }
}
