/** Menu titles and their case-insensitive comparison (src/menusys.c and strcasecmp). */
module Titles {

  /** A submenu item; a non-negative `textId` selects a localised text instead of `text`. */
  datatype Item = Item(iconId: int, text: string, id: int, textId: int)

  type Language = int -> string

  function Title(lang: Language, it: Item): string {
    if it.textId >= 0 then lang(it.textId) else it.text
  }

  lemma LocalisedFromZero(lang: Language, it: Item)
    ensures Title(lang, it) == if it.textId < 0 then it.text else lang(it.textId)
  {}

  function Lower(c: char): char {
    if 'A' <= c <= 'Z' then c + ' ' else c
  }

  /** Of the characters only the 26 capital letters change. */
  lemma LowerIs(c: char)
    ensures Lower(c) != c <==> c in "ABCDEFGHIJKLMNOPQRSTUVWXYZ"
    ensures c in "ABCDEFGHIJKLMNOPQRSTUVWXYZ" ==> Lower(c) in "abcdefghijklmnopqrstuvwxyz" && Lower(c) - c == ' '
  {
    CapitalsAre(c);
    SmallLettersAre(Lower(c));
  }

  lemma CapitalsAre(c: char)
    ensures c in "ABCDEFGHIJKLMNOPQRSTUVWXYZ" <==> 'A' <= c <= 'Z'
  {
    if 'A' <= c <= 'Z' {
      assert "ABCDEFGHIJKLMNOPQRSTUVWXYZ"[(c - 'A') as int] == c;
    }
  }

  lemma SmallLettersAre(c: char)
    ensures c in "abcdefghijklmnopqrstuvwxyz" <==> 'a' <= c <= 'z'
  {
    if 'a' <= c <= 'z' {
      assert "abcdefghijklmnopqrstuvwxyz"[(c - 'a') as int] == c;
    }
  }

  /** strcasecmp: negative, zero or positive. */
  function Compare(a: string, b: string): int {
    if a == [] then (if b == [] then 0 else -1)
    else if b == [] then 1
    else if Lower(a[0]) < Lower(b[0]) then -1
    else if Lower(a[0]) > Lower(b[0]) then 1
    else Compare(a[1..], b[1..])
  }

  lemma {:induction false} CompareFlips(a: string, b: string)
    ensures Compare(a, b) == -Compare(b, a)
  {
    if a != [] && b != [] && Lower(a[0]) == Lower(b[0]) {
      CompareFlips(a[1..], b[1..]);
    }
  }

  /** The first `k` letters agree but for their case. */
  ghost predicate AgreeTo(a: string, b: string, k: nat) {
    k <= |a| && k <= |b| && forall i :: 0 <= i < k ==> Lower(a[i]) == Lower(b[i])
  }

  ghost predicate SameButCase(a: string, b: string) {
    |a| == |b| && AgreeTo(a, b, |a|)
  }

  /** After agreeing letters `a` ends first or has the smaller letter. */
  ghost predicate EarlierAt(a: string, b: string, k: nat) {
    && AgreeTo(a, b, k)
    && k < |b| && (k == |a| || Lower(a[k]) < Lower(b[k]))
  }

  /** `a` stands before `b` in a dictionary that knows no case. */
  ghost predicate Earlier(a: string, b: string) {
    exists k: nat :: EarlierAt(a, b, k)
  }

  lemma AgreeOneMore(a: string, b: string, k: nat)
    requires a != [] && b != [] && Lower(a[0]) == Lower(b[0])
    ensures AgreeTo(a, b, k + 1) <==> AgreeTo(a[1..], b[1..], k)
    ensures EarlierAt(a, b, k + 1) <==> EarlierAt(a[1..], b[1..], k)
  {
    if AgreeTo(a[1..], b[1..], k) {
      forall i: nat | i < k + 1 ensures Lower(a[i]) == Lower(b[i]) {
        if i > 0 {
          assert Lower(a[1..][i - 1]) == Lower(b[1..][i - 1]);
        }
      }
    }
  }

  /** The comparison is negative exactly for titles in dictionary order. */
  lemma {:induction false} CompareNegativeIff(a: string, b: string)
    ensures Compare(a, b) < 0 <==> Earlier(a, b)
  {
    if a != [] && b != [] && Lower(a[0]) == Lower(b[0]) {
      CompareNegativeIff(a[1..], b[1..]);
      if Compare(a, b) < 0 {
        var k: nat :| EarlierAt(a[1..], b[1..], k);
        AgreeOneMore(a, b, k);
        assert EarlierAt(a, b, k + 1);
      } else if k: nat :| EarlierAt(a, b, k) {
        assert k > 0;
        AgreeOneMore(a, b, k - 1);
      }
    } else {
      assert Compare(a, b) < 0 ==> EarlierAt(a, b, 0);
      if k: nat :| EarlierAt(a, b, k) {
        assert k == 0;
      }
    }
  }

  lemma AlphaBeforeBeta()
    ensures Compare("alpha", "Beta") < 0 && Compare("beta", "Alpha") > 0 && Compare("Al", "alpha") < 0
  {
    assert EarlierAt("alpha", "Beta", 0);
    assert EarlierAt("Al", "alpha", 2);
    CompareNegativeIff("alpha", "Beta");
    CompareNegativeIff("Al", "alpha");
    assert EarlierAt("Alpha", "beta", 0);
    CompareNegativeIff("Alpha", "beta");
    CompareFlips("beta", "Alpha");
  }

  /** Titles compare as equal exactly when they differ in case only. */
  lemma {:induction false} CompareEqualIff(a: string, b: string)
    ensures Compare(a, b) == 0 <==> SameButCase(a, b)
  {
    if a != [] && b != [] && Lower(a[0]) == Lower(b[0]) {
      CompareEqualIff(a[1..], b[1..]);
      if Compare(a, b) == 0 {
        forall i | 0 <= i < |a| ensures Lower(a[i]) == Lower(b[i]) {
          if i > 0 {
            assert Lower(a[1..][i - 1]) == Lower(b[1..][i - 1]);
          }
        }
      } else if |a| == |b| {
        var i :| 0 <= i < |a| - 1 && Lower(a[1..][i]) != Lower(b[1..][i]);
        assert Lower(a[i + 1]) != Lower(b[i + 1]);
      }
    }
  }

  /** The order of titles is transitive, and equality in it is a congruence. */
  lemma {:induction false} CompareTransitive(a: string, b: string, c: string)
    requires Compare(a, b) <= 0 && Compare(b, c) <= 0
    ensures Compare(a, c) <= 0
    ensures Compare(a, c) == 0 ==> Compare(a, b) == 0 && Compare(b, c) == 0
  {
    if a != [] && b != [] && c != [] && Lower(a[0]) == Lower(b[0]) == Lower(c[0]) {
      CompareTransitive(a[1..], b[1..], c[1..]);
    }
  }
}
