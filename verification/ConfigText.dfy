/** The text form of a configuration set (src/config.c): what is written, what is
    read, and exactly when a set survives. */
module ConfigText {
  import opened CStrings
  import opened Config
  import opened TextLines

  // ----- Writing -----

  /** Comments and empty keys stay in memory. */
  predicate Writable(p: Pair) {
    p.key != "" && p.key[0] != '#'
  }

  function Written(items: Items): (r: Items)
    ensures forall p :: p in r ==> p in items && Writable(p)
  {
    if items == [] then []
    else Written(items[..|items| - 1]) + if Writable(items[|items| - 1]) then [items[|items| - 1]] else []
  }

  function Bare(p: Pair): string {
    p.key + "=" + p.val
  }

  function Line(p: Pair): string {
    Bare(p) + [CR, LF]
  }

  /** configWrite. */
  function Text(items: Items): string {
    if items == [] then ""
    else Text(items[..|items| - 1]) + if Writable(items[|items| - 1]) then Line(items[|items| - 1]) else ""
  }

  /** A pair is written as its key, an equals sign, its value, CR and LF. */
  lemma WrittenLine()
    ensures Text([Pair("a", "b")]) == "a=b\r\n" && Text([Pair("#a", "b")]) == "" && Text([Pair("", "b")]) == ""
  {
    assert [Pair("a", "b")][..0] == [] && [Pair("#a", "b")][..0] == [] && [Pair("", "b")][..0] == [];
  }

  // ----- Reading -----

  predicate IsBlank(c: char) {
    c == ' ' || c == '\t'
  }

  function SkipBlanks(s: string): (r: string)
    ensures |r| <= |s| && r == s[|s| - |r|..]
    ensures r != "" ==> !IsBlank(r[0])
  {
    if s != "" && IsBlank(s[0]) then SkipBlanks(s[1..]) else s
  }

  datatype Reader = Reader(items: Items, prefix: string)

  /** One line of configReadFileBuffer. */
  function ReadLine(r: Reader, line: string): Reader {
    var l := SkipBlanks(line);
    var e := Find(l, '=');
    if e < |l| then
      var key, val := First(l[..e], KEY_LEN), First(l[e + 1..], VALUE_LEN);
      var prefix := if IsBlank(line[0]) then r.prefix else "";
      Reader(Set(r.items, if prefix != "" then First(prefix + "_" + key, KEY_LEN - 1) else key, val), prefix)
    else
      var c := Find(line, ':');
      if 0 < c < |line| then r.(prefix := line[..c]) else r
  }

  function ReadLines(r: Reader, lines: seq<string>): Reader {
    if lines == [] then r else ReadLine(ReadLines(r, lines[..|lines| - 1]), lines[|lines| - 1])
  }

  /** configReadBuffer into a set that may hold pairs already. */
  function ReadText(items: Items, text: string): Items {
    ReadLines(Reader(items, ""), Lines(text)).items
  }

  const BOM := [0xEF as char, 0xBB as char, 0xBF as char]

  /** openFileBuffer skips a UTF-8 byte order mark in front of the file. */
  function PastMark(text: string): string {
    if BOM <= text then text[|BOM|..] else text
  }

  /** configRead. */
  function ReadFile(items: Items, text: string): Items {
    ReadText(items, PastMark(text))
  }

  // ----- Lines of a written set -----

  predicate LfFree(p: Pair) {
    LF !in p.key && LF !in p.val
  }

  lemma {:induction false} ReadLinesConcat(r: Reader, a: seq<string>, b: seq<string>)
    ensures ReadLines(r, a + b) == ReadLines(ReadLines(r, a), b)
  {
    if b == [] {
      assert a + b == a;
    } else {
      assert (a + b)[..|a + b| - 1] == a + b[..|b| - 1];
      ReadLinesConcat(r, a, b[..|b| - 1]);
    }
  }

  lemma {:induction false} SkipBlanksAppend(s: string, t: string)
    requires t != "" && !IsBlank(t[0])
    ensures SkipBlanks(s + t) == SkipBlanks(s) + t
  {
    if s == "" {
      assert s + t == t;
    } else if IsBlank(s[0]) {
      assert (s + t)[1..] == s[1..] + t;
      SkipBlanksAppend(s[1..], t);
    } else {
      assert (s + t)[0] == s[0];
    }
  }

  lemma SplitAssignment(key: string, val: string)
    ensures
      var l := key + ("=" + val);
      l[..|key|] == key && l[|key| + 1..] == val
  {}

  lemma FindFirst(val: string)
    ensures Find("=" + val, '=') == 0
  {}

  lemma WholeField(s: string, n: nat)
    requires |s| <= n
    ensures First(s, n) == s
  {}

  /** A line without a section in force sets its pair, short of leading blanks. */
  lemma ReadBare(items: Items, p: Pair)
    requires '=' !in p.key && |p.key| < KEY_LEN && |p.val| < VALUE_LEN
    ensures ReadLine(Reader(items, ""), Bare(p)) == Reader(Set(items, SkipBlanks(p.key), p.val), "")
  {
    hide SkipBlanks, Find, Set, First;
    var line, key := Bare(p), SkipBlanks(p.key);
    assert line == p.key + ("=" + p.val) && line != "";
    SkipBlanksAppend(p.key, "=" + p.val);
    assert '=' !in key;
    FindAppend(key, "=" + p.val, '=');
    var l := SkipBlanks(line);
    FindFirst(p.val);
    SplitAssignment(key, p.val);
    WholeField(key, KEY_LEN);
    WholeField(p.val, VALUE_LEN);
  }

  // ----- A whole set -----

  /** What reading a written pair sets. */
  function Trim(items: Items): (r: Items)
    ensures |r| == |items| && forall i :: 0 <= i < |items| ==> r[i] == Pair(SkipBlanks(items[i].key), items[i].val)
  {
    seq(|items|, i requires 0 <= i < |items| => Pair(SkipBlanks(items[i].key), items[i].val))
  }

  predicate Fits(p: Pair) {
    '=' !in p.key && |p.key| < KEY_LEN && |p.val| < VALUE_LEN
  }

  lemma LineReads(items: Items, p: Pair, rest: string)
    requires Fits(p) && LfFree(p)
    ensures ReadText(items, Line(p) + rest) ==
            if IsComment(Bare(p)) then ReadText(items, rest)
            else ReadText(Set(items, SkipBlanks(p.key), p.val), rest)
  {
    hide ReadLine, Set;
    LinesOfOne(Bare(p), rest);
    if IsComment(Bare(p)) {
      assert [] + Lines(rest) == Lines(rest);
    } else {
      ReadBare(items, p);
      ReadLinesConcat(Reader(items, ""), [Bare(p)], Lines(rest));
      assert ReadLines(Reader(items, ""), [Bare(p)]) == ReadLine(Reader(items, ""), Bare(p)) by {
        assert [Bare(p)][..0] == [];
      }
    }
  }

  lemma {:induction false} MergeConcat(dest: Items, a: Items, b: Items)
    ensures Merge(dest, a + b) == Merge(Merge(dest, a), b)
  {
    if b == [] {
      assert a + b == a;
    } else {
      assert (a + b)[..|a + b| - 1] == a + b[..|b| - 1];
      MergeConcat(dest, a, b[..|b| - 1]);
    }
  }

  lemma MergeOne(dest: Items, p: Pair)
    ensures Merge(dest, [p]) == Set(dest, p.key, p.val)
  {
    assert [p][..0] == [];
  }

  lemma {:induction false} TextIs(items: Items)
    ensures Text(items) == Text(Written(items))
  {
    if items != [] {
      var n := |items| - 1;
      TextIs(items[..n]);
      var w := Written(items[..n]);
      assert (w + [items[n]])[..|w|] == w;
      assert w + [] == w;
    }
  }

  lemma {:induction false} TextConcat(a: Items, b: Items)
    ensures Text(a + b) == Text(a) + Text(b)
  {
    if b == [] {
      assert a + b == a;
    } else {
      assert (a + b)[..|a + b| - 1] == a + b[..|b| - 1];
      TextConcat(a, b[..|b| - 1]);
    }
  }

  ghost predicate AllFit(items: Items) {
    forall p :: p in items ==> Writable(p) && Fits(p) && LfFree(p)
  }

  lemma NothingReads(items: Items)
    ensures ReadText(items, Text([])) == items == Merge(items, Trim([]))
  {}

  lemma TextOne(p: Pair)
    requires Writable(p)
    ensures Text([p]) == Line(p)
  {
    assert [p][..0] == [];
  }

  lemma TrimFirst(p: Pair, rest: Items)
    ensures Trim([p] + rest) == [Pair(SkipBlanks(p.key), p.val)] + Trim(rest)
  {
    hide *;
    var all := [p] + rest;
    assert forall i :: 0 < i < |all| ==> all[i] == rest[i - 1];
  }

  lemma WritableIsNoComment(p: Pair)
    requires Writable(p)
    ensures !IsComment(Bare(p))
  {}

  /** The text of pairs without LF sets them one by one; no section is ever in force. */
  lemma {:induction false} TextReads(items: Items, w: Items)
    requires AllFit(w)
    ensures ReadText(items, Text(w)) == Merge(items, Trim(w))
    decreases |w|
  {
    hide ReadText, Text, Line, Set, SkipBlanks, Merge, Trim, Writable, Fits, LfFree;
    if w == [] {
      NothingReads(items);
    } else {
      var p, rest := w[0], w[1..];
      assert w == [p] + rest;
      TextConcat([p], rest);
      TextOne(p);
      WritableIsNoComment(p);
      LineReads(items, p, Text(rest));
      TextReads(Set(items, SkipBlanks(p.key), p.val), rest);
      var q := Pair(SkipBlanks(p.key), p.val);
      TrimFirst(p, rest);
      MergeConcat(items, [q], Trim(rest));
      MergeOne(items, q);
    }
  }
}
