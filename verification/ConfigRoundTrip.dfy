/** Writing a configuration set and reading it back (src/config.c): the exact
    condition under which the same pairs come back in the same order. */
module ConfigRoundTrip {
  import opened CStrings
  import opened Config
  import opened ConfigText
  import opened TextLines

  // ----- Merging into an empty set -----

  lemma {:induction false} MergeStaysUnique(dest: Items, source: Items)
    requires Well(dest) && UniqueKeys(dest) && forall i :: 0 <= i < |source| ==> Short(source[i].key)
    ensures UniqueKeys(Merge(dest, source))
  {
    if source != [] {
      var n, p := |source| - 1, source[|source| - 1];
      MergeStaysUnique(dest, source[..n]);
      MergeKeepsWell(dest, source[..n]);
      if ValidKey(p.key) {
        SetRefines(Merge(dest, source[..n]), p.key, p.val);
      }
    }
  }

  lemma {:induction false} MergeAppends(source: Items)
    requires Well(source) && UniqueKeys(source)
    ensures Merge([], source) == source
  {
    if source != [] {
      var n, p := |source| - 1, source[|source| - 1];
      MergeAppends(source[..n]);
      forall i | 0 <= i < n ensures !Named(source[..n][i], p.key) {
        NamedIsKey(source[i], p.key);
      }
      StoredWhole(p);
      assert source == source[..n] + [p];
    }
  }

  lemma StoredWhole(p: Pair)
    requires PairOk(p)
    ensures Stored(p.key, p.val) == p
  {}

  /** A merge gains at most one pair a step; when it gains one at every step its
      first pair has the first key. */
  lemma {:induction false} MergeGains(source: Items)
    ensures |Merge([], source)| <= |source|
    ensures source != [] && |Merge([], source)| == |source| ==>
      Merge([], source)[0].key == First(source[0].key, KEY_LEN - 1)
  {
    if source != [] {
      MergeGains(source[..|source| - 1]);
    }
  }

  // ----- What reading can never produce -----

  predicate NoLf(s: string) {
    LF !in s
  }

  lemma NoLfSlice(s: string, i: nat, j: nat)
    requires NoLf(s) && i <= j <= |s|
    ensures NoLf(s[i..j])
  {
    assert forall c :: c in s[i..j] ==> c in s;
  }

  lemma ChompNoLf(line: string)
    requires NoLf(line)
    ensures NoLf(Chomp(line))
  {
    NoLfSlice(line, 0, |Chomp(line)|);
  }

  lemma {:induction false} LinesNoLf(text: string)
    ensures forall line :: line in Lines(text) ==> NoLf(line)
    decreases |text|
  {
    if text != "" {
      var e := Find(text, LF);
      ChompNoLf(text[..e]);
      if e < |text| {
        LinesNoLf(text[e + 1..]);
      }
    }
  }

  ghost predicate AllLfFree(items: Items) {
    forall i :: 0 <= i < |items| ==> LfFree(items[i])
  }

  lemma SetNoLf(items: Items, key: string, val: string)
    requires AllLfFree(items) && NoLf(key) && NoLf(val)
    ensures AllLfFree(Set(items, key, val))
  {
    NoLfFirst(key, KEY_LEN - 1);
    NoLfFirst(val, VALUE_LEN - 1);
  }

  lemma NoLfFirst(s: string, n: nat)
    requires NoLf(s)
    ensures NoLf(First(s, n))
  {
    if n < |s| {
      NoLfSlice(s, 0, n);
    }
  }

  lemma ReadLineNoLf(r: Reader, line: string)
    requires AllLfFree(r.items) && NoLf(r.prefix) && NoLf(line)
    ensures AllLfFree(ReadLine(r, line).items) && NoLf(ReadLine(r, line).prefix)
  {
    hide SkipBlanks, Find, Set, First, AllLfFree;
    var l := SkipBlanks(line);
    var e, c := Find(l, '='), Find(line, ':');
    NoLfSlice(line, |line| - |l|, |line|);
    assert l == line[|line| - |l|..|line|];
    if e < |l| {
      NoLfSlice(l, 0, e);
      NoLfSlice(l, e + 1, |l|);
      var key, val := First(l[..e], KEY_LEN), First(l[e + 1..], VALUE_LEN);
      NoLfFirst(l[..e], KEY_LEN);
      NoLfFirst(l[e + 1..], VALUE_LEN);
      NoLfFirst(r.prefix + "_" + key, KEY_LEN - 1);
      SetNoLf(r.items, First(r.prefix + "_" + key, KEY_LEN - 1), val);
      SetNoLf(r.items, key, val);
    } else if c < |line| {
      NoLfSlice(line, 0, c);
    }
  }

  lemma {:induction false} ReadLinesNoLf(r: Reader, lines: seq<string>)
    requires AllLfFree(r.items) && NoLf(r.prefix) && forall line :: line in lines ==> NoLf(line)
    ensures AllLfFree(ReadLines(r, lines).items) && NoLf(ReadLines(r, lines).prefix)
  {
    hide ReadLine, AllLfFree, NoLf;
    if lines != [] {
      ReadLinesNoLf(r, lines[..|lines| - 1]);
      ReadLineNoLf(ReadLines(r, lines[..|lines| - 1]), lines[|lines| - 1]);
    }
  }

  lemma ReadNoLf(text: string)
    ensures AllLfFree(ReadText([], text))
  {
    LinesNoLf(text);
    ReadLinesNoLf(Reader([], ""), Lines(text));
  }

  ghost predicate NoBlankKeys(items: Items) {
    forall i :: 0 <= i < |items| ==> items[i].key == "" || !IsBlank(items[i].key[0])
  }

  lemma {:induction false} MergeNoBlankKeys(source: Items)
    requires NoBlankKeys(source)
    ensures NoBlankKeys(Merge([], source))
  {
    if source != [] {
      MergeNoBlankKeys(source[..|source| - 1]);
    }
  }

  // ----- The round trip -----

  /** No line feed anywhere and no blank in front of the key. */
  predicate Plain(p: Pair) {
    LfFree(p) && (p.key == "" || !IsBlank(p.key[0]))
  }

  ghost predicate AllPlain(items: Items) {
    forall i :: 0 <= i < |items| ==> Plain(items[i])
  }

  lemma {:induction false} WrittenOk(items: Items)
    requires Well(items)
    ensures Well(Written(items))
  {
    if items != [] {
      WrittenOk(items[..|items| - 1]);
    }
  }

  lemma WrittenFits(items: Items)
    requires Well(items) && AllLfFree(Written(items))
    ensures AllFit(Written(items))
  {
    WrittenOk(items);
  }

  lemma TrimNothing(items: Items)
    ensures NoBlankKeys(items) <==> Trim(items) == items
  {
    if Trim(items) == items {
      forall i | 0 <= i < |items| ensures items[i].key == "" || !IsBlank(items[i].key[0]) {
        assert Trim(items)[i] == items[i];
      }
    }
  }

  /** A written set is read back unchanged, but for comments and empty keys,
      exactly when none of its written keys and values has a line feed, no written
      key begins with a blank and no two written keys are equal. Carriage returns,
      comment signs, colons and further equals signs in values all survive. */
  lemma RoundTripIff(items: Items)
    requires Well(items)
    ensures ReadText([], Text(items)) == Written(items) <==> AllPlain(Written(items)) && UniqueKeys(Written(items))
  {
    hide Text, ReadText, Written, Trim, Plain, LfFree, Merge, UniqueKeys, NoBlankKeys;
    var w := Written(items);
    TextIs(items);
    ReadNoLf(Text(w));
    PlainIs(w);
    WrittenOk(items);
    if AllLfFree(w) {
      WrittenFits(items);
      TextReads([], w);
      TrimNothing(w);
      ReadIsUnique(w);
      if Trim(w) == w && UniqueKeys(w) {
        MergeAppends(w);
      }
    }
  }

  lemma PlainIs(w: Items)
    ensures AllPlain(w) <==> AllLfFree(w) && NoBlankKeys(w)
  {}

  /** What is read has unique keys, none of which begins with a blank. */
  lemma ReadIsUnique(w: Items)
    requires Well(w)
    ensures NoBlankKeys(Merge([], Trim(w))) && UniqueKeys(Merge([], Trim(w)))
  {
    MergeNoBlankKeys(Trim(w));
    MergeStaysUnique([], Trim(w));
  }

  // ----- With a byte order mark -----

  /** The first written key begins like a byte order mark. */
  predicate MarkInFront(w: Items) {
    w != [] && BOM <= w[0].key
  }

  lemma MarkOfText(w: Items)
    requires forall i :: 0 <= i < |w| ==> Writable(w[i])
    ensures BOM <= Text(w) <==> MarkInFront(w)
  {
    if w != [] {
      hide *;
      SplitText(w);
      LineAndRest(w[0], Text(w[1..]));
      MarkBeforeEquals(w[0].key, "=" + w[0].val + [CR, LF] + Text(w[1..]));
      MarkIs(w);
    }
  }

  lemma MarkIs(w: Items)
    requires w != []
    ensures MarkInFront(w) <==> BOM <= w[0].key
  {}

  lemma LineAndRest(p: Pair, rest: string)
    ensures Line(p) + rest == p.key + ("=" + p.val + [CR, LF] + rest)
    ensures |"=" + p.val + [CR, LF] + rest| > 0 && ("=" + p.val + [CR, LF] + rest)[0] == '='
  {}

  lemma MarkBeforeEquals(key: string, tail: string)
    requires tail != "" && tail[0] == '='
    ensures BOM <= key + tail <==> BOM <= key
  {
    var text := key + tail;
    if 3 <= |key| {
      assert text[..3] == key[..3];
    } else {
      assert text[|key|] == '=' != BOM[|key|];
    }
  }

  lemma SplitText(w: Items)
    requires w != [] && Writable(w[0])
    ensures Text(w) == Line(w[0]) + Text(w[1..])
  {
    assert w == [w[0]] + w[1..];
    TextConcat([w[0]], w[1..]);
    TextOne(w[0]);
  }

  /** A mark taken for a byte order mark is lost, and the first pair with it. */
  lemma MarkIsLost(w: Items)
    requires AllFit(w) && MarkInFront(w)
    ensures ReadFile([], Text(w)) != w
  {
    hide Text, ReadText, Merge, Set, Line;
    var p, rest := w[0], w[1..];
    var cut := Pair(p.key[3..], p.val);
    SplitText(w);
    CutLine(p);
    MarkOfText(w);
    assert Text(w)[3..] == Line(p)[3..] + Text(rest);
    CutFits(p);
    LineReads([], cut, Text(rest));
    if IsComment(Bare(cut)) {
      TextReads([], rest);
      MergeGains(Trim(rest));
    } else {
      TextReads(Set([], SkipBlanks(cut.key), cut.val), rest);
      var first := Pair(SkipBlanks(cut.key), cut.val);
      MergeOne([], first);
      MergeConcat([], [first], Trim(rest));
      MergeGains([first] + Trim(rest));
    }
  }

  lemma CutLine(p: Pair)
    requires |p.key| >= 3
    ensures |Line(p)| >= 3 && Line(p)[3..] == Line(Pair(p.key[3..], p.val))
  {
    assert Line(p) == p.key + ("=" + p.val + [CR, LF]);
  }

  lemma CutFits(p: Pair)
    requires Fits(p) && LfFree(p) && |p.key| >= 3
    ensures Fits(Pair(p.key[3..], p.val)) && LfFree(Pair(p.key[3..], p.val))
  {
    assert forall c :: c in p.key[3..] ==> c in p.key;
  }

  /** Through a file the set is read back under the same condition, and when its
      first written key does not begin like a byte order mark. */
  lemma RoundTripFileIff(items: Items)
    requires Well(items)
    ensures ReadFile([], Text(items)) == Written(items) <==>
            AllPlain(Written(items)) && UniqueKeys(Written(items)) && !MarkInFront(Written(items))
  {
    hide Text, ReadText, Plain, LfFree, UniqueKeys, Written;
    var w := Written(items);
    TextIs(items);
    MarkOfText(w);
    RoundTripIff(items);
    if MarkInFront(w) {
      ReadNoLf(Text(w)[|BOM|..]);
      if AllLfFree(w) {
        WrittenFits(items);
        MarkIsLost(w);
      }
    }
  }

  // ----- The modified flag -----

  predicate Marks(items: Items, op: Op) {
    match op
    case DoSet(key, val) => SetMarks(items, key, val)
    case DoRemove(key) => RemoveMarks(items, key)
    case DoMerge(source) => MergeMarks(items, source)
    case DoClear => true
  }

  lemma {:induction false} TextUpdate(items: Items, i: nat, p: Pair)
    requires i < |items| && (items[i] == p || (!Writable(items[i]) && !Writable(p)))
    ensures Text(items[i := p]) == Text(items)
  {
    var n := |items| - 1;
    if i < n {
      TextUpdate(items[..n], i, p);
      assert items[i := p][..n] == items[..n][i := p];
    } else {
      assert items[i := p][..n] == items[..n];
    }
  }

  lemma SetKeepsText(items: Items, key: string, val: string)
    requires Well(items) && !SetMarks(items, key, val)
    ensures Text(Set(items, key, val)) == Text(items)
  {
    var i := IndexOf(items, key);
    if ValidKey(key) {
      if i == |items| {
        assert Set(items, key, val)[..|items|] == items;
      } else if !SameWithin(items[i].val, val, VALUE_LEN) {
        TextUpdate(items, i, Pair(items[i].key, First(val, VALUE_LEN - 1)));
      }
    }
  }

  lemma AppendText(items: Items, p: Pair)
    ensures Text(items + [p]) == Text(items) + if Writable(p) then Line(p) else ""
  {
    assert (items + [p])[..|items|] == items;
  }

  lemma {:induction false} OthersKeepText(items: Items, key: string)
    requires Well(items) && ValidKey(key)
    requires key[0] == '#' || IndexOf(items, key) == |items|
    ensures Text(Others(items, key)) == Text(items)
  {
    hide Named, Text, First;
    if items != [] {
      var n := |items| - 1;
      var others := Others(items[..n], key);
      OthersKeepText(items[..n], key);
      NamedIsKey(items[n], key);
      AppendText(items[..n], items[n]);
      AppendText(others, items[n]);
      assert items == items[..n] + [items[n]];
      assert others + [] == others;
    }
  }

  lemma {:induction false} MergeKeepsText(items: Items, source: Items)
    requires Well(items) && !MergeMarks(items, source)
    ensures Text(Merge(items, source)) == Text(items)
  {
    if source != [] {
      var n := |source| - 1;
      MergeKeepsText(items, source[..n]);
      MergeKeepsWell(items, source[..n]);
      SetKeepsText(Merge(items, source[..n]), source[n].key, source[n].val);
    }
  }

  ghost predicate Unmarked(items: Items, ops: seq<Op>) {
    forall i :: 0 <= i < |ops| ==> !Marks(Run(items, ops[..i]), ops[i])
  }

  /** While no operation marks the set as modified its text stays the same, so the
      file that configWrite does not write again is up to date. */
  lemma {:induction false} UnmarkedKeepsText(items: Items, ops: seq<Op>)
    requires Well(items) && Unmarked(items, ops)
    ensures Well(Run(items, ops)) && Text(Run(items, ops)) == Text(items)
  {
    hide Text, Marks, Set, Merge;
    if ops != [] {
      var n, op := |ops| - 1, ops[|ops| - 1];
      forall i | 0 <= i < n ensures !Marks(Run(items, ops[..n][..i]), ops[..n][i]) {
        assert ops[..n][..i] == ops[..i];
      }
      UnmarkedKeepsText(items, ops[..n]);
      OneKeepsText(Run(items, ops[..n]), op);
    }
  }

  lemma OneKeepsText(items: Items, op: Op)
    requires Well(items) && !Marks(items, op)
    ensures Well(Apply(items, op)) && Text(Apply(items, op)) == Text(items)
  {
    hide Text, Set, Merge, SetMarks, MergeMarks;
    match op {
      case DoSet(key, val) =>
        SetKeepsWell(items, key, val);
        SetKeepsText(items, key, val);
      case DoRemove(key) =>
        OthersKeepWell(items, key);
        if ValidKey(key) { OthersKeepText(items, key); }
      case DoMerge(source) =>
        MergeKeepsWell(items, source);
        MergeKeepsText(items, source);
      case DoClear =>
    }
  }
}
