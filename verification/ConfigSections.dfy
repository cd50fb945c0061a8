/** Reading configuration files with sections (src/config.c), the form of the theme
    files: what a text of sections and plain lines sets. */
module ConfigSections {
  import opened CStrings
  import opened Config
  import opened TextLines
  import opened ConfigText

  /** A section line and the indented pairs below it, or a plain pair and the
      indented pairs below it. */
  datatype Part = Section(name: string, pairs: Items) | Top(head: Pair, pairs: Items)

  /** How a file is laid out: the blanks before a pair and the end of a line. */
  datatype Layout = Layout(indent: string, eol: string)

  predicate LayoutOk(f: Layout) {
    && f.indent != "" && (forall i :: 0 <= i < |f.indent| ==> IsBlank(f.indent[i]))
    && (f.eol == [LF] || f.eol == [CR, LF])
  }

  function IndentedText(f: Layout, pairs: Items): string {
    if pairs == [] then "" else f.indent + Bare(pairs[0]) + f.eol + IndentedText(f, pairs[1..])
  }

  function PartText(f: Layout, part: Part): string {
    (if part.Section? then part.name + ":" else Bare(part.head)) + f.eol + IndentedText(f, part.pairs)
  }

  function DocText(f: Layout, doc: seq<Part>): string {
    if doc == [] then "" else PartText(f, doc[0]) + DocText(f, doc[1..])
  }

  /** The key a pair of a section is stored under. */
  function Composed(name: string, key: string): string {
    First(name + "_" + key, KEY_LEN - 1)
  }

  function InSection(name: string, pairs: Items): Items {
    if pairs == [] then [] else [Pair(Composed(name, pairs[0].key), pairs[0].val)] + InSection(name, pairs[1..])
  }

  function PartPairs(part: Part): Items {
    if part.Section? then InSection(part.name, part.pairs) else [part.head] + part.pairs
  }

  function DocPairs(doc: seq<Part>): Items {
    if doc == [] then [] else PartPairs(doc[0]) + DocPairs(doc[1..])
  }

  /** A pair that one line can hold. */
  predicate PairFits(p: Pair) {
    && Fits(p) && LfFree(p) && (p.key == "" || !IsBlank(p.key[0]))
    && (p.val == "" || p.val[|p.val| - 1] != CR)
  }

  ghost predicate PartOk(part: Part) {
    && (forall i :: 0 <= i < |part.pairs| ==> PairFits(part.pairs[i]))
    && (if part.Section? then
          part.name != "" && part.name[0] != '#' && '=' !in part.name && ':' !in part.name && LF !in part.name
        else PairFits(part.head) && Writable(part.head))
  }

  // ----- One line -----

  /** A line comes back without its end, LF or CR LF. */
  lemma LineThenRest(line: string, eol: string, rest: string)
    requires LF !in line && (eol == [CR, LF] || (eol == [LF] && (line == "" || line[|line| - 1] != CR)))
    ensures Lines(line + eol + rest) == (if IsComment(line) then [] else [line]) + Lines(rest)
  {
    if eol == [CR, LF] {
      LinesOfOne(line, rest);
    } else {
      var text := line + [LF] + rest;
      assert text[..|line|] == line && text[|line|] == LF && text[|line| + 1..] == rest;
      FindIs(text, LF, |line|);
    }
  }

  lemma OneLine(r: Reader, line: string, eol: string, rest: string)
    requires LF !in line && !IsComment(line)
    requires eol == [CR, LF] || (eol == [LF] && (line == "" || line[|line| - 1] != CR))
    ensures ReadLines(r, Lines(line + eol + rest)) == ReadLines(ReadLine(r, line), Lines(rest))
  {
    hide ReadLine, Lines;
    LineThenRest(line, eol, rest);
    ReadLinesConcat(r, [line], Lines(rest));
    assert [line][..0] == [];
  }

  lemma {:induction false} SkipIndent(indent: string, rest: string)
    requires forall i :: 0 <= i < |indent| ==> IsBlank(indent[i])
    ensures SkipBlanks(indent + rest) == SkipBlanks(rest)
  {
    if indent == "" {
      assert indent + rest == rest;
    } else {
      assert (indent + rest)[1..] == indent[1..] + rest;
      SkipIndent(indent[1..], rest);
    }
  }

  lemma NotBlankFirst(key: string, val: string)
    requires key == "" || !IsBlank(key[0])
    ensures SkipBlanks(key + ("=" + val)) == key + ("=" + val)
  {
    assert (key + ("=" + val))[0] == if key == "" then '=' else key[0];
  }

  /** An indented pair goes to the section in force, under the composed key, or
      stands for itself when there is none. */
  lemma IndentedReads(r: Reader, f: Layout, p: Pair)
    requires LayoutOk(f) && PairFits(p)
    ensures ReadLine(r, f.indent + Bare(p)) ==
            Reader(Set(r.items, if r.prefix == "" then p.key else Composed(r.prefix, p.key), p.val), r.prefix)
  {
    hide SkipBlanks, Find, Set, First, Bare, IsBlank;
    IndentIsSkipped(f, p);
    BlankComesFirst(f, p);
    KeyAndValue(p.key, p.val);
    WholeField(p.key, KEY_LEN);
    WholeField(p.val, VALUE_LEN);
  }

  lemma IndentIsSkipped(f: Layout, p: Pair)
    requires LayoutOk(f) && PairFits(p)
    ensures SkipBlanks(f.indent + Bare(p)) == p.key + ("=" + p.val)
  {
    hide SkipBlanks, Fits, LfFree, Bare, IsBlank;
    BareIs(p);
    SkipIndent(f.indent, Bare(p));
    NotBlankFirst(p.key, p.val);
  }

  lemma BlankComesFirst(f: Layout, p: Pair)
    requires LayoutOk(f)
    ensures f.indent + Bare(p) != "" && IsBlank((f.indent + Bare(p))[0])
  {
    hide IsBlank;
    assert (f.indent + Bare(p))[0] == f.indent[0];
  }

  lemma BareIs(p: Pair)
    ensures Bare(p) == p.key + ("=" + p.val)
  {}

  lemma KeyAndValue(key: string, val: string)
    requires '=' !in key
    ensures
      var l := key + ("=" + val);
      Find(l, '=') == |key| < |l| && l[..|key|] == key && l[|key| + 1..] == val
  {
    hide Find;
    FindAppend(key, "=" + val, '=');
    FindFirst(val);
    SplitAssignment(key, val);
  }

  /** A pair without a leading blank ends the section in force. */
  lemma PlainEndsSection(r: Reader, p: Pair)
    requires PairFits(p) && Writable(p)
    ensures ReadLine(r, Bare(p)) == Reader(Set(r.items, p.key, p.val), "")
  {
    hide SkipBlanks, Find, Set, First;
    BareIs(p);
    NotBlankFirst(p.key, p.val);
    KeyAndValue(p.key, p.val);
    WholeField(p.key, KEY_LEN);
    WholeField(p.val, VALUE_LEN);
    assert Bare(p)[0] == p.key[0];
  }

  lemma {:induction false} NotFound(s: string, c: char)
    requires c !in s
    ensures Find(s, c) == |s|
  {
    if s != "" {
      NotFound(s[1..], c);
    }
  }

  /** A line without an equals sign puts the section in force whose name stands
      before its first colon, whatever follows. */
  lemma SectionLineReads(r: Reader, name: string, rest: string)
    requires name != "" && '=' !in name && ':' !in name && '=' !in rest
    ensures ReadLine(r, name + ":" + rest) == r.(prefix := name)
  {
    hide *;
    ColonSplits(name, rest);
    NoAssignment(r, name + ":" + rest);
  }

  lemma ColonSplits(name: string, rest: string)
    requires name != "" && '=' !in name && ':' !in name && '=' !in rest
    ensures
      var line := name + ":" + rest;
      '=' !in line && Find(line, ':') == |name| < |line| && line[..|name|] == name
  {
    hide Find;
    var line := name + ":" + rest;
    assert line[..|name|] == name && line[|name|] == ':';
    FindIs(line, ':', |name|);
  }

  lemma NoAssignment(r: Reader, line: string)
    requires '=' !in line
    ensures
      var c := Find(line, ':');
      ReadLine(r, line) == if 0 < c < |line| then r.(prefix := line[..c]) else r
  {
    hide Find, Set, First;
    assert '=' !in SkipBlanks(line);
    NotFound(SkipBlanks(line), '=');
  }

  /** Without a colon, or with nothing before it, it changes nothing. */
  lemma OtherLinesAreIgnored(r: Reader, line: string)
    requires '=' !in line && (':' !in line || line[0] == ':')
    ensures ReadLine(r, line) == r
  {
    hide Find, ReadLine;
    NoAssignment(r, line);
    if ':' !in line {
      NotFound(line, ':');
    } else {
      FindIs(line, ':', 0);
    }
  }

  // ----- A whole text -----

  lemma MergeFirst(items: Items, p: Pair, rest: Items)
    ensures Merge(items, [p] + rest) == Merge(Set(items, p.key, p.val), rest)
  {
    MergeConcat(items, [p], rest);
    MergeOne(items, p);
  }

  lemma IndentedLine(f: Layout, p: Pair)
    requires LayoutOk(f) && PairFits(p)
    ensures LF !in f.indent + Bare(p) && !IsComment(f.indent + Bare(p))
    ensures (f.indent + Bare(p))[|f.indent + Bare(p)| - 1] != CR
  {
    assert (f.indent + Bare(p))[0] == f.indent[0];
  }

  lemma {:induction false} IndentedPairsRead(r: Reader, f: Layout, pairs: Items, rest: string)
    requires LayoutOk(f) && forall i :: 0 <= i < |pairs| ==> PairFits(pairs[i])
    ensures ReadLines(r, Lines(IndentedText(f, pairs) + rest)) ==
            ReadLines(Reader(Merge(r.items, if r.prefix == "" then pairs else InSection(r.prefix, pairs)), r.prefix),
                      Lines(rest))
    decreases |pairs|
  {
    hide ReadLine, ReadLines, Lines, Set, Composed, PairFits, Bare, Merge, IsComment;
    if pairs == [] {
      assert IndentedText(f, pairs) + rest == rest;
      MergeNothing(r.items);
    } else {
      var p, line := pairs[0], f.indent + Bare(pairs[0]);
      var more := IndentedText(f, pairs[1..]) + rest;
      assert IndentedText(f, pairs) + rest == line + f.eol + more;
      IndentedLine(f, p);
      OneLine(r, line, f.eol, more);
      IndentedReads(r, f, p);
      var q := Pair(if r.prefix == "" then p.key else Composed(r.prefix, p.key), p.val);
      IndentedPairsRead(ReadLine(r, line), f, pairs[1..], rest);
      var tail := if r.prefix == "" then pairs[1..] else InSection(r.prefix, pairs[1..]);
      MergeFirst(r.items, q, tail);
      assert pairs == [p] + pairs[1..];
    }
  }

  lemma MergeNothing(items: Items)
    ensures Merge(items, []) == items
  {}

  lemma HeadLine(part: Part)
    requires PartOk(part)
    ensures
      var line := if part.Section? then part.name + ":" else Bare(part.head);
      LF !in line && !IsComment(line) && line != "" && line[|line| - 1] != CR
  {
    var line := if part.Section? then part.name + ":" else Bare(part.head);
    assert line[0] == if part.Section? then part.name[0] else part.head.key[0];
  }

  /** One part sets its pairs, whatever section was in force before it. */
  lemma PartReads(r: Reader, f: Layout, part: Part, rest: string)
    requires LayoutOk(f) && PartOk(part)
    ensures ReadLines(r, Lines(PartText(f, part) + rest)) ==
            ReadLines(Reader(Merge(r.items, PartPairs(part)), if part.Section? then part.name else ""), Lines(rest))
  {
    hide ReadLine, ReadLines, Lines, Set, Composed, PairFits, Bare, Merge, IsComment, IndentedText;
    var line := if part.Section? then part.name + ":" else Bare(part.head);
    var more := IndentedText(f, part.pairs) + rest;
    assert PartText(f, part) + rest == line + f.eol + more;
    HeadLine(part);
    OneLine(r, line, f.eol, more);
    IndentedPairsRead(ReadLine(r, line), f, part.pairs, rest);
    if part.Section? {
      SectionLineReads(r, part.name, "");
      assert part.name + ":" + "" == part.name + ":";
    } else {
      PlainEndsSection(r, part.head);
      MergeFirst(r.items, part.head, part.pairs);
    }
  }

  lemma {:induction false} DocReadsFrom(r: Reader, f: Layout, doc: seq<Part>)
    requires LayoutOk(f) && forall i :: 0 <= i < |doc| ==> PartOk(doc[i])
    ensures ReadLines(r, Lines(DocText(f, doc))).items == Merge(r.items, DocPairs(doc))
    decreases |doc|
  {
    hide ReadLine, PartText, PartPairs, PartOk, Merge;
    if doc == [] {
      MergeNothing(r.items);
    } else {
      var part := doc[0];
      PartReads(r, f, part, DocText(f, doc[1..]));
      DocReadsFrom(Reader(Merge(r.items, PartPairs(part)), if part.Section? then part.name else ""), f, doc[1..]);
      MergeConcat(r.items, PartPairs(part), DocPairs(doc[1..]));
    }
  }

  /** Reading a text of sections and plain lines sets every pair of a section under
      the name of the section, an underscore and its key, cut to 31 characters, and
      every other pair under its own key, in the order of the text. */
  lemma DocReads(items: Items, f: Layout, doc: seq<Part>)
    requires LayoutOk(f) && forall i :: 0 <= i < |doc| ==> PartOk(doc[i])
    ensures ReadText(items, DocText(f, doc)) == Merge(items, DocPairs(doc))
  {
    DocReadsFrom(Reader(items, ""), f, doc);
  }

  const THEME := [Section("main0", [Pair("type", "Background")])]

  lemma ThemeText()
    ensures DocText(Layout("\t", "\n"), THEME) == "main0:\n\ttype=Background\n"
  {
    hide Bare, PartText, IndentedText;
    var f, p := Layout("\t", "\n"), Pair("type", "Background");
    ThemePart();
    assert THEME[1..] == [] && DocText(f, []) == "";
  }

  lemma ThemePart()
    ensures PartText(Layout("\t", "\n"), THEME[0]) == "main0:\n\ttype=Background\n"
  {
    hide Bare, IndentedText;
    var f, p := Layout("\t", "\n"), Pair("type", "Background");
    BareIs(p);
    OneIndented(f, p);
    ThemeLiteral();
  }

  lemma OneIndented(f: Layout, p: Pair)
    ensures IndentedText(f, [p]) == f.indent + Bare(p) + f.eol
  {
    hide Bare;
    assert [p][1..] == [] && IndentedText(f, []) == "";
  }

  lemma ThemeLiteral()
    ensures "main0" + ":" + "\n" + ("\t" + ("type" + ("=" + "Background")) + "\n") == "main0:\n\ttype=Background\n"
  {}

  lemma ThemePairs()
    ensures DocPairs(THEME) == [Pair("main0_type", "Background")]
  {
    var p := Pair("type", "Background");
    assert Composed("main0", "type") == "main0_type";
    assert InSection("main0", []) == [] && InSection("main0", [p]) == [Pair("main0_type", "Background")];
    assert DocPairs([]) == [] && THEME[1..] == [];
  }

  lemma ThemeOk()
    ensures LayoutOk(Layout("\t", "\n")) && forall i :: 0 <= i < |THEME| ==> PartOk(THEME[i])
  {
    var f, p := Layout("\t", "\n"), Pair("type", "Background");
    assert f.eol == [LF] && PairFits(p);
  }

  lemma SetInEmpty()
    ensures Set([], "main0_type", "Background") == [Pair("main0_type", "Background")]
  {}

  /** The form of the theme files. */
  lemma ThemeReads()
    ensures ReadText([], "main0:\n\ttype=Background\n") == [Pair("main0_type", "Background")]
  {
    hide *;
    ThemeOk();
    ThemeText();
    ThemePairs();
    DocReads([], Layout("\t", "\n"), THEME);
    MergeOne([], Pair("main0_type", "Background"));
    SetInEmpty();
  }
}
