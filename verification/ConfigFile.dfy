/** Reading and writing a configuration set (src/config.c) through the file buffer. */
module ConfigFile {
  import opened Options
  import opened CStrings
  import opened TextLines
  import opened Config
  import opened ConfigText
  import opened ConfigStore
  import opened FileBuffer

  const FILE_BUFFER_SIZE := 4096

  // ----- Writing -----

  lemma TextStep(items: Items, i: nat)
    requires i < |items|
    ensures Text(items[..i + 1]) == Text(items[..i]) + if Writable(items[i]) then Line(items[i]) else ""
  {
    assert items[..i + 1][..i] == items[..i];
  }

  /** configWrite: None when the set is not modified and its file is left alone. */
  method WriteConfig(configSet: ConfigSet) returns (file: Option<string>)
    requires configSet.Valid()
    modifies configSet`modified
    ensures file == if old(configSet.modified) then Some(Text(configSet.Pairs())) else None
    ensures !configSet.modified
  {
    hide Linked, ItemsOf, Text;
    if !configSet.modified {
      return None;
    }
    var fileBuffer := new WriteBuffer(FILE_BUFFER_SIZE);
    ghost var items, i := configSet.Pairs(), 0;
    var cur := configSet.head;
    Links(configSet.head, configSet.tail, configSet.Nodes, 0);
    NoText();
    assert items[..0] == [];
    while cur != null
      invariant configSet.Valid() && configSet.Pairs() == items && fileBuffer.Valid() && configSet.modified
      invariant i <= |items| && cur == if i < |configSet.Nodes| then configSet.Nodes[i] else null
      invariant fileBuffer.Written() == Text(items[..i])
      decreases |items| - i
    {
      TextStep(items, i);
      Links(configSet.head, configSet.tail, configSet.Nodes, i);
      if cur.key != "" && cur.key[0] != '#' {
        fileBuffer.Write(cur.key + "=" + cur.val + [CR, LF]);
      }
      cur := cur.next;
      i := i + 1;
    }
    assert items[..i] == items;
    fileBuffer.Close();
    configSet.modified := false;
    file := Some(fileBuffer.file);
  }

  lemma NoText()
    ensures Text([]) == ""
  {}

  lemma {:induction false} TextFits(items: Items)
    requires Well(items)
    ensures Terminated(Text(items)) && LinesFit(Text(items), FILE_BUFFER_SIZE - 1)
  {
    hide CleanEnd, LinesFit, Line, Terminated, Text;
    TextUnfolds(items);
    if items == [] {
      ShortFits("", FILE_BUFFER_SIZE - 1);
    } else {
      var n, p := |items| - 1, items[|items| - 1];
      TextFits(items[..n]);
      LineShort(p);
      ShortFits(Line(p), FILE_BUFFER_SIZE - 1);
      FitsConcat(Text(items[..n]), Line(p), FILE_BUFFER_SIZE - 1);
      LineTerminates(Text(items[..n]), p);
    }
  }

  /** A mark has no LF, so behind it the lines still fit and end. */
  lemma PastMarkFits(text: string, n: nat)
    requires Terminated(text) && LinesFit(text, n)
    ensures Terminated(PastMark(text)) && LinesFit(PastMark(text), n)
  {
    if BOM <= text {
      assert text == BOM + text[|BOM|..];
      BehindMark(BOM, text[|BOM|..], n);
    }
  }

  lemma BehindMark(mark: string, rest: string, n: nat)
    requires LF !in mark && mark != "" && Terminated(mark + rest) && LinesFit(mark + rest, n)
    ensures Terminated(rest) && LinesFit(rest, n)
  {
    hide Find, LinesFit, Behind;
    assert forall i :: 0 <= i < |mark| ==> (mark + rest)[i] != LF;
    assert rest[|rest| - 1] == (mark + rest)[|mark + rest| - 1];
    SameBehind(mark, rest);
    FitsUnfolds(mark + rest, n);
    FitsUnfolds(rest, n);
  }

  lemma SameBehind(mark: string, rest: string)
    requires LF !in mark && rest != "" && Terminated(rest)
    ensures Behind(mark + rest) == Behind(rest)
  {
    hide Find;
    FindAppend(mark, rest, LF);
    LineEnds(rest);
    var e := Find(rest, LF);
    assert (mark + rest)[|mark| + e + 1..] == rest[e + 1..];
  }

  /** A written text comes back line by line through a window of 4096 characters. */
  lemma TextReadable(before: Items, items: Items)
    requires Well(items)
    ensures Clean(PastMark(Text(items)), FILE_BUFFER_SIZE - 1)
    ensures ReadWindowed(before, PastMark(Text(items)), FILE_BUFFER_SIZE - 1) == ReadFile(before, Text(items))
  {
    TextFits(items);
    PastMarkFits(Text(items), FILE_BUFFER_SIZE - 1);
    TerminatedIsClean(PastMark(Text(items)));
    PiecesAreLines(PastMark(Text(items)), FILE_BUFFER_SIZE - 1);
  }

  lemma TextUnfolds(items: Items)
    ensures Text(items) ==
            if items == [] then ""
            else if Writable(items[|items| - 1]) then Text(items[..|items| - 1]) + Line(items[|items| - 1])
            else Text(items[..|items| - 1])
    ensures Terminated("")
  {}

  lemma LineShort(p: Pair)
    requires PairOk(p)
    ensures |Line(p)| <= KEY_LEN + VALUE_LEN + 1
  {}

  lemma LineTerminates(text: string, p: Pair)
    ensures Terminated(text + Line(p))
  {}

  // ----- Reading -----

  method SkipWhitespace(line: string) returns (l: string)
    ensures l == SkipBlanks(line)
  {
    var start := 0;
    while start < |line| && IsBlank(line[start])
      invariant start <= |line| && SkipBlanks(line) == SkipBlanks(line[start..])
    {
      assert line[start..][1..] == line[start + 1..];
      start := start + 1;
    }
    l := line[start..];
  }

  /** splitAssignment: the key and value of a line that has an equals sign. */
  method SplitAssignment(line: string) returns (found: bool, key: string, val: string)
    ensures
      var l := SkipBlanks(line);
      var e := Find(l, '=');
      && found == (e < |l|)
      && (found ==> key == First(l[..e], KEY_LEN) && val == First(l[e + 1..], VALUE_LEN))
  {
    hide First, Find;
    var l := SkipWhitespace(line);
    var eqpos := Find(l, '=');
    found := eqpos < |l|;
    if found {
      key, val := First(l[..eqpos], KEY_LEN), First(l[eqpos + 1..], VALUE_LEN);
    } else {
      key, val := "", "";
    }
  }

  /** One line of configReadFileBuffer. */
  method ReadOne(configSet: ConfigSet, prefix: string, line: string) returns (prefix': string)
    requires configSet.Valid()
    modifies configSet, configSet.Nodes
    ensures configSet.Valid()
    ensures Reader(configSet.Pairs(), prefix') == ReadLine(Reader(old(configSet.Pairs()), prefix), line)
    ensures forall i :: 0 <= i < |configSet.Nodes| ==>
      configSet.Nodes[i] in old(configSet.Nodes) || fresh(configSet.Nodes[i])
  {
    hide Set, SetMarks, First, SkipBlanks, Find, Linked, ItemsOf;
    prefix' := prefix;
    var found, key, val := SplitAssignment(line);
    if found {
      LineNotEmpty(line);
      if !IsBlank(line[0]) {
        prefix' := "";
      }
      var ok;
      if prefix' != "" {
        ok := configSet.SetStr(First(prefix' + "_" + key, KEY_LEN - 1), val);
      } else {
        ok := configSet.SetStr(key, val);
      }
    } else {
      var colpos := Find(line, ':');
      if 0 < colpos < |line| {
        prefix' := line[..colpos];
      }
    }
  }

  lemma LineNotEmpty(line: string)
    ensures Find(SkipBlanks(line), '=') < |SkipBlanks(line)| ==> line != ""
  {}

  /** What reading the lines that a window of `n` characters makes of a text leaves. */
  function ReadWindowed(items: Items, text: string, n: nat): Items
    requires n > 0
  {
    ReadLines(Reader(items, ""), Pieces(text, n)).items
  }

  /** configReadFileBuffer; `lost` when the file buffer moves bytes from a null pointer. */
  method ReadFileBuffer(configSet: ConfigSet, fileBuffer: ReadBuffer) returns (lost: bool)
    requires configSet.Valid() && fileBuffer.Valid()
    modifies configSet, configSet.Nodes, fileBuffer, fileBuffer.buffer
    ensures configSet.Valid() && lost == !Clean(old(fileBuffer.Remaining()), fileBuffer.limit)
    ensures !lost ==> !configSet.modified
    ensures !lost ==>
      configSet.Pairs() == ReadWindowed(old(configSet.Pairs()), old(fileBuffer.Remaining()), fileBuffer.limit)
  {
    hide ReadLine, ReadLines, Linked, ItemsOf, Pieces, NextPiece, Clean, Find;
    ghost var n, text := fileBuffer.limit, fileBuffer.Remaining();
    ghost var r, rest := Reader(configSet.Pairs(), ""), text;
    var prefix := "";
    NextPieceIsFirst(rest, n);
    var next := fileBuffer.ReadLine();
    while next.Delivered?
      invariant configSet.Valid() && fileBuffer.Valid() && (next, fileBuffer.Remaining()) == NextPiece(rest, n)
      invariant forall i :: 0 <= i < |configSet.Nodes| ==>
        configSet.Nodes[i] in old(configSet.Nodes) || fresh(configSet.Nodes[i])
      invariant r == Reader(configSet.Pairs(), prefix)
      invariant ReadLines(r, Pieces(rest, n)).items == ReadWindowed(old(configSet.Pairs()), text, n)
      invariant Clean(rest, n) <==> Clean(text, n)
      decreases |rest|
    {
      NextPieceIsFirst(rest, n);
      rest := fileBuffer.Remaining();
      FirstOfLines(r, next.line, Pieces(rest, n));
      prefix := ReadOne(configSet, prefix, next.line);
      r := ReadLine(r, next.line);
      next := fileBuffer.ReadLine();
    }
    NextPieceIsFirst(rest, n);
    if next == Lost {
      return true;
    }
    NoLines(r);
    configSet.modified := false;
    lost := false;
  }

  lemma FirstOfLines(r: Reader, line: string, rest: seq<string>)
    ensures ReadLines(r, [line] + rest) == ReadLines(ReadLine(r, line), rest)
  {
    ReadLinesConcat(r, [line], rest);
    assert [line][..0] == [];
    assert ReadLines(r, [line]) == ReadLine(ReadLines(r, []), line);
  }

  lemma NoLines(r: Reader)
    ensures ReadLines(r, []) == r
  {}

  /** configReadBuffer: in memory every line fits, so only a comment at the very
      end without its LF is lost. */
  method ReadConfigBuffer(configSet: ConfigSet, text: string) returns (lost: bool)
    requires configSet.Valid()
    modifies configSet, configSet.Nodes
    ensures configSet.Valid() && lost == !CleanEnd(text)
    ensures !lost ==> !configSet.modified && configSet.Pairs() == ReadText(old(configSet.Pairs()), text)
  {
    hide Linked, ItemsOf, Clean, CleanEnd, LinesFit, Pieces, Lines;
    ShortFits(text, |text| + 1);
    PiecesAreLines(text, |text| + 1);
    var fileBuffer := new ReadBuffer.OverText(text);
    lost := ReadFileBuffer(configSet, fileBuffer);
  }

  /** configRead: without a file the set stays as it was. */
  method ReadConfig(configSet: ConfigSet, file: Option<string>) returns (ok: bool, lost: bool)
    requires configSet.Valid()
    modifies configSet, configSet.Nodes
    ensures configSet.Valid() && ok == file.Some?
    ensures lost <==> file.Some? && !Clean(PastMark(file.value), FILE_BUFFER_SIZE - 1)
    ensures !lost ==> !configSet.modified
    ensures ok && !lost ==>
      configSet.Pairs() == ReadWindowed(old(configSet.Pairs()), PastMark(file.value), FILE_BUFFER_SIZE - 1)
    ensures !ok ==> configSet.Pairs() == old(configSet.Pairs())
  {
    hide Linked, ItemsOf, Clean, ReadWindowed, PastMark;
    if file == None {
      configSet.modified := false;
      return false, false;
    }
    var fileBuffer := new ReadBuffer.OverFile(PastMark(file.value), FILE_BUFFER_SIZE);
    lost := ReadFileBuffer(configSet, fileBuffer);
    ok := true;
  }
}
