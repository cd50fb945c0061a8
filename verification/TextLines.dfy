/** The lines of a text as the file buffer (src/util.c) delivers them. */
module TextLines {
  const CR := '\r'
  const LF := '\n'

  /** strchr: the first index of a character; |s| when there is none. */
  function Find(s: string, c: char): (i: nat)
    ensures i <= |s| && (i < |s| ==> s[i] == c) && c !in s[..i]
  {
    if s == "" || s[0] == c then 0 else 1 + Find(s[1..], c)
  }

  /** A line without the one CR that may end it. */
  function Chomp(line: string): string {
    if line != "" && line[|line| - 1] == CR then line[..|line| - 1] else line
  }

  predicate IsComment(line: string) {
    line != "" && line[0] == '#'
  }

  /** The lines readFileBuffer delivers. */
  function Lines(text: string): seq<string>
    decreases |text|
  {
    if text == "" then []
    else
      var e := Find(text, LF);
      var line := Chomp(text[..e]);
      (if IsComment(line) then [] else [line]) + if e < |text| then Lines(text[e + 1..]) else []
  }

  lemma {:induction false} FindAppend(s: string, t: string, c: char)
    requires c !in s
    ensures Find(s + t, c) == |s| + Find(t, c)
  {
    if s == "" {
      assert s + t == t;
    } else {
      assert (s + t)[1..] == s[1..] + t;
      FindAppend(s[1..], t, c);
    }
  }

  lemma FindIs(s: string, c: char, i: nat)
    requires i < |s| && s[i] == c && c !in s[..i]
    ensures Find(s, c) == i
  {
    FindAppend(s[..i], s[i..], c);
    assert s == s[..i] + s[i..];
  }

  lemma LinesOfOne(line: string, rest: string)
    requires LF !in line
    ensures Lines(line + [CR, LF] + rest) == (if IsComment(line) then [] else [line]) + Lines(rest)
  {
    var text, head := line + [CR, LF] + rest, line + [CR];
    assert text == head + ([LF] + rest);
    FindAppend(head, [LF] + rest, LF);
    assert text[..|head|] == head && text[|head| + 1..] == rest;
    assert Chomp(head) == line;
  }

  // ----- Through a window -----

  /** Where the next piece ends: at the first LF or the end of the text, as far as
      a window of `n` characters shows it. */
  function PieceEnd(text: string, n: nat): (e: nat)
    ensures e <= |text|
  {
    if Find(text, LF) < n || |text| <= n then Find(text, LF) else n
  }

  /** The window shows the LF that ends the piece. */
  predicate Ended(text: string, n: nat) {
    Find(text, LF) < |text| && Find(text, LF) < n
  }

  function Piece(text: string, n: nat): string {
    Chomp(text[..PieceEnd(text, n)])
  }

  function RestOf(text: string, n: nat): (rest: string)
    requires text != "" && n > 0
    ensures |rest| < |text|
  {
    text[PieceEnd(text, n) + if Ended(text, n) then 1 else 0..]
  }

  /** What readFileBuffer answers: no more lines, a line, or nothing defined,
      because it moves bytes from a null pointer. */
  datatype Next = NoMore | Delivered(line: string) | Lost

  /** The next answer and the text behind it. Comments are skipped; behind a
      comment without its LF lies the null pointer. */
  function NextPiece(text: string, n: nat): (Next, string)
    requires n > 0
    decreases |text|
  {
    if text == "" then (NoMore, "")
    else if !IsComment(Piece(text, n)) then (Delivered(Piece(text, n)), RestOf(text, n))
    else if Ended(text, n) then NextPiece(RestOf(text, n), n)
    else (Lost, RestOf(text, n))
  }

  /** Every comment is shown with its LF. */
  predicate Clean(text: string, n: nat)
    requires n > 0
    decreases |text|
  {
    text == "" || ((IsComment(Piece(text, n)) ==> Ended(text, n)) && Clean(RestOf(text, n), n))
  }

  /** The lines a window of `n` characters makes of a text. */
  function Pieces(text: string, n: nat): seq<string>
    requires n > 0
    decreases |text|
  {
    if text == "" then []
    else (if IsComment(Piece(text, n)) then [] else [Piece(text, n)]) + Pieces(RestOf(text, n), n)
  }

  /** Asking for the next line until there is none yields the lines of a clean
      text, and of any other ends on the null pointer. */
  lemma {:induction false} NextPieceIsFirst(text: string, n: nat)
    requires n > 0
    ensures
      match NextPiece(text, n)
      case (NoMore, _) => Clean(text, n) && Pieces(text, n) == []
      case (Lost, _) => !Clean(text, n)
      case (Delivered(line), rest) =>
        && |rest| < |text| && (Clean(text, n) <==> Clean(rest, n))
        && Pieces(text, n) == [line] + Pieces(rest, n)
    decreases |text|
  {
    if text != "" && IsComment(Piece(text, n)) && Ended(text, n) {
      NextPieceIsFirst(RestOf(text, n), n);
      assert [] + Pieces(RestOf(text, n), n) == Pieces(RestOf(text, n), n);
    }
  }

  /** A text of one comment without its LF ends on the null pointer, whatever the window. */
  lemma UnendedCommentIsLost(n: nat)
    requires n > 0
    ensures NextPiece("#x", n).0 == Lost && !Clean("#x", n) && !CleanEnd("#x")
  {
    FindAppend("#x", "", LF);
    assert "#x" + "" == "#x";
    assert "#x"[..2] == "#x";
  }

  // ----- Texts whose lines fit the window -----

  /** The text behind the first line. */
  function Behind(text: string): string
    requires text != ""
  {
    var e := Find(text, LF);
    if e < |text| then text[e + 1..] else ""
  }

  /** The last line, when no LF ends it, is not a comment. */
  predicate CleanEnd(text: string)
    decreases |text|
  {
    text == "" || (if Find(text, LF) == |text| then !IsComment(text) else CleanEnd(Behind(text)))
  }

  /** Every line with its LF, and the last one without, has at most `n` characters. */
  predicate LinesFit(text: string, n: nat)
    decreases |text|
  {
    text == "" || (|text| - |Behind(text)| <= n && LinesFit(Behind(text), n))
  }

  /** Lines that fit the window come out whole, and then only a comment at the very
      end can lack its LF. */
  lemma {:induction false} PiecesAreLines(text: string, n: nat)
    requires n > 0 && LinesFit(text, n)
    ensures Pieces(text, n) == Lines(text)
    ensures Clean(text, n) <==> CleanEnd(text)
    decreases |text|
  {
    if text != "" {
      PieceIsLine(text, n);
      PiecesAreLines(Behind(text), n);
    }
  }

  lemma PieceIsLine(text: string, n: nat)
    requires text != "" && n > 0 && |text| - |Behind(text)| <= n
    ensures Piece(text, n) == Chomp(text[..Find(text, LF)]) && RestOf(text, n) == Behind(text)
    ensures Ended(text, n) <==> Find(text, LF) < |text|
    ensures !Ended(text, n) ==> (IsComment(Piece(text, n)) <==> IsComment(text))
  {
    assert text[..|text|] == text;
  }

  predicate Terminated(text: string) {
    text == "" || text[|text| - 1] == LF
  }

  lemma {:induction false} LineEnds(text: string)
    requires Terminated(text) && text != ""
    ensures Find(text, LF) < |text|
  {
    if text[0] != LF {
      LineEnds(text[1..]);
    }
  }

  /** Only an unterminated last line can be an unterminated comment. */
  lemma {:induction false} TerminatedIsClean(text: string)
    requires Terminated(text)
    ensures CleanEnd(text)
    decreases |text|
  {
    if text != "" {
      LineEnds(text);
      TerminatedIsClean(Behind(text));
    }
  }

  lemma {:induction false} ShortFits(text: string, n: nat)
    requires |text| <= n
    ensures LinesFit(text, n)
    decreases |text|
  {
    if text != "" {
      ShortFits(Behind(text), n);
    }
  }

  lemma {:induction false} FitsConcat(a: string, b: string, n: nat)
    requires Terminated(a) && LinesFit(a, n) && LinesFit(b, n)
    ensures LinesFit(a + b, n)
    decreases |a|
  {
    if a == "" {
      assert a + b == b;
    } else {
      hide LinesFit, Behind;
      FitsUnfolds(a, n);
      FitsUnfolds(a + b, n);
      BehindConcat(a, b);
      FitsConcat(Behind(a), b, n);
    }
  }

  lemma BehindConcat(a: string, b: string)
    requires Terminated(a) && a != ""
    ensures Behind(a + b) == Behind(a) + b && Terminated(Behind(a)) && |Behind(a)| < |a|
  {
    var e := Find(a, LF);
    LineEnds(a);
    assert (a + b)[..e] == a[..e];
    FindIs(a + b, LF, e);
    assert (a + b)[e + 1..] == a[e + 1..] + b;
  }

  lemma FitsUnfolds(text: string, n: nat)
    ensures LinesFit(text, n) <==> text == "" || (|text| - |Behind(text)| <= n && LinesFit(Behind(text), n))
  {}
}
