/** The file buffer (src/util.c): lines out of a fixed window over a file, and
    small writes gathered into large ones. No text here holds a NUL. */
module FileBuffer {
  import opened Options
  import opened TextLines

  class ReadBuffer {
    const size: nat
    const buffer: array<char>
    var available: nat
    /** -1 for the null pointer. */
    var lastPtr: int
    /** The file descriptor is open, and what it has not delivered yet. */
    var open: bool
    var unread: string
    /** How many characters of a line the window can show. */
    ghost const limit: nat

    ghost predicate Valid()
      reads this, buffer
    {
      && size <= buffer.Length && available < buffer.Length && available <= limit && limit > 0
      && -1 <= lastPtr <= available
      && (open ==> limit == size - 1)
      && (!open ==> unread == "")
    }

    /** What has not been delivered as a line yet. */
    ghost function Remaining(): string
      requires Valid()
      reads this, buffer
    {
      (if lastPtr >= 0 then buffer[lastPtr..available] else "") + unread
    }

    /** openFileBuffer for reading, behind the byte order mark if there is one. */
    constructor OverFile(file: string, size: nat)
      requires size > 1
      ensures Valid() && Remaining() == file && fresh(buffer) && limit == size - 1
    {
      this.size, limit := size, size - 1;
      buffer := new char[size];
      available, lastPtr := 0, -1;
      open, unread := true, file;
    }

    /** openFileBufferBuffer. */
    constructor OverText(text: string)
      ensures Valid() && Remaining() == text && fresh(buffer) && limit == |text| + 1
    {
      size, limit := |text|, |text| + 1;
      buffer := new char[|text| + 1](i requires 0 <= i <= |text| => if i < |text| then text[i] else '\0');
      available, lastPtr := |text|, 0;
      open, unread := false, "";
      new;
      assert buffer[..|text|] == text;
    }

    /** memmove of the `n` characters at lastPtr to the front. */
    method Shift(n: nat)
      requires Valid() && lastPtr >= 0 && n == available - lastPtr
      modifies buffer
      ensures buffer[..n] == old(buffer[lastPtr..available])
    {
      for i := 0 to n
        invariant forall k :: 0 <= k < buffer.Length ==>
          buffer[k] == if k < i then old(buffer[lastPtr + k]) else old(buffer[k])
      {
        buffer[i] := buffer[lastPtr + i];
      }
    }

    /** read: delivers as much as asked for, or what is left of the file. */
    method ReadInto(at: nat, length: nat) returns (readSize: nat)
      requires at + length <= buffer.Length
      modifies buffer, this`unread
      ensures readSize == if length <= |old(unread)| then length else |old(unread)|
      ensures buffer[..at] == old(buffer[..at])
      ensures buffer[at..at + readSize] + unread == old(unread)
    {
      var data := unread;
      readSize := if length <= |data| then length else |data|;
      for i := 0 to readSize
        invariant forall k :: 0 <= k < buffer.Length ==>
          buffer[k] == if at <= k < at + i then data[k - at] else old(buffer[k])
      {
        buffer[at + i] := data[i];
      }
      assert buffer[at..at + readSize] == data[..readSize];
      unread := data[readSize..];
    }

    /** What is left in the window moves to its front. */
    method Compact() returns (lineSize: nat, ghost line: string)
      requires Valid()
      modifies buffer
      ensures line == if lastPtr >= 0 then old(buffer[lastPtr..available]) else ""
      ensures lineSize == |line| <= available && buffer[..lineSize] == line
    {
      line := if lastPtr >= 0 then buffer[lastPtr..available] else "";
      lineSize := 0;
      if lastPtr >= 0 {
        lineSize := available - lastPtr;
        Shift(lineSize);
      }
    }

    /** Fills the rest of the window; at the end of the file the descriptor is closed. */
    method Fill(lineSize: nat, ghost line: string) returns (posLF: nat, filled: nat)
      requires open && lineSize < size <= buffer.Length
      requires buffer[..lineSize] == line && LF !in line
      modifies this`open, this`unread, buffer
      ensures filled < size && buffer[..filled] + unread == line + old(unread)
      ensures posLF == Find(buffer[..filled], LF)
      ensures if open then filled == size - 1 else unread == ""
    {
      hide Find;
      var readSize := ReadInto(lineSize, size - lineSize - 1);
      ghost var more := buffer[lineSize..lineSize + readSize];
      posLF := lineSize + Find(buffer[lineSize..lineSize + readSize], LF);
      filled := lineSize + readSize;
      FindAppend(line, more, LF);
      assert buffer[..filled] == line + more;
      assert line + (more + unread) == line + more + unread;
      if size != filled + 1 {
        open := false;
      }
    }

    /** Moves what is left to the front and completes the window. */
    method Refill() returns (posLF: nat)
      requires Valid() && (lastPtr >= 0 ==> LF !in buffer[lastPtr..available])
      modifies this`available, this`lastPtr, this`open, this`unread, buffer
      ensures Valid() && lastPtr == 0 && Remaining() == old(Remaining())
      ensures Remaining() == buffer[..available] + unread && posLF == Find(buffer[..available], LF)
      ensures open ==> available == limit
    {
      hide Find;
      var lineSize, line := Compact();
      posLF := lineSize;
      if open {
        posLF, lineSize := Fill(lineSize, line);
      } else {
        NoneFound(line);
      }
      lastPtr := 0;
      available := lineSize;
    }

    /** Ends the line in the window with a NUL. */
    method Terminate(lineSize: nat, ghost from: nat) returns (text: string, comment: bool)
      requires 0 <= lastPtr && lastPtr + lineSize <= available < buffer.Length
      requires lastPtr + lineSize < from
      modifies buffer
      ensures text == old(buffer[lastPtr..lastPtr + lineSize]) && comment == IsComment(text)
      ensures from <= available ==> buffer[from..available] == old(buffer[from..available])
    {
      buffer[lastPtr + lineSize] := '\0';
      text := buffer[lastPtr..lastPtr + lineSize];
      comment := buffer[lastPtr] == '#';
    }

    /** The size of the line up to `posLF` without the CR that may end it. */
    method TrimmedSize(posLF: nat) returns (lineSize: nat)
      requires 0 <= lastPtr <= posLF <= buffer.Length
      ensures lastPtr + lineSize <= posLF && buffer[lastPtr..lastPtr + lineSize] == Chomp(buffer[lastPtr..posLF])
    {
      lineSize := posLF - lastPtr;
      ghost var window := buffer[lastPtr..posLF];
      ChompIs(window, lineSize);
      assert window[..lineSize] == window;
      if lineSize > 0 && buffer[lastPtr + lineSize - 1] == CR {
        lineSize := lineSize - 1;
        assert buffer[lastPtr..lastPtr + lineSize] == window[..lineSize];
      }
    }

    /** Cuts the piece that ends at `posLF` out of the window. */
    method TakeLine(posLF: nat) returns (line: Option<string>, comment: bool)
      requires Valid() && lastPtr >= 0 && posLF == lastPtr + Find(buffer[lastPtr..available], LF)
      requires posLF == available ==> lastPtr == 0 && (if open then available == limit else unread == "")
      modifies this`lastPtr, buffer
      ensures Valid()
      ensures line == None <==> old(Remaining()) == ""
      ensures line == None ==> Remaining() == ""
      ensures line.Some? ==> line.value == Piece(old(Remaining()), limit)
      ensures line.Some? ==> Remaining() == RestOf(old(Remaining()), limit)
      ensures line.Some? ==> comment == IsComment(line.value) && (lastPtr >= 0 <==> Ended(old(Remaining()), limit))
    {
      hide Find, Chomp, Piece, RestOf, Ended, IsComment;
      ghost var window, e := buffer[lastPtr..available], posLF - lastPtr;
      Nothing(window, unread);
      if |window| + |unread| > 0 {
        PieceInWindow(window, unread, e, limit);
        RestInWindow(window, unread, e, limit);
      }
      WindowSlices(buffer[..], lastPtr, available, e, e);
      var lineSize := TrimmedSize(posLF);
      var text;
      text, comment := Terminate(lineSize, posLF + 1);
      if lineSize == 0 && available == 0 && !open {
        return None, false;
      }
      lastPtr := if posLF < available then posLF + 1 else -1;
      line := Some(text);
    }

    /** readFileBuffer: the next line that is not a comment. */
    method ReadLine() returns (r: Next)
      requires Valid()
      modifies this`available, this`lastPtr, this`open, this`unread, buffer
      ensures Valid() && (r, Remaining()) == NextPiece(old(Remaining()), limit)
    {
      hide Find, Chomp, Piece, RestOf, Ended, IsComment;
      ghost var start := Remaining();
      while true
        invariant Valid() && NextPiece(Remaining(), limit) == NextPiece(start, limit)
        decreases |Remaining()|
      {
        var posLF := 0;
        if lastPtr >= 0 {
          posLF := lastPtr + Find(buffer[lastPtr..available], LF);
        }
        if lastPtr < 0 || posLF == available {
          posLF := Refill();
        }
        var line, comment := TakeLine(posLF);
        if line == None {
          return NoMore;
        }
        if !comment {
          return Delivered(line.value);
        }
        if lastPtr < 0 {
          // the next round would move the characters of the comment from lastPtr
          return Lost;
        }
      }
    }
  }

  class WriteBuffer {
    const size: nat
    const buffer: array<char>
    var available: nat
    /** What has been written to the file. */
    var file: string

    ghost predicate Valid()
      reads this, buffer
    {
      buffer.Length == size && available <= size
    }

    /** Everything written so far, in the file or still in the buffer. */
    ghost function Written(): string
      requires Valid()
      reads this, buffer
    {
      file + buffer[..available]
    }

    /** openFileBuffer for writing: the file is truncated. */
    constructor (size: nat)
      ensures Valid() && Written() == "" && file == "" && fresh(buffer) && this.size == size
    {
      this.size := size;
      buffer := new char[size];
      available, file := 0, "";
    }

    /** writeFileBuffer. */
    method Write(inBuf: string)
      requires Valid()
      modifies this`available, this`file, buffer
      ensures Valid() && Written() == old(Written()) + inBuf
    {
      ghost var before := Written();
      if available > 0 && available + |inBuf| > size {
        file := file + buffer[..available];
        available := 0;
      }
      assert Written() == before;
      if |inBuf| > size {
        assert available == 0 && before == file;
        file := file + inBuf;
        assert Written() == file;
      } else {
        var at := available;
        ghost var kept := buffer[..at];
        assert before == file + kept;
        for i := 0 to |inBuf|
          invariant forall k :: 0 <= k < buffer.Length ==>
            buffer[k] == if at <= k < at + i then inBuf[k - at] else old(buffer[k])
          modifies buffer
        {
          buffer[at + i] := inBuf[i];
        }
        available := at + |inBuf|;
        assert buffer[..available] == kept + inBuf;
        assert Written() == file + (kept + inBuf) == file + kept + inBuf;
      }
    }

    /** closeFileBuffer: what is still in the buffer goes to the file. */
    method Close()
      requires Valid()
      modifies this`file, this`available
      ensures file == old(Written())
    {
      if available > 0 {
        file := file + buffer[..available];
      }
      available := 0;
    }
  }

  lemma WindowSlices(b: string, from: nat, to: nat, n: nat, e: nat)
    requires from + n <= to <= |b|
    ensures b[from..from + n] == b[from..to][..n]
    ensures from + e < to ==> b[from + e + 1..to] == b[from..to][e + 1..]
  {
    var head, front := b[from..from + n], b[from..to][..n];
    assert forall k :: 0 <= k < n ==> head[k] == front[k];
    if from + e < to {
      var tail, back := b[from + e + 1..to], b[from..to][e + 1..];
      assert forall k :: 0 <= k < |tail| ==> tail[k] == back[k];
    }
  }

  lemma NoneFound(line: string)
    requires LF !in line
    ensures Find(line, LF) == |line|
  {
    FindAppend(line, "", LF);
    assert line + "" == line;
  }

  lemma Nothing(window: string, unread: string)
    ensures window + unread == "" <==> |window| == 0 && unread == ""
  {}

  /** The next piece of what remains ends in the window, or is the whole window. */
  lemma PieceInWindow(window: string, unread: string, e: nat, n: nat)
    requires n > 0 && e == Find(window, LF) && |window| <= n && |window| + |unread| > 0
    requires e == |window| ==> unread == "" || |window| == n
    ensures Piece(window + unread, n) == Chomp(window[..e])
    ensures Ended(window + unread, n) <==> e < |window|
  {
    hide *;
    EndInWindow(window, unread, e, n);
    PieceIs(window + unread, n);
    CutFront(window, unread, e);
  }

  lemma RestInWindow(window: string, unread: string, e: nat, n: nat)
    requires n > 0 && e == Find(window, LF) && |window| <= n && |window| + |unread| > 0
    requires e == |window| ==> unread == "" || |window| == n
    ensures e < |window| ==> RestOf(window + unread, n) == window[e + 1..] + unread
    ensures e == |window| ==> RestOf(window + unread, n) == unread
  {
    hide *;
    EndInWindow(window, unread, e, n);
    if e < |window| {
      RestFrom(window + unread, n, e + 1);
      CutBack(window, unread, e + 1);
    } else {
      RestFrom(window + unread, n, e);
      CutBack(window, unread, e);
      assert window[e..] + unread == unread;
    }
  }

  lemma RestFrom(text: string, n: nat, from: nat)
    requires text != "" && n > 0 && from == PieceEnd(text, n) + if Ended(text, n) then 1 else 0
    ensures from <= |text| && RestOf(text, n) == text[from..]
  {}

  lemma CutFront(window: string, unread: string, e: nat)
    requires e <= |window|
    ensures (window + unread)[..e] == window[..e]
  {}

  lemma CutBack(window: string, unread: string, e: nat)
    requires e <= |window|
    ensures (window + unread)[e..] == window[e..] + unread
  {}

  lemma EndInWindow(window: string, unread: string, e: nat, n: nat)
    requires n > 0 && e == Find(window, LF) && |window| <= n
    requires e == |window| ==> unread == "" || |window| == n
    ensures PieceEnd(window + unread, n) == e && (Ended(window + unread, n) <==> e < |window|)
  {
    hide Find;
    if e < |window| {
      assert (window + unread)[..e] == window[..e];
      FindIs(window + unread, LF, e);
    } else {
      assert window[..|window|] == window;
      FindAppend(window, unread, LF);
    }
  }

  lemma PieceIs(text: string, n: nat)
    requires text != "" && n > 0
    ensures Piece(text, n) == Chomp(text[..PieceEnd(text, n)])
  {}

  lemma ChompIs(window: string, e: nat)
    requires e <= |window|
    ensures Chomp(window[..e]) == window[..if e > 0 && window[e - 1] == CR then e - 1 else e]
  {
    assert e > 0 ==> window[..e][..e - 1] == window[..e - 1];
  }
}
