/** The IOPRP patcher (src/ioprp.c): the loop that copies an image member by member
    over the very table it is rewriting, proved to produce the patched image. */
module IoprpPatcher {
  import opened Bytes
  import opened Words
  import opened IoprpFormat
  import opened IoprpPatched

  // ----- Writing one directory entry -----

  ghost function SetSize(s: seq<Byte>, i: nat, size: nat): (r: seq<Byte>)
    requires SLOT * i + SLOT <= |s| && size < WORD
    ensures |r| == |s|
  {
    Splice(s, SLOT * i + 12, PackU32(size))
  }

  ghost function SetName(s: seq<Byte>, i: nat, name: seq<Byte>): (r: seq<Byte>)
    requires SLOT * i + SLOT <= |s| && |name| < NAME
    ensures |r| == |s|
  {
    Splice(s, SLOT * i, name + [0])
  }

  ghost function SetExtInfo(s: seq<Byte>, i: nat, extInfo: nat): (r: seq<Byte>)
    requires SLOT * i + SLOT <= |s| && extInfo < B * B
    ensures |r| == |s|
  {
    Splice(s, SLOT * i + NAME, PackU16(extInfo))
  }

  ghost function SetEntry(s: seq<Byte>, i: nat, e: Entry): (r: seq<Byte>)
    requires SLOT * i + SLOT <= |s| && Encodable(e)
    ensures |r| == |s|
  {
    SetExtInfo(SetName(SetSize(s, i, e.size), i, e.name), i, e.extInfo)
  }

  lemma SpliceInside(s: seq<Byte>, o: nat, n: nat, a: nat, piece: seq<Byte>)
    requires o + n <= |s| && a + |piece| <= n
    ensures Splice(s, o + a, piece) == Splice(s, o, Splice(s[o..o + n], a, piece))
  {
    var inner := Splice(s[o..o + n], a, piece);
    assert s[o..o + n][..a] == s[o..o + a] && s[o..o + n][a + |piece|..] == s[o + a + |piece|..o + n];
  }

  lemma SpliceOver(s: seq<Byte>, o: nat, p: seq<Byte>, q: seq<Byte>)
    requires o + |p| <= |s| && |p| == |q|
    ensures Splice(s, o, p)[o..o + |p|] == p && Splice(Splice(s, o, p), o, q) == Splice(s, o, q)
  {}

  /** The three fields of a slot, written one after the other. */
  ghost function Written(slot: seq<Byte>, e: Entry): (r: seq<Byte>)
    requires |slot| == SLOT && Encodable(e)
    ensures |r| == SLOT
  {
    Splice(Splice(Splice(slot, 12, PackU32(e.size)), 0, e.name + [0]), NAME, PackU16(e.extInfo))
  }

  lemma SetEntryInside(s: seq<Byte>, i: nat, e: Entry)
    requires SLOT * i + SLOT <= |s| && Encodable(e)
    ensures SetEntry(s, i, e) == Splice(s, SLOT * i, Written(Slot(s, i), e))
  {
    hide PackU16, PackU32, Splice;
    var o, slot, slot1 := SLOT * i, Slot(s, i), Splice(Slot(s, i), 12, PackU32(e.size));
    var slot2, ext := Splice(slot1, 0, e.name + [0]), PackU16(e.extInfo);
    assert SetSize(s, i, e.size) == Splice(s, o, slot1) by {
      SpliceInside(s, o, SLOT, 12, PackU32(e.size));
    }
    assert SetName(Splice(s, o, slot1), i, e.name) == Splice(s, o, slot2) by {
      SpliceOver(s, o, slot1, slot2);
      SpliceInside(Splice(s, o, slot1), o, SLOT, 0, e.name + [0]);
    }
    assert SetExtInfo(Splice(s, o, slot2), i, e.extInfo) == Splice(s, o, Splice(slot2, NAME, ext)) by {
      SpliceOver(s, o, slot2, Splice(slot2, NAME, ext));
      SpliceInside(Splice(s, o, slot2), o, SLOT, NAME, ext);
    }
  }

  lemma WrittenInZeros(e: Entry)
    requires Encodable(e)
    ensures Written(Zeros(SLOT), e) == Encode(e)
  {
    hide PackU16, PackU32;
    var n, size, ext := |e.name|, PackU32(e.size), PackU16(e.extInfo);
    assert Splice(Zeros(SLOT), 12, size) == Zeros(12) + size;
    assert Splice(Zeros(12) + size, 0, e.name + [0]) == e.name + Zeros(12 - n) + size;
    assert Splice(e.name + Zeros(12 - n) + size, NAME, ext) == e.name + Zeros(NAME - n) + ext + size;
  }

  /** On a cleared slot the three fields are the encoded entry. */
  lemma SetEntryInZeros(s: seq<Byte>, i: nat, e: Entry)
    requires SLOT * i + SLOT <= |s| && Encodable(e) && Slot(s, i) == Zeros(SLOT)
    ensures SetEntry(s, i, e) == Splice(s, SLOT * i, Encode(e))
  {
    hide PackU16, PackU32;
    SetEntryInside(s, i, e);
    WrittenInZeros(e);
  }

  lemma PackUnpackU32(b: seq<Byte>)
    requires |b| == 4
    ensures PackU32(UnpackU32(b)) == b
  {
    var n := UnpackU32(b);
    assert n / B == b[1] + B * (b[2] + B * b[3]);
    assert n / B / B == b[2] + B * b[3];
    assert n / B / B / B == b[3];
    assert n / (B * B) == n / B / B && n / (B * B * B) == n / B / B / B;
  }

  /** On the slot that holds the entry already nothing changes. */
  lemma SetEntryAgain(s: seq<Byte>, i: nat, e: Entry)
    requires SLOT * i + SLOT <= |s| && Encodable(e) && EntryOf(Slot(s, i)) == e
    ensures SetEntry(s, i, e) == s
  {
    hide Encodable, EntryOf, SetEntry;
    SetEntryInside(s, i, e);
    WrittenAgain(Slot(s, i), e);
    SpliceSame(s, SLOT * i, Slot(s, i));
  }

  lemma WrittenAgain(slot: seq<Byte>, e: Entry)
    requires |slot| == SLOT && Encodable(e) && EntryOf(slot) == e
    ensures Written(slot, e) == slot
  {
    hide PackU32, UnpackU32, Splice;
    PackUnpackU32(slot[12..]);
    SpliceSame(slot, 12, PackU32(e.size));
    assert slot[0..|e.name| + 1] == e.name + [0] by {
      assert slot[..NAME][..|e.name|] == e.name && slot[..NAME][|e.name|] == 0;
    }
    SpliceSame(slot, 0, e.name + [0]);
    SpliceSame(slot, NAME, PackU16(e.extInfo));
  }

  lemma SpliceSame(s: seq<Byte>, at: nat, piece: seq<Byte>)
    requires at + |piece| <= |s| && s[at..at + |piece|] == piece
    ensures Splice(s, at, piece) == s
  {}

  /** strcpy of a name into the output entry. */
  method StrCopy(out: array<Byte>, i: nat, name: seq<Byte>)
    requires SLOT * i + SLOT <= out.Length && |name| < NAME
    modifies out
    ensures out[..] == SetName(old(out[..]), i, name)
  {
    MemCopy(out, SLOT * i, name + [0], 0, |name| + 1);
    assert (name + [0])[0..0 + (|name| + 1)] == name + [0];
  }

  method PutSize(out: array<Byte>, i: nat, size: nat)
    requires SLOT * i + SLOT <= out.Length && size < WORD
    modifies out
    ensures out[..] == SetSize(old(out[..]), i, size)
  {
    MemCopy(out, SLOT * i + 12, PackU32(size), 0, 4);
  }

  method PutExtInfo(out: array<Byte>, i: nat, extInfo: nat)
    requires SLOT * i + SLOT <= out.Length && extInfo < B * B
    modifies out
    ensures out[..] == SetExtInfo(old(out[..]), i, extInfo)
  {
    out[SLOT * i + NAME], out[SLOT * i + NAME + 1] := extInfo % B, extInfo / B;
  }

  /** The size field of an output entry. */
  method SizeIn(out: array<Byte>, i: nat) returns (size: nat)
    requires SLOT * i + SLOT <= out.Length
    ensures size == UnpackU32(Slot(out[..], i)[12..])
  {
    size := UnpackU32(out[SLOT * i + 12..SLOT * i + SLOT]);
    assert out[SLOT * i + 12..SLOT * i + SLOT] == Slot(out[..], i)[12..];
  }

  /** The size that was written is still there when name and EXTINFO size follow. */
  lemma SizeReadsBack(s: seq<Byte>, i: nat, e: Entry)
    requires SLOT * i + SLOT <= |s| && Encodable(e)
    ensures UnpackU32(Slot(SetEntry(s, i, e), i)[12..]) == e.size
  {
    hide PackU32, UnpackU32, SetEntry, Splice;
    SetEntryInside(s, i, e);
    SpliceOver(s, SLOT * i, Written(Slot(s, i), e), Written(Slot(s, i), e));
    WrittenSize(Slot(s, i), e);
    UnpackPackU32(e.size);
  }

  lemma WrittenSize(slot: seq<Byte>, e: Entry)
    requires |slot| == SLOT && Encodable(e)
    ensures Written(slot, e)[12..] == PackU32(e.size)
  {
    hide PackU16, PackU32;
  }

  // ----- The steps of the loop -----

  /** patch_CDVDMAN, patch_CDVDFSV and patch_EESYNC. */
  method PatchModule(out: array<Byte>, offset: nat, i: nat, contents: seq<Byte>)
    requires offset + |contents| <= out.Length && SLOT * i + SLOT <= out.Length && |contents| < WORD
    modifies out
    ensures out[..] == SetSize(Splice(old(out[..]), offset, contents), i, |contents|)
  {
    hide Splice, PackU32;
    assert contents[0..0 + |contents|] == contents;
    MemCopy(out, offset, contents, 0, |contents|);
    PutSize(out, i, |contents|);
  }

  /** Moves both offsets to the next multiple of 16 and clears the gap in the output. */
  method AlignOffsets(out: array<Byte>, offsetIn: nat, sizeIn: nat, offsetOut: nat, sizeOut: nat)
    returns (nextIn: nat, nextOut: nat)
    requires offsetOut + Align16(sizeOut) <= out.Length
    modifies out
    ensures nextIn == offsetIn + Align16(sizeIn) && nextOut == offsetOut + Align16(sizeOut)
    ensures out[..] == Splice(old(out[..]), offsetOut + sizeOut, Zeros(Align16(sizeOut) - sizeOut))
  {
    if sizeIn % 16 == 0 {
      nextIn := offsetIn + sizeIn;
    } else {
      nextIn := offsetIn + (sizeIn + 15) / 16 * 16;
    }
    if sizeOut % 16 == 0 {
      nextOut := offsetOut + sizeOut;
    } else {
      var newSize := (sizeOut + 15) / 16 * 16;
      MemClear(out, offsetOut + sizeOut, newSize - sizeOut);
      nextOut := offsetOut + newSize;
    }
  }

  /** The output after one round of the loop. */
  ghost function Round(s: seq<Byte>, i: nat, offset: nat, contents: seq<Byte>, e: Entry): (r: seq<Byte>)
    requires SLOT * i + SLOT <= |s| && offset + Align16(|contents|) <= |s|
    requires Encodable(e)
    ensures |r| == |s|
  {
    Splice(SetEntry(Splice(Splice(s, SLOT * i, Zeros(SLOT)), offset, contents), i, e),
           offset + |contents|, Zeros(Align16(|contents|) - |contents|))
  }

  /** One round, for the entry `e` of the input. */
  method PatchEntry(out: array<Byte>, image: seq<Byte>, mods: Modules, i: nat, e: Entry, offsetIn: nat, offsetOut: nat,
                    ghost contents: seq<Byte>)
    returns (nextIn: nat, nextOut: nat)
    requires SLOT * i + SLOT <= out.Length && offsetOut + Align16(|contents|) <= out.Length
    requires Encodable(e) && Encodable(Update(e, mods)) && offsetIn + e.size <= |image|
    requires contents == if Replaced(e.name) then Module(mods, e.name) else image[offsetIn..offsetIn + e.size]
    modifies out
    ensures nextIn == offsetIn + Align16(e.size) && nextOut == offsetOut + Align16(|contents|)
    ensures out[..] == Round(old(out[..]), i, offsetOut, contents, Update(e, mods))
  {
    hide PackU16, PackU32, UnpackU32, Splice, Zeros;
    MemClear(out, SLOT * i, SLOT);
    if e.name == CDVDMAN {
      PatchModule(out, offsetOut, i, mods.cdvdman);
    } else if e.name == CDVDFSV {
      PatchModule(out, offsetOut, i, mods.cdvdfsv);
    } else if e.name == EESYNC {
      PatchModule(out, offsetOut, i, mods.eesync);
    } else {
      MemCopy(out, offsetOut, image, offsetIn, e.size);
      PutSize(out, i, e.size);
    }
    StrCopy(out, i, e.name);
    PutExtInfo(out, i, e.extInfo);
    var sizeOut := SizeIn(out, i);
    SizeReadsBack(Splice(Splice(old(out[..]), SLOT * i, Zeros(SLOT)), offsetOut, contents), i, Update(e, mods));
    nextIn, nextOut := AlignOffsets(out, offsetIn, e.size, offsetOut, sizeOut);
  }

  // ----- What a round does -----

  /** Nothing past the entry and the member is written. */
  lemma RoundTail(s: seq<Byte>, i: nat, offset: nat, contents: seq<Byte>, e: Entry, end: nat)
    requires SLOT * i + SLOT <= end <= |s| && offset + Align16(|contents|) <= end && Encodable(e)
    ensures Round(s, i, offset, contents, e)[end..] == s[end..]
  {
    hide PackU16, PackU32, Align16;
    var s1 := Splice(s, SLOT * i, Zeros(SLOT));
    assert s1[end..] == s[end..];
    var s2 := Splice(s1, offset, contents);
    assert s2[end..] == s1[end..];
    var s3 := SetSize(s2, i, e.size);
    assert s3[end..] == s2[end..];
    var s4 := SetName(s3, i, e.name);
    assert s4[end..] == s3[end..];
    var s5 := SetExtInfo(s4, i, e.extInfo);
    assert s5[end..] == s4[end..];
  }

  /** The round of the directory copies it over the entries written so far. */
  lemma DirectoryRound(s: seq<Byte>, i: nat, contents: seq<Byte>, e: Entry)
    requires SLOT * i + SLOT <= |contents| && Align16(|contents|) <= |s|
    requires Encodable(e) && EntryOf(Slot(contents, i)) == e
    ensures Round(s, i, 0, contents, e)[..Align16(|contents|)] == Padded(contents)
  {
    hide EntryOf, SetEntry, Encodable, Align16;
    var s1 := Splice(s, SLOT * i, Zeros(SLOT));
    var s2 := Splice(s1, 0, contents);
    assert s2[..|contents|] == contents;
    assert Slot(s2, i) == Slot(contents, i);
    SetEntryAgain(s2, i, e);
  }

  lemma SpliceApart(s: seq<Byte>, a: nat, p: seq<Byte>, p': seq<Byte>, b: nat, q: seq<Byte>)
    requires a + |p| <= b && b + |q| <= |s| && |p| == |p'|
    ensures Splice(Splice(s, a, p), b, q)[a..a + |p|] == p
    ensures Splice(Splice(Splice(s, a, p), b, q), a, p') == Splice(Splice(s, a, p'), b, q)
  {
    var s1, z, rest := Splice(s, a, p), Splice(Splice(s, a, p), b, q), s[a + |p|..b] + q + s[b + |q|..];
    assert s1[b + |q|..] == s[b + |q|..] && s1[..b] == s[..a] + p + s[a + |p|..b];
    assert z == s[..a] + p + rest;
    var s1' := Splice(s, a, p');
    assert s1'[b + |q|..] == s[b + |q|..] && s1'[..b] == s[..a] + p' + s[a + |p|..b];
    assert Splice(s1', b, q) == s[..a] + p' + rest;
    SpliceMiddle(s[..a], p, p', rest);
  }

  lemma SpliceMiddle(x: seq<Byte>, p: seq<Byte>, p': seq<Byte>, y: seq<Byte>)
    requires |p| == |p'|
    ensures Splice(x + p + y, |x|, p') == x + p' + y
  {}

  lemma SpliceAdjoining(s: seq<Byte>, b: nat, q: seq<Byte>, r: seq<Byte>)
    requires b + |q| + |r| <= |s|
    ensures Splice(Splice(s, b, q), b + |q|, r) == Splice(s, b, q + r)
  {}

  /** A later round writes the encoded entry and, further on, the padded member. */
  lemma MemberRound(s: seq<Byte>, i: nat, offset: nat, contents: seq<Byte>, e: Entry)
    requires SLOT * i + SLOT <= offset && offset + Align16(|contents|) <= |s| && Encodable(e)
    ensures Round(s, i, offset, contents, e) == Splice(Splice(s, SLOT * i, Encode(e)), offset, Padded(contents))
  {
    hide Splice, SetEntry, Encode, Encodable, Align16, Zeros;
    SpliceApart(s, SLOT * i, Zeros(SLOT), Encode(e), offset, contents);
    var s2 := Splice(Splice(s, SLOT * i, Zeros(SLOT)), offset, contents);
    assert Slot(s2, i) == Zeros(SLOT);
    SetEntryInZeros(s2, i, e);
    SpliceAdjoining(Splice(s, SLOT * i, Encode(e)), offset, contents, Zeros(Align16(|contents|) - |contents|));
  }

  // ----- The loop -----

  lemma DoneStep(image: seq<Byte>, mods: Modules, d: nat, i: nat)
    requires Ready(image, mods, d) && d < i < |Olds(image)|
    ensures Encodable(News(image, mods)[i]) && SLOT * i + SLOT <= |Done(image, mods, d, i)|
    ensures Done(image, mods, d, i + 1) ==
            Splice(Done(image, mods, d, i), SLOT * i, Encode(News(image, mods)[i])) + Body(image, mods, d, i)
  {
    hide WellFormed, FitsWord, Directory, UpdateAll, Table, Bodies, Body, Encode;
    NewEntry(image, mods, d, i);
    BodiesStep(image, mods, d, i + 1);
    TableStep(image, mods, d, i);
    DirectoryEnds(image, d);
    var t, pad := Table(image, mods, d, i), Zeros(Align16(Olds(image)[d].size) - Olds(image)[d].size);
    SplicePrefix(t, pad + Bodies(image, mods, d, i), SLOT * i, Encode(News(image, mods)[i]));
    assert Done(image, mods, d, i) == t + (pad + Bodies(image, mods, d, i));
  }

  lemma SplicePrefix(s: seq<Byte>, rest: seq<Byte>, a: nat, p: seq<Byte>)
    requires a + |p| <= |s|
    ensures Splice(s + rest, a, p) == Splice(s, a, p) + rest
  {}

  lemma TableStep(image: seq<Byte>, mods: Modules, d: nat, i: nat)
    requires Ready(image, mods, d) && d < i < |Olds(image)|
    ensures Encodable(News(image, mods)[i]) && SLOT * i + SLOT <= Olds(image)[d].size
    ensures Table(image, mods, d, i + 1) == Splice(Table(image, mods, d, i), SLOT * i, Encode(News(image, mods)[i]))
  {
    hide WellFormed, FitsWord, Directory, UpdateAll, Encode, Encodable;
    DirectoryEnds(image, d);
    var es := News(image, mods);
    forall k | 0 <= k <= i ensures Encodable(es[k]) { NewEntry(image, mods, d, k); }
    assert es[d + 1..i + 1][..i - d - 1] == es[d + 1..i];
    assert EncodeAll(es[d + 1..i + 1]) == EncodeAll(es[d + 1..i]) + Encode(es[i]);
  }

  /** What a round finds: the entry, its contents, and room for its result. */
  lemma RoundRoom(image: seq<Byte>, mods: Modules, d: nat, i: nat)
    requires Ready(image, mods, d) && i < |Olds(image)|
    ensures SLOT * i + SLOT <= |image| && image[SLOT * i] != 0 && EntryOf(Slot(image, i)) == Olds(image)[i]
    ensures Encodable(Olds(image)[i]) && Encodable(News(image, mods)[i]) && InRange(image, Olds(image), i)
    ensures SLOT * i + SLOT <= |Patched(image, mods, d)|
    ensures Offset(News(image, mods)[..i]) + Align16(News(image, mods)[i].size) <= |Patched(image, mods, d)|
    ensures Offset(News(image, mods)[..i + 1]) == Offset(News(image, mods)[..i]) + Align16(News(image, mods)[i].size)
    ensures Offset(Olds(image)[..i + 1]) == Offset(Olds(image)[..i]) + Align16(Olds(image)[i].size)
  {
    hide WellFormed, FitsWord, Directory, UpdateAll, Patched, Align16, Encodable, EntryOf, Update;
    var es := News(image, mods);
    OldEntry(image, d, i);
    NewEntry(image, mods, d, i);
    PatchedEnd(image, mods, d);
    PatchedLength(image, mods, d);
    OffsetStep(es, i);
    OffsetStep(Olds(image), i);
    OffsetsGrow(es, i + 1, |es|);
    assert es[..|es|] == es;
  }

  /** The round of the directory leaves its file, still with the old entries. */
  lemma DirectoryDone(image: seq<Byte>, mods: Modules, d: nat, s: seq<Byte>, contents: seq<Byte>)
    requires Ready(image, mods, d) && d < |Olds(image)| && |Patched(image, mods, d)| <= |s|
    requires InRange(image, Olds(image), d) && contents == NewContents(image, mods, Olds(image), d)
    ensures Offset(News(image, mods)[..d]) == 0 && SLOT * d + SLOT <= |s| && Align16(|contents|) <= |s|
    ensures Encodable(News(image, mods)[d])
    ensures Round(s, d, 0, contents, News(image, mods)[d])[..Align16(|contents|)] == Done(image, mods, d, d + 1)
  {
    hide WellFormed, FitsWord, Directory, Patched, Align16, Encodable, EntryOf, Round, UpdateAll, Encode, Offset, Done,
      Padded, Table, NewContents, Update;
    RoundRoom(image, mods, d, d);
    DirectoryFirst(image, mods, d);
    HeadKept(image, mods, d, d);
    DirectoryEnds(image, d);
    FirstContents(image, mods, d);
    assert Slot(contents, d) == Slot(image, d);
    DirectoryRound(s, d, contents, News(image, mods)[d]);
  }

  /** The directory is copied from the start of the image. */
  lemma FirstContents(image: seq<Byte>, mods: Modules, d: nat)
    requires Ready(image, mods, d) && d < |Olds(image)| && InRange(image, Olds(image), d)
    ensures Olds(image)[d].size <= |image|
    ensures NewContents(image, mods, Olds(image), d) == image[..Olds(image)[d].size]
    ensures Done(image, mods, d, d + 1) == Padded(image[..Olds(image)[d].size])
  {
    hide FitsWord, Directory, Align16, Encodable, EntryOf, UpdateAll, Encode;
    DirectoryEnds(image, d);
    OldsStart(image, d);
    assert Table(image, mods, d, d + 1) == image[..Olds(image)[d].size];
  }

  lemma OldsStart(image: seq<Byte>, d: nat)
    requires WellFormed(image, d)
    ensures d < |Olds(image)| && Offset(Olds(image)[..d]) == 0 && !Replaced(Olds(image)[d].name)
  {
    EmptyBefore(Olds(image), d);
  }

  lemma MemberDone(image: seq<Byte>, mods: Modules, d: nat, i: nat, s: seq<Byte>, off: nat, contents: seq<Byte>)
    requires Ready(image, mods, d) && d < i < |Olds(image)| && |Patched(image, mods, d)| <= |s|
    requires InRange(image, Olds(image), i) && contents == NewContents(image, mods, Olds(image), i)
    requires off == Offset(News(image, mods)[..i]) <= |s| && s[..off] == Done(image, mods, d, i)
    ensures SLOT * i + SLOT <= |s| && off + Align16(|contents|) <= |s| && Encodable(News(image, mods)[i])
    ensures Round(s, i, off, contents, News(image, mods)[i])[..off + Align16(|contents|)] == Done(image, mods, d, i + 1)
  {
    hide WellFormed, FitsWord, Directory, Patched, Align16, Encodable, EntryOf, Round, UpdateAll,
      Encode, Done, Offset, Padded;
    RoundRoom(image, mods, d, i);
    DoneStep(image, mods, d, i);
    var e := News(image, mods)[i];
    MemberRound(s, i, off, contents, e);
    SplicePrefix(s[..off], s[off..], SLOT * i, Encode(e));
    assert s == s[..off] + s[off..];
    assert Splice(s, SLOT * i, Encode(e))[..off] == Splice(s[..off], SLOT * i, Encode(e));
    assert Padded(contents) == Body(image, mods, d, i);
  }

  /** patch_IOPRP_image: walks the entries of the input and returns the size of
      the output. */
  method PatchImage(out: array<Byte>, image: seq<Byte>, mods: Modules, ghost d: nat) returns (size: nat)
    requires Ready(image, mods, d) && |Patched(image, mods, d)| <= out.Length
    modifies out
    ensures size == |Patched(image, mods, d)|
    ensures out[..size] == Patched(image, mods, d) && out[size..] == old(out[size..])
  {
    hide WellFormed, FitsWord, Directory, UpdateAll, Done, Body, Round, Encodable, Offset, Align16, EntryOf;
    ghost var end, n := |Patched(image, mods, d)|, |Olds(image)|;
    DirectoryEnds(image, d);
    PatchedLength(image, mods, d);
    OffsetOfNone(image, mods);
    HeadKept(image, mods, d, d);
    var i, offsetIn, offsetOut := 0, 0, 0;
    while image[SLOT * i] != 0
      invariant i <= n && d < n && SLOT * i + SLOT <= |image|
      invariant offsetIn == Offset(Olds(image)[..i]) && offsetOut == Offset(News(image, mods)[..i])
      invariant i > d ==> offsetOut <= out.Length && out[..offsetOut] == Done(image, mods, d, i)
      invariant out[end..] == old(out[end..])
      decreases n - i
    {
      RoundRoom(image, mods, d, i);
      var e := EntryOf(Slot(image, i));
      ghost var before, contents := out[..], NewContents(image, mods, Olds(image), i);
      RoundTail(before, i, offsetOut, contents, News(image, mods)[i], end);
      if i == d {
        DirectoryDone(image, mods, d, before, contents);
      } else if i > d {
        MemberDone(image, mods, d, i, before, offsetOut, contents);
      }
      offsetIn, offsetOut := PatchEntry(out, image, mods, i, e, offsetIn, offsetOut, contents);
      i := i + 1;
    }
    NamesNotEmpty(image, d, i);
    assert News(image, mods)[..n] == News(image, mods);
    size := offsetOut;
  }

  lemma OffsetOfNone(image: seq<Byte>, mods: Modules)
    ensures Offset(Olds(image)[..0]) == 0 && Offset(News(image, mods)[..0]) == 0
  {}

  lemma NamesNotEmpty(image: seq<Byte>, d: nat, i: nat)
    requires WellFormed(image, d) && i <= |Olds(image)| && SLOT * i < |image| && image[SLOT * i] == 0
    ensures i == |Olds(image)|
  {
    if i < |Olds(image)| {
      OldEntry(image, d, i);
    }
  }

  /** The caller (src/system.c): a buffer of the computed size always holds the result. */
  method BuildImage(image: seq<Byte>, mods: Modules, ghost d: nat) returns (out: array<Byte>, size: nat)
    requires Ready(image, mods, d) && OneEach(Directory(image, 0))
    ensures fresh(out) && out.Length == BufferSize(image, mods)
    ensures size == |Patched(image, mods, d)| <= out.Length && out[..size] == Patched(image, mods, d)
  {
    out := new Byte[BufferSize(image, mods)];
    PatchedFits(image, mods, d);
    size := PatchImage(out, image, mods, d);
  }
}
