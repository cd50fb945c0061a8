/** The patched IOPRP image as a value, and what a reader finds in it. */
module IoprpPatched {
  import opened Bytes
  import opened Words
  import opened IoprpFormat

  ghost predicate Ready(image: seq<Byte>, mods: Modules, d: nat) {
    WellFormed(image, d) && FitsWord(image, mods)
  }

  ghost function Olds(image: seq<Byte>): seq<Entry> {
    Directory(image, 0)
  }

  ghost function News(image: seq<Byte>, mods: Modules): seq<Entry> {
    UpdateAll(Olds(image), mods)
  }

  /** What well-formedness says about one entry. */
  lemma OldEntry(image: seq<Byte>, d: nat, k: nat)
    requires WellFormed(image, d) && k < |Olds(image)|
    ensures SLOT * k + SLOT <= |image| && image[SLOT * k] != 0
    ensures Olds(image)[k] == EntryOf(Slot(image, k)) && Encodable(Olds(image)[k])
    ensures InRange(image, Olds(image), k)
  {
    DirectorySlots(image, 0, k);
    var slot := Slot(image, k);
    assert slot[0] == image[SLOT * k];
    assert |CString(slot[..NAME])| > 0;
  }

  lemma NewEntry(image: seq<Byte>, mods: Modules, d: nat, k: nat)
    requires Ready(image, mods, d) && k < |Olds(image)|
    ensures Encodable(News(image, mods)[k])
  {
    OldEntry(image, d, k);
  }

  /** The name that ends the directory is inside the directory's own member. */
  lemma DirectoryEnds(image: seq<Byte>, d: nat)
    requires WellFormed(image, d)
    ensures SLOT * |Olds(image)| + SLOT <= Olds(image)[d].size <= |image|
    ensures image[SLOT * |Olds(image)|] == 0
  {
    DirectoryStops(image, 0);
    assert InRange(image, Olds(image), d);
  }

  /** The directory file when the entries before `i` have been rewritten. */
  ghost function Table(image: seq<Byte>, mods: Modules, d: nat, i: nat): (r: seq<Byte>)
    requires Ready(image, mods, d) && d < i <= |Olds(image)|
    ensures |r| == Olds(image)[d].size
  {
    DirectoryEnds(image, d);
    assert forall k :: d < k < i ==> Encodable(News(image, mods)[k]) by {
      forall k | d < k < i ensures Encodable(News(image, mods)[k]) { NewEntry(image, mods, d, k); }
    }
    image[..SLOT * (d + 1)] + EncodeAll(News(image, mods)[d + 1..i]) + image[SLOT * i..Olds(image)[d].size]
  }

  /** The members after the directory, up to `i`. */
  ghost function Bodies(image: seq<Byte>, mods: Modules, d: nat, i: nat): seq<Byte>
    requires WellFormed(image, d) && d < i <= |Olds(image)|
  {
    if i == d + 1 then []
    else Bodies(image, mods, d, i - 1) + Padded(NewContents(image, mods, Olds(image), i - 1))
  }

  /** The output when the members before `i` are done. */
  ghost function Done(image: seq<Byte>, mods: Modules, d: nat, i: nat): seq<Byte>
    requires Ready(image, mods, d) && d < i <= |Olds(image)|
  {
    Padded(Table(image, mods, d, i)) + Bodies(image, mods, d, i)
  }

  ghost function Patched(image: seq<Byte>, mods: Modules, d: nat): seq<Byte>
    requires Ready(image, mods, d)
  {
    Done(image, mods, d, |Olds(image)|)
  }

  // ----- The directory reads back -----

  lemma {:induction false} CStringZeros(name: seq<Byte>, n: nat)
    requires 0 !in name
    ensures CString(name + Zeros(n)) == name
  {
    if name != [] {
      CStringZeros(name[1..], n);
      assert (name + Zeros(n))[1..] == name[1..] + Zeros(n);
    }
  }

  lemma EncodeReads(e: Entry)
    requires Encodable(e)
    ensures EntryOf(Encode(e)) == e && Encode(e)[0] != 0
  {
    var slot := Encode(e);
    assert slot[..NAME] == e.name + Zeros(NAME - |e.name|);
    CStringZeros(e.name, NAME - |e.name|);
    assert slot[12..] == PackU32(e.size);
    UnpackPackU32(e.size);
    assert slot[0] == e.name[0];
  }

  lemma {:induction false} EncodeAllAt(es: seq<Entry>, k: nat)
    requires k < |es| && forall i :: 0 <= i < |es| ==> Encodable(es[i])
    ensures EncodeAll(es)[SLOT * k..SLOT * k + SLOT] == Encode(es[k])
  {
    var n := |es| - 1;
    if k < n {
      EncodeAllAt(es[..n], k);
      assert EncodeAll(es)[SLOT * k..SLOT * k + SLOT] == EncodeAll(es[..n])[SLOT * k..SLOT * k + SLOT];
    }
  }

  /** The entries up to the directory's are not rewritten. */
  lemma HeadKept(image: seq<Byte>, mods: Modules, d: nat, k: nat)
    requires Ready(image, mods, d) && k <= d
    ensures d < |Olds(image)| && News(image, mods)[k] == Olds(image)[k]
  {}

  lemma HeadSlot(image: seq<Byte>, mods: Modules, d: nat, k: nat)
    requires Ready(image, mods, d) && k <= d < |Olds(image)|
    ensures SlotReads(Table(image, mods, d, |Olds(image)|), News(image, mods), k)
  {
    hide EntryOf, Encode, EncodeAll, WellFormed, FitsWord, Offset, Directory, InRange, Encodable, Update, UpdateAll;
    var t := Table(image, mods, d, |Olds(image)|);
    DirectoryEnds(image, d);
    OldEntry(image, d, k);
    HeadKept(image, mods, d, k);
    assert Slot(t, k) == Slot(image, k);
    assert t[SLOT * k] == image[SLOT * k];
  }

  lemma TailSlot(image: seq<Byte>, mods: Modules, d: nat, k: nat)
    requires Ready(image, mods, d) && d < k < |Olds(image)|
    ensures SlotReads(Table(image, mods, d, |Olds(image)|), News(image, mods), k)
  {
    hide EntryOf, Encode, EncodeAll, WellFormed, FitsWord, Offset, Directory, InRange, Encodable, Update, UpdateAll;
    var n, es := |Olds(image)|, News(image, mods);
    var t := Table(image, mods, d, n);
    DirectoryEnds(image, d);
    forall j | 0 <= j < n ensures Encodable(es[j]) { NewEntry(image, mods, d, j); }
    var rest, at := es[d + 1..n], SLOT * (k - d - 1);
    EncodeAllAt(rest, k - d - 1);
    EncodeReads(es[k]);
    assert Slot(t, k) == EncodeAll(rest)[at..at + SLOT];
    assert t[SLOT * k] == Slot(t, k)[0];
  }

  lemma PatchedSlot(image: seq<Byte>, mods: Modules, d: nat, k: nat)
    requires Ready(image, mods, d) && k < |Olds(image)|
    ensures SlotReads(Patched(image, mods, d), News(image, mods), k)
  {
    hide EntryOf, FitsWord, Directory, UpdateAll, Table, Bodies;
    var p, t := Patched(image, mods, d), Table(image, mods, d, |Olds(image)|);
    if k <= d { HeadSlot(image, mods, d, k); } else { TailSlot(image, mods, d, k); }
    assert p[..|t|] == t;
    assert Slot(p, k) == Slot(t, k);
  }

  lemma PatchedEnd(image: seq<Byte>, mods: Modules, d: nat)
    requires Ready(image, mods, d)
    ensures SLOT * |Olds(image)| + SLOT <= |Patched(image, mods, d)|
    ensures Patched(image, mods, d)[SLOT * |Olds(image)|] == 0
  {
    hide EntryOf, Directory, UpdateAll, Bodies;
    var n := |Olds(image)|;
    DirectoryEnds(image, d);
    assert Patched(image, mods, d)[SLOT * n] == Table(image, mods, d, n)[SLOT * n] == image[SLOT * n];
  }

  /** A reader of the patched image finds the same names and EXTINFO sizes in the
      same order; only the sizes of the replaced members have changed. */
  lemma PatchedDirectory(image: seq<Byte>, mods: Modules, d: nat)
    requires Ready(image, mods, d)
    ensures Directory(Patched(image, mods, d), 0) == UpdateAll(Directory(image, 0), mods)
  {
    hide WellFormed, FitsWord, Directory, UpdateAll, Patched, SlotReads;
    var es, p := News(image, mods), Patched(image, mods, d);
    PatchedEnd(image, mods, d);
    forall k: nat | k < |es| ensures SlotReads(p, es, k) {
      PatchedSlot(image, mods, d, k);
    }
    DirectoryIs(p, es, 0);
  }

  /** What follows the entries in the directory's own member is untouched. */
  lemma PatchedDirectoryTail(image: seq<Byte>, mods: Modules, d: nat)
    requires Ready(image, mods, d)
    ensures SLOT * |Directory(image, 0)| <= Directory(image, 0)[d].size
    ensures Directory(image, 0)[d].size <= |image| && Directory(image, 0)[d].size <= |Patched(image, mods, d)|
    ensures Patched(image, mods, d)[SLOT * |Directory(image, 0)|..Directory(image, 0)[d].size] ==
            image[SLOT * |Directory(image, 0)|..Directory(image, 0)[d].size]
  {
    var n, s := |Olds(image)|, Olds(image)[d].size;
    DirectoryEnds(image, d);
    var t := Table(image, mods, d, n);
    assert Patched(image, mods, d)[..|t|] == t;
    assert t[SLOT * n..] == image[SLOT * n..s];
  }

  // ----- The members -----

  lemma {:induction false} EmptyBefore(es: seq<Entry>, j: nat)
    requires j <= |es| && forall i :: 0 <= i < j ==> es[i].size == 0
    ensures Offset(es[..j]) == 0
  {
    if j > 0 {
      EmptyBefore(es, j - 1);
      assert es[..j][..j - 1] == es[..j - 1];
    }
  }

  lemma OffsetStep(es: seq<Entry>, j: nat)
    requires j < |es|
    ensures Offset(es[..j + 1]) == Offset(es[..j]) + Align16(es[j].size)
  {
    assert es[..j + 1][..j] == es[..j];
  }

  lemma {:induction false} OffsetsGrow(es: seq<Entry>, j: nat, k: nat)
    requires j <= k <= |es|
    ensures Offset(es[..j]) <= Offset(es[..k])
    decreases k
  {
    hide Offset;
    if j < k {
      OffsetsGrow(es, j, k - 1);
      OffsetStep(es, k - 1);
    }
  }

  /** Where the member after the directory starts. */
  lemma DirectoryFirst(image: seq<Byte>, mods: Modules, d: nat)
    requires Ready(image, mods, d)
    ensures Offset(News(image, mods)[..d]) == 0
    ensures Offset(News(image, mods)[..d + 1]) == Align16(Olds(image)[d].size)
  {
    EmptyBefore(News(image, mods), d);
    OffsetStep(News(image, mods), d);
  }

  /** The padded new contents of member `j`. */
  ghost function Body(image: seq<Byte>, mods: Modules, d: nat, j: nat): (r: seq<Byte>)
    requires Ready(image, mods, d) && j < |Olds(image)|
    ensures |r| == Align16(News(image, mods)[j].size)
  {
    Padded(NewContents(image, mods, Olds(image), j))
  }

  lemma BodiesStep(image: seq<Byte>, mods: Modules, d: nat, i: nat)
    requires Ready(image, mods, d) && d + 1 < i <= |Olds(image)|
    ensures Bodies(image, mods, d, i) == Bodies(image, mods, d, i - 1) + Body(image, mods, d, i - 1)
  {}

  lemma {:induction false} BodiesLength(image: seq<Byte>, mods: Modules, d: nat, i: nat)
    requires Ready(image, mods, d) && d < i <= |Olds(image)|
    ensures Align16(Olds(image)[d].size) + |Bodies(image, mods, d, i)| == Offset(News(image, mods)[..i])
  {
    hide WellFormed, FitsWord, Offset, Directory, InRange, UpdateAll, Align16, Body;
    DirectoryFirst(image, mods, d);
    if i > d + 1 {
      BodiesLength(image, mods, d, i - 1);
      BodiesStep(image, mods, d, i);
      OffsetStep(News(image, mods), i - 1);
    }
  }

  lemma {:induction false} BodiesAt(image: seq<Byte>, mods: Modules, d: nat, i: nat, j: nat)
    requires Ready(image, mods, d) && d < j < i <= |Olds(image)|
    ensures |Bodies(image, mods, d, j)| + Align16(News(image, mods)[j].size) <= |Bodies(image, mods, d, i)|
    ensures Bodies(image, mods, d, i)[|Bodies(image, mods, d, j)|..][..Align16(News(image, mods)[j].size)] ==
            Body(image, mods, d, j)
    decreases i
  {
    hide WellFormed, FitsWord, Offset, Directory, InRange, UpdateAll, Align16, Body, Bodies;
    BodiesStep(image, mods, d, i);
    if j < i - 1 {
      BodiesAt(image, mods, d, i - 1, j);
      var b, n := |Bodies(image, mods, d, j)|, Align16(News(image, mods)[j].size);
      assert Bodies(image, mods, d, i)[b..][..n] == Bodies(image, mods, d, i - 1)[b..][..n];
    }
  }

  lemma MemberAt(image: seq<Byte>, mods: Modules, d: nat, j: nat)
    requires Ready(image, mods, d) && d < j < |Olds(image)|
    ensures Offset(News(image, mods)[..j]) + Align16(News(image, mods)[j].size) <= |Patched(image, mods, d)|
    ensures Patched(image, mods, d)[Offset(News(image, mods)[..j])..][..Align16(News(image, mods)[j].size)] ==
            Body(image, mods, d, j)
  {
    hide WellFormed, FitsWord, Offset, Directory, InRange, UpdateAll, Align16, Body, Bodies, Table;
    var n, p := |Olds(image)|, Patched(image, mods, d);
    BodiesLength(image, mods, d, n);
    BodiesLength(image, mods, d, j);
    BodiesAt(image, mods, d, n, j);
    var a := Align16(Olds(image)[d].size);
    assert p[a..] == Bodies(image, mods, d, n);
    assert p[Offset(News(image, mods)[..j])..] == Bodies(image, mods, d, n)[|Bodies(image, mods, d, j)|..];
  }

  lemma SliceOfSlice(p: seq<Byte>, o: nat, n: nat, m: nat)
    requires o + n <= |p| && m <= n
    ensures p[o..][..n][..m] == p[o..o + m]
  {}

  lemma BodyStart(image: seq<Byte>, mods: Modules, d: nat, j: nat)
    requires Ready(image, mods, d) && j < |Olds(image)|
    ensures News(image, mods)[j].size <= |Body(image, mods, d, j)| && InRange(image, Olds(image), j)
    ensures Body(image, mods, d, j)[..News(image, mods)[j].size] == NewContents(image, mods, Olds(image), j)
  {
    hide WellFormed, FitsWord, Offset, Directory, Align16;
    OldEntry(image, d, j);
  }

  lemma EarlyContents(image: seq<Byte>, mods: Modules, d: nat, j: nat)
    requires Ready(image, mods, d) && j < d
    ensures Offset(News(image, mods)[..j]) == 0 && News(image, mods)[j].size == 0
  {
    EmptyBefore(News(image, mods), j);
  }

  /** Exactly the three named members have new contents: every member but the
      directory itself is extracted from the patched image as the module of its
      name, or as it was. */
  lemma PatchedContents(image: seq<Byte>, mods: Modules, d: nat, j: nat)
    requires Ready(image, mods, d) && j < |Directory(image, 0)| && j != d
    ensures InRange(image, Directory(image, 0), j)
    ensures InRange(Patched(image, mods, d), UpdateAll(Directory(image, 0), mods), j)
    ensures Extract(Patched(image, mods, d), UpdateAll(Directory(image, 0), mods), j) ==
            NewContents(image, mods, Directory(image, 0), j)
  {
    hide WellFormed, FitsWord, Offset, Directory, UpdateAll, Align16, Bodies, Table, Patched, NewContents;
    OldEntry(image, d, j);
    var p, o, s := Patched(image, mods, d), Offset(News(image, mods)[..j]), News(image, mods)[j].size;
    if j < d {
      EarlyContents(image, mods, d, j);
    } else {
      MemberAt(image, mods, d, j);
      SliceOfSlice(p, o, Align16(s), s);
      BodyStart(image, mods, d, j);
    }
  }

  lemma GapOfMember(image: seq<Byte>, mods: Modules, d: nat, j: nat, i: nat)
    requires Ready(image, mods, d) && j < |Olds(image)|
    requires News(image, mods)[j].size <= i < Align16(News(image, mods)[j].size)
    ensures Body(image, mods, d, j)[i] == 0
  {}

  lemma GapOfDirectory(image: seq<Byte>, mods: Modules, d: nat, i: nat)
    requires Ready(image, mods, d) && Olds(image)[d].size <= i < Align16(Olds(image)[d].size)
    ensures i < |Patched(image, mods, d)| && Patched(image, mods, d)[i] == 0
  {}

  /** The members tile the patched image at multiples of 16, and every gap is zero. */
  lemma PatchedGaps(image: seq<Byte>, mods: Modules, d: nat, j: nat, k: nat)
    requires Ready(image, mods, d) && j < |Directory(image, 0)|
    requires Offset(News(image, mods)[..j]) + News(image, mods)[j].size <= k < Offset(News(image, mods)[..j + 1])
    ensures Offset(News(image, mods)) == |Patched(image, mods, d)|
    ensures k < |Patched(image, mods, d)| && Patched(image, mods, d)[k] == 0
  {
    hide WellFormed, FitsWord, Offset, Directory, UpdateAll, Align16, Bodies, Table, Patched, NewContents, Body;
    var es, p := News(image, mods), Patched(image, mods, d);
    PatchedLength(image, mods, d);
    OffsetStep(es, j);
    var o := Offset(es[..j]);
    if j < d {
      EarlyContents(image, mods, d, j);
      AlignZero();
    } else if j == d {
      DirectoryFirst(image, mods, d);
      HeadKept(image, mods, d, d);
      GapOfDirectory(image, mods, d, k);
    } else {
      MemberAt(image, mods, d, j);
      GapOfMember(image, mods, d, j, k - o);
      assert p[k] == p[o..][..Align16(es[j].size)][k - o];
    }
  }

  lemma AlignZero()
    ensures Align16(0) == 0
  {}

  lemma PatchedLength(image: seq<Byte>, mods: Modules, d: nat)
    requires Ready(image, mods, d)
    ensures |Patched(image, mods, d)| == Offset(News(image, mods))
  {
    var n := |Olds(image)|;
    BodiesLength(image, mods, d, n);
    assert News(image, mods)[..n] == News(image, mods);
  }

  function Ascii(s: string): seq<Byte>
    requires forall i :: 0 <= i < |s| ==> s[i] < 256 as char
  {
    seq(|s|, i requires 0 <= i < |s| => s[i] as int)
  }

  lemma ModuleNames()
    ensures Ascii("CDVDMAN") == CDVDMAN && Ascii("CDVDFSV") == CDVDFSV && Ascii("EESYNC") == EESYNC
  {}

  /** Member by member: a member of one of the three names has the size and contents
      of the module given for it, every other member but the directory its old ones;
      names and EXTINFO sizes stay. */
  lemma PatchedMembers(image: seq<Byte>, mods: Modules, d: nat, j: nat)
    requires Ready(image, mods, d) && j < |Directory(image, 0)| && j != d
    ensures
      var es, p := Directory(image, 0), Patched(image, mods, d);
      var es' := Directory(p, 0);
      && |es'| == |es| && InRange(image, es, j) && InRange(p, es', j)
      && es'[j].name == es[j].name && es'[j].extInfo == es[j].extInfo
      && (es[j].name == CDVDMAN ==> Extract(p, es', j) == mods.cdvdman)
      && (es[j].name == CDVDFSV ==> Extract(p, es', j) == mods.cdvdfsv)
      && (es[j].name == EESYNC ==> Extract(p, es', j) == mods.eesync)
      && (es[j].name !in [CDVDMAN, CDVDFSV, EESYNC] ==> Extract(p, es', j) == Extract(image, es, j))
  {
    hide *;
    PatchedDirectory(image, mods, d);
    PatchedContents(image, mods, d, j);
    ContentsByName(image, mods, Directory(image, 0), j);
  }

  lemma ContentsByName(image: seq<Byte>, mods: Modules, es: seq<Entry>, j: nat)
    requires j < |es| && InRange(image, es, j)
    ensures es[j].name == CDVDMAN ==> NewContents(image, mods, es, j) == mods.cdvdman
    ensures es[j].name == CDVDFSV ==> NewContents(image, mods, es, j) == mods.cdvdfsv
    ensures es[j].name == EESYNC ==> NewContents(image, mods, es, j) == mods.eesync
    ensures es[j].name !in [CDVDMAN, CDVDFSV, EESYNC] ==> NewContents(image, mods, es, j) == Extract(image, es, j)
    ensures UpdateAll(es, mods)[j].name == es[j].name && UpdateAll(es, mods)[j].extInfo == es[j].extInfo
  {
    assert CDVDMAN[4] != CDVDFSV[4];
  }

  // ----- The result fits the buffer -----

  ghost predicate OneEach(es: seq<Entry>) {
    forall i, j :: 0 <= i < j < |es| && Replaced(es[i].name) ==> es[i].name != es[j].name
  }

  ghost predicate Names(es: seq<Entry>, name: seq<Byte>) {
    exists i :: 0 <= i < |es| && es[i].name == name
  }

  ghost function Spent(es: seq<Entry>, mods: Modules): nat {
    (if Names(es, CDVDMAN) then Align16(|mods.cdvdman|) else 0) +
    (if Names(es, CDVDFSV) then Align16(|mods.cdvdfsv|) else 0) +
    (if Names(es, EESYNC) then Align16(|mods.eesync|) else 0)
  }

  lemma NamesStep(es: seq<Entry>, e: Entry, name: seq<Byte>)
    ensures Names(es + [e], name) == (Names(es, name) || e.name == name)
  {
    if Names(es, name) {
      var i :| 0 <= i < |es| && es[i].name == name;
      assert (es + [e])[i].name == name;
    }
    assert (es + [e])[|es|] == e;
  }

  lemma SpentStep(es: seq<Entry>, e: Entry, mods: Modules)
    requires OneEach(es + [e])
    ensures Spent(es + [e], mods) >= Spent(es, mods)
    ensures Replaced(e.name) ==> Spent(es + [e], mods) == Spent(es, mods) + Align16(|Module(mods, e.name)|)
  {
    hide Names;
    NamesStep(es, e, CDVDMAN);
    NamesStep(es, e, CDVDFSV);
    NamesStep(es, e, EESYNC);
    FirstOfItsName(es, e);
  }

  lemma FirstOfItsName(es: seq<Entry>, e: Entry)
    requires OneEach(es + [e])
    ensures Replaced(e.name) ==> !Names(es, e.name)
  {
    var all := es + [e];
    assert forall i :: 0 <= i < |es| ==> all[i] == es[i];
    assert all[|es|] == e;
  }

  lemma {:induction false} GrowthIsSpent(es: seq<Entry>, mods: Modules)
    requires OneEach(es)
    ensures Offset(UpdateAll(es, mods)) <= Offset(es) + Spent(es, mods)
  {
    hide Spent;
    if es != [] {
      var n := |es| - 1;
      assert es == es[..n] + [es[n]];
      GrowthIsSpent(es[..n], mods);
      SpentStep(es[..n], es[n], mods);
      assert UpdateAll(es, mods)[..n] == UpdateAll(es[..n], mods);
    }
  }

  lemma SpentBound(es: seq<Entry>, mods: Modules)
    ensures Spent(es, mods) <= |mods.cdvdman| + |mods.cdvdfsv| + |mods.eesync| + 45
  {
    hide Names;
  }

  lemma OffsetIsAligned(es: seq<Entry>)
    ensures Offset(es) % 16 == 0
  {}

  /** With each replaced name at most once the result fits the buffer that is
      allocated for it, and its size is a multiple of 16. */
  lemma PatchedFits(image: seq<Byte>, mods: Modules, d: nat)
    requires Ready(image, mods, d) && OneEach(Directory(image, 0))
    ensures |Patched(image, mods, d)| <= BufferSize(image, mods)
    ensures |Patched(image, mods, d)| % 16 == 0
  {
    hide Patched, Directory, Offset, UpdateAll, Spent, FitsWord, Align16;
    var es, n := Olds(image), |Olds(image)|;
    PatchedLength(image, mods, d);
    GrowthIsSpent(es, mods);
    assert InRange(image, es, n - 1);
    OffsetStep(es, n - 1);
    assert es[..n] == es;
    SpentBound(es, mods);
    OffsetIsAligned(News(image, mods));
  }
}
