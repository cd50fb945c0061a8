/** The ROMDIR archive inside an IOPRP image (src/ioprp.c): how a reader walks it,
    and what the image with three members replaced must be. */
module IoprpFormat {
  import opened Bytes
  import opened Words

  const SLOT := 16
  const NAME := 10

  const CDVDMAN: seq<Byte> := [0x43, 0x44, 0x56, 0x44, 0x4D, 0x41, 0x4E]
  const CDVDFSV: seq<Byte> := [0x43, 0x44, 0x56, 0x44, 0x46, 0x53, 0x56]
  const EESYNC: seq<Byte> := [0x45, 0x45, 0x53, 0x59, 0x4E, 0x43]

  /** The modules that replace the members of the same names. */
  datatype Modules = Modules(cdvdman: seq<Byte>, cdvdfsv: seq<Byte>, eesync: seq<Byte>)

  /** One directory entry; a name has no NUL. */
  datatype Entry = Entry(name: seq<Byte>, extInfo: nat, size: nat)

  predicate Replaced(name: seq<Byte>) {
    name == CDVDMAN || name == CDVDFSV || name == EESYNC
  }

  function Module(mods: Modules, name: seq<Byte>): seq<Byte>
    requires Replaced(name)
  {
    if name == CDVDMAN then mods.cdvdman else if name == CDVDFSV then mods.cdvdfsv else mods.eesync
  }

  // ----- Reading an image -----

  function Align16(n: nat): (r: nat)
    ensures n <= r < n + 16 && r % 16 == 0
  {
    if n % 16 == 0 then n else (n + 15) / 16 * 16
  }

  /** The C string in a field. */
  function CString(field: seq<Byte>): (name: seq<Byte>)
    ensures |name| <= |field| && name == field[..|name|] && 0 !in name
    ensures |name| < |field| ==> field[|name|] == 0
  {
    if field == [] || field[0] == 0 then [] else [field[0]] + CString(field[1..])
  }

  function EntryOf(slot: seq<Byte>): Entry
    requires |slot| == SLOT
  {
    Entry(CString(slot[..NAME]), slot[10] + B * slot[11], UnpackU32(slot[12..]))
  }

  /** The fields of a slot: a name of up to 10 bytes, and two numbers that stand
      least significant byte first. */
  lemma EntryFields(slot: seq<Byte>)
    requires |slot| == SLOT
    ensures
      var e := EntryOf(slot);
      && |e.name| <= 10 && e.name == slot[..|e.name|] && 0 !in e.name && (|e.name| < 10 ==> slot[|e.name|] == 0)
      && e.extInfo == Value(slot[10..12]) && e.size == Value(slot[12..16])
  {
    ValueStep(slot[10..12]);
    ValueStep(slot[10..12][1..]);
    ValueFour(slot[12..16]);
    assert slot[12..] == slot[12..16];
  }

  function Slot(image: seq<Byte>, i: nat): (slot: seq<Byte>)
    requires SLOT * i + SLOT <= |image|
    ensures |slot| == SLOT
  {
    image[SLOT * i..SLOT * i + SLOT]
  }

  /** The entries from slot `i` to the one with an empty name. */
  function Directory(image: seq<Byte>, i: nat): seq<Entry>
    decreases |image| - SLOT * i
  {
    if |image| < SLOT * i + SLOT || image[SLOT * i] == 0 then []
    else [EntryOf(Slot(image, i))] + Directory(image, i + 1)
  }

  /** Where the member after these entries starts. */
  function Offset(es: seq<Entry>): (r: nat)
    ensures r % 16 == 0
  {
    if es == [] then 0 else Offset(es[..|es| - 1]) + Align16(es[|es| - 1].size)
  }

  predicate InRange(image: seq<Byte>, es: seq<Entry>, j: nat)
    requires j < |es|
  {
    Offset(es[..j]) + es[j].size <= |image|
  }

  /** The contents of member `j`. */
  function Extract(image: seq<Byte>, es: seq<Entry>, j: nat): seq<Byte>
    requires j < |es| && InRange(image, es, j)
  {
    image[Offset(es[..j])..Offset(es[..j]) + es[j].size]
  }

  lemma {:induction false} DirectorySlots(image: seq<Byte>, i: nat, k: nat)
    requires k < |Directory(image, i)|
    ensures SLOT * (i + k) + SLOT <= |image| && image[SLOT * (i + k)] != 0
    ensures Directory(image, i)[k] == EntryOf(Slot(image, i + k))
    decreases k
  {
    if k > 0 {
      DirectorySlots(image, i + 1, k - 1);
    }
  }

  lemma {:induction false} DirectoryStops(image: seq<Byte>, i: nat)
    ensures |image| < SLOT * (i + |Directory(image, i)|) + SLOT || image[SLOT * (i + |Directory(image, i)|)] == 0
    decreases |image| - SLOT * i
  {
    if |image| < SLOT * i + SLOT || image[SLOT * i] == 0 {
    } else {
      DirectoryStops(image, i + 1);
      assert i + |Directory(image, i)| == i + 1 + |Directory(image, i + 1)|;
    }
  }

  predicate SlotReads(image: seq<Byte>, es: seq<Entry>, k: nat)
    requires k < |es|
  {
    SLOT * k + SLOT <= |image| && image[SLOT * k] != 0 && EntryOf(Slot(image, k)) == es[k]
  }

  /** Slots that read as `es`, followed by an empty name, are the directory `es`. */
  lemma {:induction false} DirectoryIs(image: seq<Byte>, es: seq<Entry>, i: nat)
    requires SLOT * |es| + SLOT <= |image| && image[SLOT * |es|] == 0
    requires forall k: nat :: k < |es| ==> SlotReads(image, es, k)
    requires i <= |es|
    ensures Directory(image, i) == es[i..]
    decreases |es| - i
  {
    if i < |es| {
      assert SlotReads(image, es, i);
      DirectoryIs(image, es, i + 1);
    }
  }

  // ----- The image with three members replaced -----

  /** Entry `d` is the directory, the first member that is not empty; names end
      inside their field and members inside the image. */
  ghost predicate WellFormed(image: seq<Byte>, d: nat) {
    var es := Directory(image, 0);
    && d < |es| && SLOT * (|es| + 1) <= es[d].size && !Replaced(es[d].name)
    && (forall i :: 0 <= i < d ==> es[i].size == 0 && !Replaced(es[i].name))
    && (forall i :: 0 <= i < |es| ==> |es[i].name| < NAME && InRange(image, es, i))
  }

  /** Every 32-bit size below is exact. */
  ghost predicate FitsWord(image: seq<Byte>, mods: Modules) {
    BufferSize(image, mods) < WORD
  }

  /** The size that is allocated for the result (src/system.c). */
  function BufferSize(image: seq<Byte>, mods: Modules): nat {
    |image| + |mods.cdvdman| + |mods.cdvdfsv| + |mods.eesync| + 256
  }

  function Update(e: Entry, mods: Modules): Entry {
    if Replaced(e.name) then e.(size := |Module(mods, e.name)|) else e
  }

  function UpdateAll(es: seq<Entry>, mods: Modules): (r: seq<Entry>)
    ensures |r| == |es| && forall i :: 0 <= i < |es| ==> r[i] == Update(es[i], mods)
  {
    seq(|es|, i requires 0 <= i < |es| => Update(es[i], mods))
  }

  /** What member `j` holds afterwards. */
  function NewContents(image: seq<Byte>, mods: Modules, es: seq<Entry>, j: nat): (r: seq<Byte>)
    requires j < |es| && InRange(image, es, j)
    ensures |r| == Update(es[j], mods).size
  {
    if Replaced(es[j].name) then Module(mods, es[j].name) else Extract(image, es, j)
  }

  predicate Encodable(e: Entry) {
    0 < |e.name| < NAME && 0 !in e.name && e.extInfo < B * B && e.size < WORD
  }

  function Encode(e: Entry): (slot: seq<Byte>)
    requires Encodable(e)
    ensures |slot| == SLOT
  {
    e.name + Zeros(NAME - |e.name|) + PackU16(e.extInfo) + PackU32(e.size)
  }

  function EncodeAll(es: seq<Entry>): (slots: seq<Byte>)
    requires forall i :: 0 <= i < |es| ==> Encodable(es[i])
    ensures |slots| == SLOT * |es|
  {
    if es == [] then [] else EncodeAll(es[..|es| - 1]) + Encode(es[|es| - 1])
  }

  function Padded(contents: seq<Byte>): (r: seq<Byte>)
    ensures |r| == Align16(|contents|)
  {
    contents + Zeros(Align16(|contents|) - |contents|)
  }
}
