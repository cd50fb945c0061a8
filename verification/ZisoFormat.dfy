/** The ZSO container (pc/ziso.py): what a compressed image is made of, what the
    decompressor makes of it, and when the two are inverse. */
module ZisoFormat {
  import opened Options
  import opened Bytes
  import opened Words
  import opened Arithmetic

  /** A block codec: `decode` answers None where the library raises an error. */
  datatype Codec = Codec(compress: seq<Byte> -> seq<Byte>, decode: seq<Byte> -> Option<seq<Byte>>)

  /** `bs` is the block size, `threshold` the percentage from which a block is
      stored plain, `pad` the padding byte. */
  datatype Params = Params(codec: Codec, bs: nat, threshold: nat, pad: Byte)

  const MAGIC := 0x4F53495A
  const HEADER_SIZE := 24
  const VERSION := 1
  const FLAG := 0x8000_0000

  function Pow2(k: nat): (r: nat)
    ensures r > 0
  {
    if k == 0 then 1 else 2 * Pow2(k - 1)
  }

  /** Bit 31 of an index word. */
  predicate HasFlag(word: nat) {
    word / FLAG % 2 == 1
  }

  function Quot(a: nat, b: nat): nat
    requires b > 0
  {
    a / b
  }

  function SetFlag(word: nat): nat {
    if HasFlag(word) then word else word + FLAG
  }

  function ClearFlag(word: nat): nat {
    word % FLAG
  }

  /** The shift the compressor derives from the image size. */
  function AlignOf(total: nat): nat {
    total / FLAG
  }

  function AlignUp(pos: nat, unit: nat): (r: nat)
    requires unit > 0
    ensures pos <= r < pos + unit
  {
    if pos % unit != 0 then pos + (unit - pos % unit) else pos
  }

  lemma AlignUpMultiple(pos: nat, unit: nat)
    requires unit > 0
    ensures AlignUp(pos, unit) / unit * unit == AlignUp(pos, unit)
  {
    if pos % unit != 0 {
      assert pos == pos / unit * unit + pos % unit;
      assert AlignUp(pos, unit) == (pos / unit + 1) * unit;
      DivModIs(AlignUp(pos, unit), pos / unit + 1, 0, unit);
    }
  }

  function Pads(pad: Byte, n: nat): (r: seq<Byte>)
    ensures |r| == n
  {
    if n == 0 then [] else Pads(pad, n - 1) + [pad]
  }

  // ----- Layout -----

  predicate ValidParams(p: Params) {
    p.bs > 0
  }

  function BlockCount(p: Params, x: seq<Byte>): nat
    requires ValidParams(p)
  {
    Quot(|x|, p.bs)
  }

  lemma BlockFits(p: Params, x: seq<Byte>, i: nat)
    requires ValidParams(p) && i < BlockCount(p, x)
    ensures i * p.bs + p.bs <= |x|
  {
    var n := BlockCount(p, x);
    assert |x| == n * p.bs + |x| % p.bs;
    MulSub(n, i, p.bs);
    MulAtLeast(n - i, p.bs);
  }

  function Block(p: Params, x: seq<Byte>, i: nat): (b: seq<Byte>)
    requires ValidParams(p) && i < BlockCount(p, x)
    ensures |b| == p.bs
  {
    BlockFits(p, x, i);
    x[i * p.bs..i * p.bs + p.bs]
  }

  /** A block that does not shrink below the threshold is stored as it is. */
  predicate IsPlain(p: Params, x: seq<Byte>, i: nat)
    requires ValidParams(p) && i < BlockCount(p, x)
  {
    100 * |p.codec.compress(Block(p, x, i))| >= p.threshold * p.bs
  }

  function Stored(p: Params, x: seq<Byte>, i: nat): seq<Byte>
    requires ValidParams(p) && i < BlockCount(p, x)
  {
    if IsPlain(p, x, i) then Block(p, x, i) else p.codec.compress(Block(p, x, i))
  }

  function Unit(x: seq<Byte>): (u: nat)
    ensures u > 0
  {
    Pow2(AlignOf(|x|))
  }

  function DataStart(p: Params, x: seq<Byte>): nat
    requires ValidParams(p)
  {
    HEADER_SIZE + 4 * (BlockCount(p, x) + 1)
  }

  /** The write position after `k` blocks. */
  function PosAfter(p: Params, x: seq<Byte>, k: nat): nat
    requires ValidParams(p) && k <= BlockCount(p, x)
    decreases k, 0
  {
    if k == 0 then DataStart(p, x) else BlockPos(p, x, k - 1) + |Stored(p, x, k - 1)|
  }

  /** Where block `i` is stored. */
  function BlockPos(p: Params, x: seq<Byte>, i: nat): nat
    requires ValidParams(p) && i < BlockCount(p, x)
    decreases i, 1
  {
    AlignUp(PosAfter(p, x, i), Unit(x))
  }

  /** Everything after the index table, once `k` blocks are written. */
  function Body(p: Params, x: seq<Byte>, k: nat): seq<Byte>
    requires ValidParams(p) && k <= BlockCount(p, x)
  {
    if k == 0 then []
    else
      Body(p, x, k - 1)
      + Pads(p.pad, BlockPos(p, x, k - 1) - PosAfter(p, x, k - 1))
      + Stored(p, x, k - 1)
  }

  /** Entry `i` of the index table; the last entry marks the end of the data. */
  function IndexWord(p: Params, x: seq<Byte>, i: nat): nat
    requires ValidParams(p) && i <= BlockCount(p, x)
  {
    if i == BlockCount(p, x) then Quot(PosAfter(p, x, i), Unit(x))
    else
      var word := Quot(BlockPos(p, x, i), Unit(x));
      if IsPlain(p, x, i) then SetFlag(word) else word
  }

  /** The first `k` entries of the index table. */
  function IndexWords(p: Params, x: seq<Byte>, k: nat): (w: seq<nat>)
    requires ValidParams(p) && k <= BlockCount(p, x) + 1
    ensures |w| == k && forall i :: 0 <= i < k ==> w[i] == IndexWord(p, x, i)
  {
    if k == 0 then [] else IndexWords(p, x, k - 1) + [IndexWord(p, x, k - 1)]
  }

  /** The compressor gives up on a compressed block whose position needs bit 31. */
  predicate Accepted(p: Params, x: seq<Byte>, i: nat)
    requires ValidParams(p) && i < BlockCount(p, x)
  {
    IsPlain(p, x, i) || !HasFlag(Quot(BlockPos(p, x, i), Unit(x)))
  }

  /** Header, index and every field fit their widths, and no block is given up. */
  ghost predicate Encodable(p: Params, x: seq<Byte>)
    requires ValidParams(p)
  {
    && HeaderFits(p, x)
    && (forall i :: 0 <= i < BlockCount(p, x) ==> Accepted(p, x, i))
    && (forall i :: 0 <= i <= BlockCount(p, x) ==> IndexWord(p, x, i) < WORD)
  }

  predicate HeaderFits(p: Params, x: seq<Byte>) {
    |x| < WORD * WORD && p.bs < WORD && AlignOf(|x|) < 0x80
  }

  function Header(p: Params, x: seq<Byte>): (h: seq<Byte>)
    requires HeaderFits(p, x)
    ensures |h| == HEADER_SIZE
  {
    PackU32(MAGIC) + PackU32(HEADER_SIZE) + PackU64(|x|) + PackU32(p.bs) + [VERSION, AlignOf(|x|), 0, 0]
  }

  /** The compressed image; None where the compressor stops with an error. */
  ghost function Compressed(p: Params, x: seq<Byte>): Option<seq<Byte>>
    requires ValidParams(p)
  {
    if !Encodable(p, x) then None
    else
      var n := BlockCount(p, x);
      Some(Header(p, x) + PackTable(IndexWords(p, x, n + 1)) + Body(p, x, n))
  }

  // ----- Reading -----

  /** seek(pos) and read(size): a size of -1 reads to the end of the file, any
      other negative size is refused. */
  function ReadAt(file: seq<Byte>, pos: nat, size: int): Option<seq<Byte>> {
    if size < -1 then None
    else if pos > |file| then Some([])
    else if size == -1 || pos + size > |file| then Some(file[pos..])
    else Some(file[pos..pos + size])
  }

  /** Decodes, dropping bytes from the end until the codec accepts; None when it
      never does and the empty string is tried for ever. */
  function LongestDecodable(codec: Codec, data: seq<Byte>): Option<seq<Byte>> {
    var r := codec.decode(data);
    if r.Some? then r
    else if data == [] then None
    else LongestDecodable(codec, data[..|data| - 1])
  }

  /** struct format 'b'. */
  function SignedByte(b: Byte): int {
    if b < 0x80 then b else b - 0x100
  }

  datatype Fields = Fields(magic: nat, headerSize: nat, total: nat, bs: nat, ver: int, align: int)

  function ReadHeader(file: seq<Byte>): Fields
    requires |file| >= HEADER_SIZE
  {
    Fields(UnpackU32(file[0..4]), UnpackU32(file[4..8]), UnpackU64(file[8..16]), UnpackU32(file[16..20]),
           SignedByte(file[20]), SignedByte(file[21]))
  }

  function WordAt(file: seq<Byte>, i: nat): nat
    requires HEADER_SIZE + 4 * i + 4 <= |file|
  {
    UnpackU32(file[HEADER_SIZE + 4 * i..HEADER_SIZE + 4 * i + 4])
  }

  /** Block `i` of `n` of the image, or None. */
  function DecodeBlock(codec: Codec, file: seq<Byte>, f: Fields, n: nat, i: nat): (r: Option<seq<Byte>>)
    requires i < n && HEADER_SIZE + 4 * (n + 1) <= |file|
    ensures r.Some? ==> |r.value| == f.bs
  {
    if f.align < 0 then None
    else
      var data := ReadAt(file, ReadPos(file, f, i), ReadSize(file, f, n, i));
      if data == None then None else Unpacked(codec, HasFlag(WordAt(file, i)), data.value, f.bs)
  }

  /** A stored block as an image block of `bs` bytes, or None. */
  function Unpacked(codec: Codec, plain: bool, data: seq<Byte>, bs: nat): (r: Option<seq<Byte>>)
    ensures r.Some? ==> |r.value| == bs
  {
    var dec := if plain then Some(data) else LongestDecodable(codec, data);
    if dec.Some? && |dec.value| == bs then dec else None
  }

  function ReadPos(file: seq<Byte>, f: Fields, i: nat): nat
    requires HEADER_SIZE + 4 * i + 4 <= |file| && f.align >= 0
  {
    Mul(ClearFlag(WordAt(file, i)), Pow2(f.align))
  }

  /** How many bytes to read for block `i`; for a compressed last block, up to the size of the image. */
  function ReadSize(file: seq<Byte>, f: Fields, n: nat, i: nat): int
    requires i < n && HEADER_SIZE + 4 * (n + 1) <= |file| && f.align >= 0
  {
    if HasFlag(WordAt(file, i)) then f.bs
    else if i == n - 1 then f.total - ReadPos(file, f, i)
    else (ClearFlag(WordAt(file, i + 1)) - ClearFlag(WordAt(file, i))) * Pow2(f.align)
  }

  function Mul(a: nat, b: nat): nat {
    a * b
  }

  /** The first `k` blocks of the image, or None when one of them fails. */
  function DecodeBlocks(codec: Codec, file: seq<Byte>, f: Fields, n: nat, k: nat): (r: Option<seq<Byte>>)
    requires k <= n && HEADER_SIZE + 4 * (n + 1) <= |file|
  {
    if k == 0 then Some([])
    else
      var before := DecodeBlocks(codec, file, f, n, k - 1);
      var block := DecodeBlock(codec, file, f, n, k - 1);
      if before.None? || block.None? then None else Some(before.value + block.value)
  }

  predicate HeaderOk(f: Fields) {
    f.magic == MAGIC && f.bs != 0 && f.total != 0 && f.headerSize == HEADER_SIZE && f.ver <= 1
  }

  function Decompressed(codec: Codec, file: seq<Byte>): Option<seq<Byte>> {
    if |file| < HEADER_SIZE then None
    else
      var f := ReadHeader(file);
      if !HeaderOk(f) then None
      else
        var n := Quot(f.total, f.bs);
        if |file| < HEADER_SIZE + 4 * (n + 1) then None
        else DecodeBlocks(codec, file, f, n, n)
  }
}
