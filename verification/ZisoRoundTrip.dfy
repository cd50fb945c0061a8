/** Compressing and decompressing an image with pc/ziso.py: the exact condition
    under which the blocks come back. */
module ZisoRoundTrip {
  import opened Options
  import opened Bytes
  import opened Words
  import opened Arithmetic
  import opened ZisoFormat

  // ----- The parts of a compressed image -----

  lemma {:induction false} BodyLength(p: Params, x: seq<Byte>, k: nat)
    requires ValidParams(p) && k <= BlockCount(p, x)
    ensures DataStart(p, x) <= PosAfter(p, x, k)
    ensures |Body(p, x, k)| == PosAfter(p, x, k) - DataStart(p, x)
  {
    if k > 0 {
      BodyLength(p, x, k - 1);
    }
  }

  /** What is written stays written. */
  lemma {:induction false} BodyGrows(p: Params, x: seq<Byte>, k: nat, m: nat)
    requires ValidParams(p) && k <= m <= BlockCount(p, x)
    ensures Body(p, x, k) <= Body(p, x, m)
    decreases m
  {
    if k < m {
      BodyGrows(p, x, k, m - 1);
      assert Body(p, x, m - 1) <= Body(p, x, m);
    }
  }

  function Head(p: Params, x: seq<Byte>): (h: seq<Byte>)
    requires ValidParams(p) && HeaderFits(p, x)
    requires forall i :: 0 <= i <= BlockCount(p, x) ==> IndexWord(p, x, i) < WORD
    ensures |h| == DataStart(p, x)
  {
    Header(p, x) + PackTable(IndexWords(p, x, BlockCount(p, x) + 1))
  }

  lemma ImageParts(p: Params, x: seq<Byte>)
    requires ValidParams(p) && Encodable(p, x)
    ensures Compressed(p, x).Some?
    ensures
      var file := Compressed(p, x).value;
      && file == Head(p, x) + Body(p, x, BlockCount(p, x))
      && |file| == PosAfter(p, x, BlockCount(p, x))
  {
    BodyLength(p, x, BlockCount(p, x));
  }

  lemma BodyStep(p: Params, x: seq<Byte>, i: nat)
    requires ValidParams(p) && i < BlockCount(p, x)
    ensures PosAfter(p, x, i) <= BlockPos(p, x, i)
    ensures Body(p, x, i + 1) ==
            Body(p, x, i) + Pads(p.pad, BlockPos(p, x, i) - PosAfter(p, x, i)) + Stored(p, x, i)
    ensures PosAfter(p, x, i + 1) == BlockPos(p, x, i) + |Stored(p, x, i)|
  {}

  /** Block `i` stands at its position, after its padding. */
  lemma StoredAt(p: Params, x: seq<Byte>, i: nat)
    requires ValidParams(p) && Encodable(p, x) && i < BlockCount(p, x)
    ensures
      var file := Compressed(p, x).value;
      && PosAfter(p, x, i) <= BlockPos(p, x, i) <= PosAfter(p, x, i + 1) <= |file|
      && file[BlockPos(p, x, i)..PosAfter(p, x, i + 1)] == Stored(p, x, i)
      && file[PosAfter(p, x, i)..BlockPos(p, x, i)] == Pads(p.pad, BlockPos(p, x, i) - PosAfter(p, x, i))
  {
    hide Compressed, Head, Body, PosAfter, BlockPos, Stored, Pads, BlockCount;
    var n := BlockCount(p, x);
    ImageParts(p, x);
    BodyStep(p, x, i);
    var file, start := Compressed(p, x).value, DataStart(p, x);
    var body := Body(p, x, n);
    var before, pads, stored := Body(p, x, i), Pads(p.pad, BlockPos(p, x, i) - PosAfter(p, x, i)), Stored(p, x, i);
    BodyLength(p, x, n);
    BodyLength(p, x, i);
    BodyLength(p, x, i + 1);
    BodyGrows(p, x, i + 1, n);
    MiddleParts(Head(p, x), before, pads, stored, body);
    assert start + |before| == PosAfter(p, x, i);
    assert start + |before| + |pads| == BlockPos(p, x, i);
    assert PosAfter(p, x, i + 1) == BlockPos(p, x, i) + |stored|;
  }

  lemma MiddleParts(head: seq<Byte>, a: seq<Byte>, b: seq<Byte>, c: seq<Byte>, body: seq<Byte>)
    requires a + b + c <= body
    ensures
      var at := |head| + |a|;
      && at + |b| + |c| <= |head| + |body|
      && (head + body)[at..at + |b|] == b
      && (head + body)[at + |b|..at + |b| + |c|] == c
  {
    var abc := a + b + c;
    assert body == abc + body[|abc|..];
    assert head + body == head + a + b + c + body[|abc|..];
  }

  /** The index table reads back. */
  lemma WordsReadBack(p: Params, x: seq<Byte>, i: nat)
    requires ValidParams(p) && Encodable(p, x) && i <= BlockCount(p, x)
    ensures |Compressed(p, x).value| >= HEADER_SIZE + 4 * i + 4
    ensures WordAt(Compressed(p, x).value, i) == IndexWord(p, x, i)
  {
    var n := BlockCount(p, x);
    var words := IndexWords(p, x, n + 1);
    var table, header, body := PackTable(words), Header(p, x), Body(p, x, n);
    PackTableAt(words, i);
    UnpackPackU32(words[i]);
    SliceOfMiddle(header, table, body, 4 * i, 4 * i + 4);
  }

  lemma SliceOfMiddle(a: seq<Byte>, b: seq<Byte>, c: seq<Byte>, from: nat, to: nat)
    requires from <= to <= |b|
    ensures (a + b + c)[|a| + from..|a| + to] == b[from..to]
  {}

  ghost function FieldsOf(p: Params, x: seq<Byte>): Fields {
    Fields(MAGIC, HEADER_SIZE, |x|, p.bs, VERSION, AlignOf(|x|))
  }

  /** The header reads back. */
  lemma HeaderReadsBack(p: Params, x: seq<Byte>)
    requires ValidParams(p) && Encodable(p, x)
    ensures |Compressed(p, x).value| >= HEADER_SIZE
    ensures ReadHeader(Compressed(p, x).value) == FieldsOf(p, x)
  {
    var file := Compressed(p, x).value;
    var rest := PackTable(IndexWords(p, x, BlockCount(p, x) + 1)) + Body(p, x, BlockCount(p, x));
    assert file == Header(p, x) + rest;
    UnpackPackU32(MAGIC);
    UnpackPackU32(HEADER_SIZE);
    UnpackPackU64(|x|);
    UnpackPackU32(p.bs);
    HeaderSlices(PackU32(MAGIC), PackU32(HEADER_SIZE), PackU64(|x|), PackU32(p.bs), [VERSION, AlignOf(|x|), 0, 0],
                 rest);
  }

  lemma HeaderSlices(a: seq<Byte>, b: seq<Byte>, c: seq<Byte>, d: seq<Byte>, e: seq<Byte>, rest: seq<Byte>)
    requires |a| == |b| == |d| == |e| == 4 && |c| == 8
    ensures
      var file := a + b + c + d + e + rest;
      && file[0..4] == a && file[4..8] == b && file[8..16] == c && file[16..20] == d
      && file[20] == e[0] && file[21] == e[1]
  {}

  /** The first bytes of a file are those of the text ZISO; header fields and index
      entries stand least significant byte first. */
  lemma FileLayout(p: Params, x: seq<Byte>, i: nat)
    requires ValidParams(p) && Encodable(p, x) && i <= BlockCount(p, x)
    ensures Compressed(p, x).Some? && |Compressed(p, x).value| >= HEADER_SIZE + 4 * i + 4
    ensures
      var file := Compressed(p, x).value;
      && file[0] == 'Z' as int && file[1] == 'I' as int && file[2] == 'S' as int && file[3] == 'O' as int
      && Value(file[4..8]) == 24 && Value(file[8..16]) == |x| && Value(file[16..20]) == p.bs
      && file[20] == 1 && file[21] == |x| / 0x8000_0000
      && Value(file[24 + 4 * i..28 + 4 * i]) == IndexWord(p, x, i)
  {
    hide Encodable, PackTable, IndexWords, IndexWord, Body, BlockCount;
    var file := Compressed(p, x).value;
    HeaderReadsBack(p, x);
    WordsReadBack(p, x, i);
    ValueFour(file[0..4]);
    ValueFour(file[4..8]);
    ValueEight(file[8..16]);
    ValueFour(file[16..20]);
    ValueFour(file[24 + 4 * i..28 + 4 * i]);
    MagicIsText(file[0..4]);
    HeaderTail(p, x);
  }

  lemma MagicIsText(b: seq<Byte>)
    requires |b| == 4 && UnpackU32(b) == MAGIC
    ensures b[0] == 'Z' as int && b[1] == 'I' as int && b[2] == 'S' as int && b[3] == 'O' as int
  {}

  lemma HeaderTail(p: Params, x: seq<Byte>)
    requires ValidParams(p) && Encodable(p, x)
    ensures Compressed(p, x).Some? && |Compressed(p, x).value| >= HEADER_SIZE
    ensures Compressed(p, x).value[20] == VERSION && Compressed(p, x).value[21] == AlignOf(|x|)
  {
    var rest := PackTable(IndexWords(p, x, BlockCount(p, x) + 1)) + Body(p, x, BlockCount(p, x));
    assert Compressed(p, x).value == Header(p, x) + rest;
    HeaderSlices(PackU32(MAGIC), PackU32(HEADER_SIZE), PackU64(|x|), PackU32(p.bs), [VERSION, AlignOf(|x|), 0, 0],
                 rest);
  }

  /** Which headers are accepted: the text ZISO, a header of 24 bytes, sizes that are
      not zero, and a signed version byte of at most 1. */
  lemma HeaderOkIff(file: seq<Byte>)
    requires |file| >= HEADER_SIZE
    ensures HeaderOk(ReadHeader(file)) <==>
            && file[0] == 'Z' as int && file[1] == 'I' as int && file[2] == 'S' as int && file[3] == 'O' as int
            && Value(file[4..8]) == 24 && Value(file[8..16]) != 0 && Value(file[16..20]) != 0
            && (file[20] <= 1 || file[20] >= 0x80)
  {
    ValueFour(file[4..8]);
    ValueEight(file[8..16]);
    ValueFour(file[16..20]);
    MagicIff(file[0..4]);
  }

  lemma MagicIff(b: seq<Byte>)
    requires |b| == 4
    ensures UnpackU32(b) == MAGIC <==>
            b[0] == 'Z' as int && b[1] == 'I' as int && b[2] == 'S' as int && b[3] == 'O' as int
  {
    if UnpackU32(b) == MAGIC {
      MagicIsText(b);
    }
  }

  /** Nothing else is decompressed: a file that gives an image begins like that, with
      sizes that are not zero and a version of at most 1. */
  lemma OnlyZisoIsRead(codec: Codec, file: seq<Byte>)
    requires Decompressed(codec, file).Some?
    ensures |file| >= HEADER_SIZE
    ensures file[0] == 'Z' as int && file[1] == 'I' as int && file[2] == 'S' as int && file[3] == 'O' as int
    ensures Value(file[4..8]) == 24 && Value(file[8..16]) != 0 && Value(file[16..20]) != 0
    ensures file[20] <= 1 || file[20] >= 0x80
    ensures |Decompressed(codec, file).value| == Value(file[8..16]) / Value(file[16..20]) * Value(file[16..20])
  {
    HeaderOkIff(file);
    ValueEight(file[8..16]);
    ValueFour(file[16..20]);
    var f := ReadHeader(file);
    WholeBlocksRead(codec, file, f, Quot(f.total, f.bs), Quot(f.total, f.bs));
  }

  lemma {:induction false} WholeBlocksRead(codec: Codec, file: seq<Byte>, f: Fields, n: nat, k: nat)
    requires k <= n && HEADER_SIZE + 4 * (n + 1) <= |file| && DecodeBlocks(codec, file, f, n, k).Some?
    ensures |DecodeBlocks(codec, file, f, n, k).value| == k * f.bs
  {
    hide DecodeBlock;
    if k > 0 {
      WholeBlocksRead(codec, file, f, n, k - 1);
      assert (k - 1) * f.bs + f.bs == k * f.bs;
    }
  }

  /** The library's answer for the longest prefix it accepts. */
  lemma {:induction false} LongestIs(codec: Codec, data: seq<Byte>, r: Option<seq<Byte>>)
    ensures LongestDecodable(codec, data) == r <==>
            if r == None then forall k :: 0 <= k <= |data| ==> codec.decode(data[..k]) == None
            else exists k :: 0 <= k <= |data| && codec.decode(data[..k]) == r &&
                   forall j :: k < j <= |data| ==> codec.decode(data[..j]) == None
    decreases |data|
  {
    var n := |data|;
    assert data[..n] == data;
    if codec.decode(data).None? && n > 0 {
      var shorter := data[..n - 1];
      LongestIs(codec, shorter, r);
      assert forall k :: 0 <= k <= n - 1 ==> shorter[..k] == data[..k];
    }
  }

  // ----- Positions -----

  /** The position of block `i` needs bit 31 of its index entry. */
  predicate Wraps(p: Params, x: seq<Byte>, i: nat)
    requires ValidParams(p) && i < BlockCount(p, x)
  {
    Quot(BlockPos(p, x, i), Unit(x)) >= FLAG
  }

  /** Every index entry leaves bit 31 to the plain mark. */
  ghost predicate IndexSmall(p: Params, x: seq<Byte>)
    requires ValidParams(p)
  {
    forall i :: 0 <= i < BlockCount(p, x) ==> !Wraps(p, x, i)
  }

  /** Where the decompressor looks for block `i`. */
  function ReadStart(p: Params, x: seq<Byte>, i: nat): (pos: nat)
    requires ValidParams(p) && i < BlockCount(p, x)
  {
    if Wraps(p, x, i) then
      WrapFits(BlockPos(p, x, i), Unit(x));
      BlockPos(p, x, i) - Mul(FLAG, Unit(x))
    else BlockPos(p, x, i)
  }

  lemma WrapFits(pos: nat, unit: nat)
    requires unit > 0 && Quot(pos, unit) >= FLAG
    ensures Mul(FLAG, unit) <= pos
  {
    MulMonotone(FLAG, Quot(pos, unit), unit);
    assert pos == Quot(pos, unit) * unit + pos % unit;
  }

  /** A position survives the index exactly when it is aligned and leaves bit 31 free. */
  lemma IndexKeepsPosition(pos: nat, unit: nat, plain: bool)
    requires unit > 0
    ensures
      var word := Quot(pos, unit);
      ClearFlag(if plain then SetFlag(word) else word) * unit == pos <==> pos % unit == 0 && word < FLAG
  {
    var word := Quot(pos, unit);
    var kept := ClearFlag(if plain then SetFlag(word) else word);
    assert pos == word * unit + pos % unit;
    assert kept == word % FLAG;
    if kept < word {
      MulSub(word, kept, unit);
      MulAtLeast(word - kept, unit);
    }
  }

  /** The decompressor looks for a block where the compressor put it, unless its
      position needs bit 31: such a block is stored plain, its mark takes the
      place of the position bit, and it is looked for 2^31 units too early. */
  lemma ReadsAtPosition(p: Params, x: seq<Byte>, i: nat)
    requires ValidParams(p) && Encodable(p, x) && i < BlockCount(p, x)
    ensures
      var file := Compressed(p, x).value;
      && |file| >= HEADER_SIZE + 4 * i + 4
      && ReadPos(file, FieldsOf(p, x), i) == Mul(ClearFlag(WordAt(file, i)), Unit(x)) == ReadStart(p, x, i)
      && (HasFlag(WordAt(file, i)) <==> IsPlain(p, x, i))
      && (Wraps(p, x, i) ==> IsPlain(p, x, i))
  {
    hide Compressed, BlockPos, PosAfter, IsPlain, WordAt, HasFlag, SetFlag, ClearFlag;
    var pos := BlockPos(p, x, i);
    WordsReadBack(p, x, i);
    AlignUpMultiple(PosAfter(p, x, i), Unit(x));
    BlockPosIs(p, x, i);
    assert Accepted(p, x, i) && IndexWord(p, x, i) < WORD;
    IndexDecodes(pos, Unit(x), IsPlain(p, x, i));
  }

  lemma BlockPosIs(p: Params, x: seq<Byte>, i: nat)
    requires ValidParams(p) && i < BlockCount(p, x)
    ensures BlockPos(p, x, i) == AlignUp(PosAfter(p, x, i), Unit(x))
  {}

  lemma IndexDecodes(pos: nat, unit: nat, plain: bool)
    requires unit > 0 && Mul(Quot(pos, unit), unit) == pos
    requires plain || !HasFlag(Quot(pos, unit))
    requires (if plain then SetFlag(Quot(pos, unit)) else Quot(pos, unit)) < WORD
    ensures
      var word := if plain then SetFlag(Quot(pos, unit)) else Quot(pos, unit);
      && Mul(ClearFlag(word), unit) == (if Quot(pos, unit) < FLAG then pos else pos - Mul(FLAG, unit))
      && (HasFlag(word) <==> plain)
      && (Quot(pos, unit) >= FLAG ==> plain)
  {
    hide Quot;
    ClearedWord(Quot(pos, unit), plain);
    if Quot(pos, unit) >= FLAG {
      MulSub(Quot(pos, unit), FLAG, unit);
    }
  }

  lemma ClearedWord(word: nat, plain: bool)
    requires (plain || !HasFlag(word)) && (if plain then SetFlag(word) else word) < WORD
    ensures
      var w := if plain then SetFlag(word) else word;
      ClearFlag(w) == (if word < FLAG then word else word - FLAG) && (HasFlag(w) <==> plain)
    ensures word >= FLAG ==> plain
  {}

  // ----- The codec -----

  /** What the decompressor needs of its codec: decoding inverts compressing, and
      padding after the compressed bytes is either rejected or ignored. */
  ghost predicate Sound(p: Params) {
    forall b: seq<Byte>, k: nat :: |b| == p.bs ==> Recovers(p, b, k)
  }

  ghost predicate Recovers(p: Params, b: seq<Byte>, k: nat) {
    var r := p.codec.decode(p.codec.compress(b) + Pads(p.pad, k));
    (k == 0 ==> r == Some(b)) && (r == None || r == Some(b))
  }

  /** Compressed bytes cut short never decode to their block. */
  ghost predicate RejectsCuts(p: Params) {
    forall b: seq<Byte>, k: nat :: |b| == p.bs && k < |p.codec.compress(b)| ==> CutFails(p, b, k)
  }

  ghost predicate CutFails(p: Params, b: seq<Byte>, k: nat)
    requires k < |p.codec.compress(b)|
  {
    p.codec.decode(p.codec.compress(b)[..k]) != Some(b)
  }

  /** Dropping bytes until the codec accepts removes exactly the padding. */
  lemma {:induction false} TrimsPadding(p: Params, b: seq<Byte>, k: nat)
    requires Sound(p) && |b| == p.bs
    ensures LongestDecodable(p.codec, p.codec.compress(b) + Pads(p.pad, k)) == Some(b)
  {
    var z := p.codec.compress(b);
    var data := z + Pads(p.pad, k);
    assert Recovers(p, b, k);
    if k == 0 {
      assert data == z;
    } else {
      TrimsPadding(p, b, k - 1);
      assert data[..|data| - 1] == z + Pads(p.pad, k - 1);
    }
  }

  /** Dropping bytes from compressed bytes already cut short does not help. */
  lemma {:induction false} CutStaysLost(p: Params, b: seq<Byte>, k: nat)
    requires RejectsCuts(p) && |b| == p.bs && k < |p.codec.compress(b)|
    ensures LongestDecodable(p.codec, p.codec.compress(b)[..k]) != Some(b)
  {
    var z := p.codec.compress(b);
    assert CutFails(p, b, k);
    if k > 0 {
      assert z[..k][..k - 1] == z[..k - 1];
      CutStaysLost(p, b, k - 1);
    }
  }

  // ----- Blocks -----

  ghost predicate Written(p: Params, x: seq<Byte>) {
    ValidParams(p) && Encodable(p, x) && IndexSmall(p, x)
  }

  /** `file` holds block `i` at its position, and its index entry leads to ReadStart. */
  ghost predicate Holds(p: Params, x: seq<Byte>, file: seq<Byte>, i: nat)
    requires ValidParams(p) && i < BlockCount(p, x)
  {
    var at, end := BlockPos(p, x, i), PosAfter(p, x, i + 1);
    && DataStart(p, x) <= |file|
    && (HasFlag(WordAt(file, i)) <==> IsPlain(p, x, i))
    && Mul(ClearFlag(WordAt(file, i)), Unit(x)) == ReadStart(p, x, i)
    && (Wraps(p, x, i) ==> IsPlain(p, x, i))
    && PosAfter(p, x, i) <= at <= end <= |file|
    && file[PosAfter(p, x, i)..at] == Pads(p.pad, at - PosAfter(p, x, i))
    && file[at..end] == Stored(p, x, i)
  }

  ghost predicate Image(p: Params, x: seq<Byte>, file: seq<Byte>) {
    && ValidParams(p)
    && |file| == PosAfter(p, x, BlockCount(p, x)) >= DataStart(p, x)
    && forall i :: 0 <= i < BlockCount(p, x) ==> Holds(p, x, file, i)
  }

  lemma CompressedIsImage(p: Params, x: seq<Byte>)
    requires ValidParams(p) && Encodable(p, x)
    ensures Image(p, x, Compressed(p, x).value)
  {
    ImageParts(p, x);
    hide Compressed;
    BodyLength(p, x, BlockCount(p, x));
    forall i | 0 <= i < BlockCount(p, x) ensures Holds(p, x, Compressed(p, x).value, i) {
      ReadsAtPosition(p, x, i);
      StoredAt(p, x, i);
    }
  }

  ghost function Decoded(p: Params, x: seq<Byte>, file: seq<Byte>, i: nat): Option<seq<Byte>>
    requires Image(p, x, file) && i < BlockCount(p, x)
  {
    DecodeBlock(p.codec, file, FieldsOf(p, x), BlockCount(p, x), i)
  }

  lemma LeadsThere(p: Params, x: seq<Byte>, file: seq<Byte>, i: nat)
    requires Image(p, x, file) && i < BlockCount(p, x)
    ensures DataStart(p, x) <= |file|
    ensures HasFlag(WordAt(file, i)) <==> IsPlain(p, x, i)
    ensures Mul(ClearFlag(WordAt(file, i)), Unit(x)) == ReadStart(p, x, i)
    ensures !IsPlain(p, x, i) ==> ReadStart(p, x, i) == BlockPos(p, x, i)
  {
    hide BlockPos, PosAfter, IsPlain, BlockCount;
    assert Holds(p, x, file, i);
  }

  /** What the decompressor reads and unpacks for block `i`. */
  lemma BlockRead(p: Params, x: seq<Byte>, file: seq<Byte>, i: nat)
    requires Image(p, x, file) && i < BlockCount(p, x)
    ensures
      var n := BlockCount(p, x);
      var size := ReadSize(file, FieldsOf(p, x), n, i);
      var data := ReadAt(file, ReadStart(p, x, i), size);
      && Decoded(p, x, file, i) ==
         (if data == None then None else Unpacked(p.codec, IsPlain(p, x, i), data.value, p.bs))
      && (IsPlain(p, x, i) ==> size == p.bs)
      && (!IsPlain(p, x, i) && i + 1 == n ==> size == |x| - BlockPos(p, x, i))
      && (!IsPlain(p, x, i) && i + 1 < n ==> size == ReadStart(p, x, i + 1) - BlockPos(p, x, i))
      && (!IsPlain(p, x, i) ==> ReadStart(p, x, i) == BlockPos(p, x, i))
  {
    hide Holds, BlockPos, PosAfter, ReadStart, Wraps, IsPlain, Unpacked, ReadAt;
    LeadsThere(p, x, file, i);
    if !IsPlain(p, x, i) && i + 1 < BlockCount(p, x) {
      LeadsThere(p, x, file, i + 1);
      MulSub(ClearFlag(WordAt(file, i + 1)), ClearFlag(WordAt(file, i)), Unit(x));
    }
  }

  lemma ReadInside(file: seq<Byte>, pos: nat, size: nat)
    requires pos + size <= |file|
    ensures ReadAt(file, pos, size) == Some(file[pos..pos + size])
  {}

  /** A plain block whose position was lost, and whose bytes do not happen to
      stand where it is looked for. */
  ghost predicate Misread(p: Params, x: seq<Byte>, file: seq<Byte>, i: nat)
    requires ValidParams(p) && i < BlockCount(p, x)
  {
    Wraps(p, x, i) && ReadAt(file, ReadStart(p, x, i), p.bs) != Some(Block(p, x, i))
  }

  /** A plain block comes back exactly when it is not misread. */
  lemma PlainBlockDecodes(p: Params, x: seq<Byte>, file: seq<Byte>, i: nat)
    requires Image(p, x, file) && i < BlockCount(p, x) && IsPlain(p, x, i)
    ensures Decoded(p, x, file, i) == Some(Block(p, x, i)) <==> !Misread(p, x, file, i)
  {
    hide Holds, Decoded, BlockPos, Block, PosAfter, BlockCount;
    BlockRead(p, x, file, i);
    PlainStored(p, x, file, i);
    ReadInside(file, ReadStart(p, x, i), p.bs);
  }

  lemma PlainStored(p: Params, x: seq<Byte>, file: seq<Byte>, i: nat)
    requires Image(p, x, file) && i < BlockCount(p, x) && IsPlain(p, x, i)
    ensures ReadStart(p, x, i) + p.bs <= BlockPos(p, x, i) + p.bs <= |file|
    ensures file[BlockPos(p, x, i)..BlockPos(p, x, i) + p.bs] == Block(p, x, i)
  {
    assert Holds(p, x, file, i);
  }

  lemma Join(file: seq<Byte>, a: nat, b: nat, c: nat)
    requires a <= b <= c <= |file|
    ensures file[a..c] == file[a..b] + file[b..c]
  {}

  /** The bytes between the positions of two neighbouring blocks: the stored
      block and the padding of the next. */
  lemma Span(p: Params, x: seq<Byte>, file: seq<Byte>, i: nat)
    requires Image(p, x, file) && i + 1 < BlockCount(p, x)
    ensures BlockPos(p, x, i) <= PosAfter(p, x, i + 1) <= BlockPos(p, x, i + 1) <= |file|
    ensures file[BlockPos(p, x, i)..BlockPos(p, x, i + 1)] ==
            Stored(p, x, i) + Pads(p.pad, BlockPos(p, x, i + 1) - PosAfter(p, x, i + 1))
  {
    assert Holds(p, x, file, i) && Holds(p, x, file, i + 1);
    Join(file, BlockPos(p, x, i), PosAfter(p, x, i + 1), BlockPos(p, x, i + 1));
  }

  lemma InnerBytes(p: Params, x: seq<Byte>, file: seq<Byte>, i: nat) returns (k: nat)
    requires Image(p, x, file) && i + 1 < BlockCount(p, x) && !IsPlain(p, x, i) && !Wraps(p, x, i + 1)
    ensures Decoded(p, x, file, i) ==
            Unpacked(p.codec, false, p.codec.compress(Block(p, x, i)) + Pads(p.pad, k), p.bs)
  {
    hide Holds, Decoded, Unpacked, ReadAt, ReadSize, BlockPos, PosAfter, Stored, Pads, IsPlain, Block, BlockCount;
    BlockRead(p, x, file, i);
    Span(p, x, file, i);
    StoredPacked(p, x, i);
    ReadInside(file, BlockPos(p, x, i), BlockPos(p, x, i + 1) - BlockPos(p, x, i));
    k := BlockPos(p, x, i + 1) - PosAfter(p, x, i + 1);
  }

  lemma StoredPacked(p: Params, x: seq<Byte>, i: nat)
    requires ValidParams(p) && i < BlockCount(p, x) && !IsPlain(p, x, i)
    ensures Stored(p, x, i) == p.codec.compress(Block(p, x, i))
  {}

  lemma InnerBlockDecodes(p: Params, x: seq<Byte>, file: seq<Byte>, i: nat)
    requires Image(p, x, file) && Sound(p) && i + 1 < BlockCount(p, x) && !IsPlain(p, x, i) && !Wraps(p, x, i + 1)
    ensures Decoded(p, x, file, i) == Some(Block(p, x, i))
  {
    var k := InnerBytes(p, x, file, i);
    TrimsPadding(p, Block(p, x, i), k);
  }

  lemma Pow2Grows(k: nat)
    ensures Pow2(k) >= k + 1
  {}

  /** 2^31 units are more than the image. */
  lemma FlagExceedsImage(x: seq<Byte>)
    ensures |x| < Mul(FLAG, Unit(x))
  {
    var k := AlignOf(|x|);
    Pow2Grows(k);
    MulMonotone(k + 1, Pow2(k), FLAG);
  }

  lemma TwoBlocks(p: Params, x: seq<Byte>, i: nat)
    requires ValidParams(p) && i + 1 < BlockCount(p, x)
    ensures 2 * p.bs <= |x|
  {
    BlockFits(p, x, i + 1);
    MulAtLeast(i + 1, p.bs);
  }

  lemma UnitIsSmall(unit: nat)
    ensures 2 * unit <= Mul(FLAG, unit)
  {}

  /** The compressed block `i` stands directly before a block whose position needs bit 31. */
  predicate BeforeWrap(p: Params, x: seq<Byte>, i: nat)
    requires ValidParams(p) && i < BlockCount(p, x)
  {
    !IsPlain(p, x, i) && i + 1 < BlockCount(p, x) && Wraps(p, x, i + 1)
  }

  /** The index entry of the block after it wraps round to an earlier position, so
      the difference of the two is far below -1. */
  lemma WrapGoesBack(p: Params, x: seq<Byte>, i: nat)
    requires ValidParams(p) && p.threshold <= 100 && i < BlockCount(p, x) && BeforeWrap(p, x, i)
    ensures ReadStart(p, x, i + 1) + 1 < BlockPos(p, x, i)
  {
    hide Mul, Unit, Block, Quot;
    TwoBlocks(p, x, i);
    FlagExceedsImage(x);
    UnitIsSmall(Unit(x));
    BodyStep(p, x, i);
    BlockPosIs(p, x, i + 1);
    StoredPacked(p, x, i);
    PackedIsSmaller(p, x, i);
  }

  lemma PackedIsSmaller(p: Params, x: seq<Byte>, i: nat)
    requires ValidParams(p) && p.threshold <= 100 && i < BlockCount(p, x) && !IsPlain(p, x, i)
    ensures |p.codec.compress(Block(p, x, i))| < p.bs
  {
    MulMonotone(p.threshold, 100, p.bs);
  }

  /** Then the read is refused, and the compressed block is always lost. */
  lemma BlockBeforeWrapFails(p: Params, x: seq<Byte>, file: seq<Byte>, i: nat)
    requires Image(p, x, file) && p.threshold <= 100 && i < BlockCount(p, x) && BeforeWrap(p, x, i)
    ensures Decoded(p, x, file, i) == None
  {
    hide Decoded, BlockPos, IsPlain, BlockCount, ReadStart, Unpacked, Holds;
    BlockRead(p, x, file, i);
    WrapGoesBack(p, x, i);
  }

  /** A compressed last block is read up to the size of the image: that is too
      short when the block ends behind it, unless it begins one byte behind it and
      the size of -1 reads to the end of the file. */
  predicate TailLost(p: Params, x: seq<Byte>)
    requires ValidParams(p)
  {
    var n := BlockCount(p, x);
    && n > 0 && !IsPlain(p, x, n - 1)
    && |x| < PosAfter(p, x, n) && |x| + 1 != BlockPos(p, x, n - 1)
  }

  lemma ReadTail(file: seq<Byte>, pos: nat, total: nat)
    requires pos <= |file|
    ensures ReadAt(file, pos, total - pos) ==
            if total + 1 < pos then None
            else if pos <= total < |file| then Some(file[pos..|file|][..total - pos])
            else Some(file[pos..|file|])
  {
    assert file[pos..] == file[pos..|file|];
    if pos <= total < |file| {
      assert file[pos..total] == file[pos..|file|][..total - pos];
    }
  }

  /** The bytes read for a compressed last block. */
  lemma LastBlockBytes(p: Params, x: seq<Byte>, file: seq<Byte>, i: nat)
    requires Image(p, x, file) && i + 1 == BlockCount(p, x) && !IsPlain(p, x, i)
    ensures
      var z, size := p.codec.compress(Block(p, x, i)), |x| - BlockPos(p, x, i);
      var data := ReadAt(file, BlockPos(p, x, i), size);
      if !TailLost(p, x) then data == Some(z)
      else if size < -1 then data == None
      else 0 <= size < |z| && data == Some(z[..size])
  {
    hide Block, IsPlain, DataStart, ReadAt, BlockPos, PosAfter, Stored, Mul, Wraps, ReadStart, WordAt, HasFlag,
      ClearFlag, Pads;
    assert Holds(p, x, file, i);
    StoredPacked(p, x, i);
    ReadTail(file, BlockPos(p, x, i), |x|);
  }

  /** The last block comes back exactly when the tail is not lost. */
  lemma LastBlockDecodes(p: Params, x: seq<Byte>, file: seq<Byte>, i: nat)
    requires Image(p, x, file) && Sound(p) && i + 1 == BlockCount(p, x) && !IsPlain(p, x, i)
    ensures !TailLost(p, x) ==> Decoded(p, x, file, i) == Some(Block(p, x, i))
    ensures TailLost(p, x) && RejectsCuts(p) ==> Decoded(p, x, file, i) != Some(Block(p, x, i))
  {
    hide Holds, Decoded, BlockPos, TailLost, Block, ReadAt, IsPlain, BlockCount, Sound, RejectsCuts, LongestDecodable;
    var b, size := Block(p, x, i), |x| - BlockPos(p, x, i);
    BlockRead(p, x, file, i);
    LastBlockBytes(p, x, file, i);
    if TailLost(p, x) {
      if RejectsCuts(p) && size >= 0 {
        CutStaysLost(p, b, size);
      }
    } else {
      TrimsPadding(p, b, 0);
      assert p.codec.compress(b) + Pads(p.pad, 0) == p.codec.compress(b);
    }
  }

  // ----- Round trip -----

  /** The first `k` blocks of an image. */
  function Prefix(p: Params, x: seq<Byte>, k: nat): (r: seq<Byte>)
    requires ValidParams(p) && k <= BlockCount(p, x)
    ensures |r| == k * p.bs
  {
    PrefixFits(p, x, k);
    x[..k * p.bs]
  }

  lemma PrefixFits(p: Params, x: seq<Byte>, k: nat)
    requires ValidParams(p) && k <= BlockCount(p, x)
    ensures 0 <= k * p.bs <= |x|
  {
    if k > 0 {
      BlockFits(p, x, k - 1);
      assert (k - 1) * p.bs + p.bs == k * p.bs;
    }
  }

  /** The whole blocks of an image; a trailing partial block is not stored. */
  function WholeBlocks(p: Params, x: seq<Byte>): seq<Byte>
    requires ValidParams(p)
  {
    Prefix(p, x, BlockCount(p, x))
  }

  lemma OneMoreBlock(p: Params, x: seq<Byte>, k: nat)
    requires ValidParams(p) && k < BlockCount(p, x)
    ensures Prefix(p, x, k + 1) == Prefix(p, x, k) + Block(p, x, k)
  {
    BlockFits(p, x, k);
    assert (k + 1) * p.bs == k * p.bs + p.bs;
  }

  lemma ConcatEqual(a: seq<Byte>, b: seq<Byte>, c: seq<Byte>, d: seq<Byte>)
    requires |a| == |c|
    ensures a + b == c + d <==> a == c && b == d
  {
    if a + b == c + d {
      assert a == (a + b)[..|a|] && b == (a + b)[|a|..];
      assert c == (c + d)[..|c|] && d == (c + d)[|c|..];
    }
  }

  /** The first `k` blocks come back as they were. */
  ghost predicate ComeBack(p: Params, x: seq<Byte>, file: seq<Byte>, k: nat)
    requires Image(p, x, file) && k <= BlockCount(p, x)
  {
    DecodeBlocks(p.codec, file, FieldsOf(p, x), BlockCount(p, x), k) == Some(Prefix(p, x, k))
  }

  /** The blocks before and block `k` itself have to come back. */
  lemma OneMoreDecodes(p: Params, x: seq<Byte>, file: seq<Byte>, k: nat)
    requires Image(p, x, file) && k < BlockCount(p, x)
    ensures ComeBack(p, x, file, k + 1) <==>
            ComeBack(p, x, file, k) && Decoded(p, x, file, k) == Some(Block(p, x, k))
  {
    hide Holds, Prefix, Block, DecodeBlock, BlockCount;
    OneMoreBlock(p, x, k);
    var n := BlockCount(p, x);
    var before, block := DecodeBlocks(p.codec, file, FieldsOf(p, x), n, k), Decoded(p, x, file, k);
    if before.Some? && block.Some? {
      SameTail(before.value, block.value, Prefix(p, x, k), Block(p, x, k));
    }
  }

  lemma SameTail(a: seq<Byte>, b: seq<Byte>, c: seq<Byte>, d: seq<Byte>)
    requires |b| == |d|
    ensures a + b == c + d <==> a == c && b == d
  {
    if a + b == c + d {
      assert |a| == |c|;
      ConcatEqual(a, b, c, d);
    }
  }

  lemma NoneComeBack(p: Params, x: seq<Byte>, file: seq<Byte>)
    requires Image(p, x, file)
    ensures ComeBack(p, x, file, 0)
  {
    hide Image, BlockCount;
  }

  /** Blocks come back together exactly when each of them decodes to itself. */
  lemma {:induction false} BlocksDecode(p: Params, x: seq<Byte>, file: seq<Byte>, k: nat)
    requires Image(p, x, file) && k <= BlockCount(p, x)
    ensures ComeBack(p, x, file, k) <==>
            forall i :: 0 <= i < k ==> Decoded(p, x, file, i) == Some(Block(p, x, i))
  {
    hide *;
    if k == 0 {
      NoneComeBack(p, x, file);
    } else {
      BlocksDecode(p, x, file, k - 1);
      OneMoreDecodes(p, x, file, k - 1);
    }
  }

  /** How a single block is lost. */
  ghost predicate Lost(p: Params, x: seq<Byte>, file: seq<Byte>, i: nat)
    requires ValidParams(p) && i < BlockCount(p, x)
  {
    || Misread(p, x, file, i)
    || BeforeWrap(p, x, i)
    || (TailLost(p, x) && i + 1 == BlockCount(p, x))
  }

  /** A single block comes back exactly when it is not lost. */
  lemma BlockDecodesIff(p: Params, x: seq<Byte>, file: seq<Byte>, i: nat)
    requires Image(p, x, file) && Sound(p) && i < BlockCount(p, x) && (p.threshold <= 100 || IndexSmall(p, x))
    ensures !Lost(p, x, file, i) ==> Decoded(p, x, file, i) == Some(Block(p, x, i))
    ensures Lost(p, x, file, i) && RejectsCuts(p) ==> Decoded(p, x, file, i) != Some(Block(p, x, i))
  {
    hide Decoded, BlockPos, PosAfter, Block, ReadStart, Holds, Sound, RejectsCuts, IsPlain, Wraps;
    if IsPlain(p, x, i) {
      PlainBlockDecodes(p, x, file, i);
    } else {
      CompressedKeepsPosition(p, x, file, i);
      if i + 1 == BlockCount(p, x) {
        LastBlockDecodes(p, x, file, i);
      } else if Wraps(p, x, i + 1) {
        BlockBeforeWrapFails(p, x, file, i);
      } else {
        InnerBlockDecodes(p, x, file, i);
      }
    }
  }

  lemma CompressedKeepsPosition(p: Params, x: seq<Byte>, file: seq<Byte>, i: nat)
    requires Image(p, x, file) && i < BlockCount(p, x) && !IsPlain(p, x, i)
    ensures !Wraps(p, x, i)
  {
    assert Holds(p, x, file, i);
  }

  /** The decompressor accepts the header and goes on to the blocks. */
  lemma ReachesBlocks(p: Params, x: seq<Byte>)
    requires ValidParams(p) && Encodable(p, x) && x != []
    ensures Compressed(p, x).Some? && Image(p, x, Compressed(p, x).value)
    ensures Decompressed(p.codec, Compressed(p, x).value) ==
            DecodeBlocks(p.codec, Compressed(p, x).value, FieldsOf(p, x), BlockCount(p, x), BlockCount(p, x))
  {
    HeaderReadsBack(p, x);
    CompressedIsImage(p, x);
  }

  /** A plain block of the image is misread. */
  ghost predicate SomeMisread(p: Params, x: seq<Byte>)
    requires ValidParams(p) && Encodable(p, x)
  {
    exists i :: 0 <= i < BlockCount(p, x) && Misread(p, x, Compressed(p, x).value, i)
  }

  /** A compressed block stands directly before one whose index needs bit 31. */
  ghost predicate SomeBeforeWrap(p: Params, x: seq<Byte>)
    requires ValidParams(p)
  {
    exists i :: 0 <= i < BlockCount(p, x) && BeforeWrap(p, x, i)
  }

  /** Decompressing a compressed image gives back its whole blocks exactly when
      its tail is not lost, no compressed block stands directly before one whose
      index needs bit 31, and no plain block whose index needs it is misread. */
  lemma RoundTripIff(p: Params, x: seq<Byte>)
    requires ValidParams(p) && Encodable(p, x) && p.threshold <= 100 && x != []
    requires Sound(p) && RejectsCuts(p)
    ensures Decompressed(p.codec, Compressed(p, x).value) == Some(WholeBlocks(p, x)) <==>
            !TailLost(p, x) && !SomeBeforeWrap(p, x) && !SomeMisread(p, x)
  {
    hide Encodable, Compressed, Decompressed, Sound, RejectsCuts, Misread, BeforeWrap, TailLost,
      BlockCount, WholeBlocks;
    RoundTripCore(p, x);
    var file, n := Compressed(p, x).value, BlockCount(p, x);
    if TailLost(p, x) {
      SomeBlocks(p, x);
      assert Lost(p, x, file, n - 1);
    }
    if SomeBeforeWrap(p, x) {
      var i :| 0 <= i < n && BeforeWrap(p, x, i);
      assert Lost(p, x, file, i);
    }
    if SomeMisread(p, x) {
      var i :| 0 <= i < n && Misread(p, x, file, i);
      assert Lost(p, x, file, i);
    }
  }

  lemma SomeBlocks(p: Params, x: seq<Byte>)
    requires ValidParams(p) && TailLost(p, x)
    ensures BlockCount(p, x) > 0
  {}

  /** A compressed image comes back exactly when no block of it is lost. */
  lemma RoundTripCore(p: Params, x: seq<Byte>)
    requires ValidParams(p) && Encodable(p, x) && x != [] && Sound(p) && (p.threshold <= 100 || IndexSmall(p, x))
    ensures Compressed(p, x).Some?
    ensures (forall i :: 0 <= i < BlockCount(p, x) ==> !Lost(p, x, Compressed(p, x).value, i)) ==>
      Decompressed(p.codec, Compressed(p, x).value) == Some(WholeBlocks(p, x))
    ensures RejectsCuts(p) && (exists i :: 0 <= i < BlockCount(p, x) && Lost(p, x, Compressed(p, x).value, i)) ==>
      Decompressed(p.codec, Compressed(p, x).value) != Some(WholeBlocks(p, x))
  {
    hide Holds, Encodable, Compressed, Decoded, Lost, Block, Sound, RejectsCuts, Decompressed, BlockCount, DecodeBlocks,
      Prefix, IndexSmall;
    ReachesBlocks(p, x);
    var file, n := Compressed(p, x).value, BlockCount(p, x);
    forall i | 0 <= i < n
      ensures !Lost(p, x, file, i) ==> Decoded(p, x, file, i) == Some(Block(p, x, i))
      ensures Lost(p, x, file, i) && RejectsCuts(p) ==> Decoded(p, x, file, i) != Some(Block(p, x, i))
    {
      BlockDecodesIff(p, x, file, i);
    }
    BlocksDecode(p, x, file, n);
  }

  /** Where every index entry leaves bit 31 free, only the tail can be lost. */
  lemma NothingWraps(p: Params, x: seq<Byte>, file: seq<Byte>)
    requires ValidParams(p) && IndexSmall(p, x)
    ensures forall i :: 0 <= i < BlockCount(p, x) ==>
      (Lost(p, x, file, i) <==> TailLost(p, x) && i + 1 == BlockCount(p, x))
  {
    hide BlockCount, TailLost, IsPlain;
  }

  lemma SmallRoundTripIff(p: Params, x: seq<Byte>)
    requires Written(p, x) && Sound(p) && RejectsCuts(p) && x != []
    ensures Decompressed(p.codec, Compressed(p, x).value) == Some(WholeBlocks(p, x)) <==> !TailLost(p, x)
  {
    hide Encodable, Compressed, Decompressed, Sound, RejectsCuts, Lost, TailLost, BlockCount, IndexSmall, WholeBlocks;
    RoundTripCore(p, x);
    NothingWraps(p, x, Compressed(p, x).value);
    if TailLost(p, x) {
      SomeBlocks(p, x);
      assert Lost(p, x, Compressed(p, x).value, BlockCount(p, x) - 1);
    }
  }

  /** A file no larger than its image leaves bit 31 of every index entry free. */
  lemma ShrunkIsSmall(p: Params, x: seq<Byte>)
    requires ValidParams(p) && Encodable(p, x) && |Compressed(p, x).value| <= |x|
    ensures IndexSmall(p, x) && Quot(PosAfter(p, x, BlockCount(p, x)), Unit(x)) < FLAG
  {
    hide Compressed, BlockPos, PosAfter, Encodable, Unit;
    FlagExceedsImage(x);
    ImageParts(p, x);
    QuotBelow(PosAfter(p, x, BlockCount(p, x)), Unit(x));
    forall i | 0 <= i < BlockCount(p, x) ensures !Wraps(p, x, i) {
      StoredAt(p, x, i);
      QuotBelow(BlockPos(p, x, i), Unit(x));
    }
  }

  lemma QuotBelow(pos: nat, unit: nat)
    requires unit > 0 && pos < Mul(FLAG, unit)
    ensures Quot(pos, unit) < FLAG
  {
    if Quot(pos, unit) >= FLAG {
      WrapFits(pos, unit);
    }
  }

  /** In particular an image that does not grow comes back. */
  lemma RoundTrip(p: Params, x: seq<Byte>)
    requires ValidParams(p) && Encodable(p, x) && Sound(p) && x != []
    requires |Compressed(p, x).value| <= |x|
    ensures Decompressed(p.codec, Compressed(p, x).value) == Some(WholeBlocks(p, x))
  {
    hide Compressed, Decompressed, Lost, IndexSmall, Encodable, Sound;
    ShrunkIsSmall(p, x);
    ImageParts(p, x);
    RoundTripCore(p, x);
    NothingWraps(p, x, Compressed(p, x).value);
  }

  // ----- Runs of plain blocks -----

  /** Header, index table and blocks are whole numbers of the shift unit, as they
      always are below 2 GiB. */
  predicate UnitDivides(p: Params, x: seq<Byte>)
    requires ValidParams(p)
  {
    DataStart(p, x) % Unit(x) == 0 && p.bs % Unit(x) == 0
  }

  lemma SmallUnit(p: Params, x: seq<Byte>)
    requires ValidParams(p) && |x| < FLAG
    ensures Unit(x) == 1 && UnitDivides(p, x)
  {
    assert Pow2(0) == 1;
  }

  lemma {:induction false} PlainRunPositions(p: Params, x: seq<Byte>, k: nat)
    requires ValidParams(p) && UnitDivides(p, x) && k <= BlockCount(p, x)
    requires forall i :: 0 <= i < k ==> IsPlain(p, x, i)
    ensures PosAfter(p, x, k) == DataStart(p, x) + k * p.bs && PosAfter(p, x, k) % Unit(x) == 0
  {
    hide BlockCount, IsPlain, DataStart, Unit;
    if k > 0 {
      PlainRunPositions(p, x, k - 1);
      assert (k - 1) * p.bs + p.bs == k * p.bs;
      AlignedSum(PosAfter(p, x, k - 1), p.bs, Unit(x));
    }
  }

  lemma AlignedSum(a: nat, b: nat, unit: nat)
    requires unit > 0 && a % unit == 0 && b % unit == 0
    ensures (a + b) % unit == 0
  {
    assert a == a / unit * unit && b == b / unit * unit;
    assert a + b == (a / unit + b / unit) * unit;
    DivModIs(a + b, a / unit + b / unit, 0, unit);
  }

  /** Below 2 GiB a block after plain ones needs bit 31 exactly when header, index
      and the blocks before it take 2 GiB, and it is then looked for inside the
      header and the index table. */
  lemma PlainRunWrapsIff(p: Params, x: seq<Byte>, i: nat)
    requires ValidParams(p) && |x| < FLAG && i < BlockCount(p, x)
    requires forall j :: 0 <= j < i ==> IsPlain(p, x, j)
    ensures Wraps(p, x, i) <==> DataStart(p, x) + i * p.bs >= FLAG
    ensures Wraps(p, x, i) ==>
      ReadStart(p, x, i) == DataStart(p, x) + i * p.bs - FLAG && ReadStart(p, x, i) + p.bs < DataStart(p, x)
  {
    hide BlockCount, IsPlain, DataStart;
    SmallUnit(p, x);
    PlainRunPositions(p, x, i);
    BlockFits(p, x, i);
    BlockPosIs(p, x, i);
  }

  /** So every index entry of such an image leaves bit 31 free exactly when its
      last block begins below 2 GiB. */
  lemma PlainRunSmallIff(p: Params, x: seq<Byte>)
    requires ValidParams(p) && |x| < FLAG && BlockCount(p, x) > 0
    requires forall j :: 0 <= j < BlockCount(p, x) - 1 ==> IsPlain(p, x, j)
    ensures IndexSmall(p, x) <==> DataStart(p, x) + (BlockCount(p, x) - 1) * p.bs < FLAG
  {
    hide BlockCount, IsPlain, DataStart, Wraps;
    var last := BlockCount(p, x) - 1;
    PlainRunWrapsIff(p, x, last);
    forall i | 0 <= i <= last ensures Wraps(p, x, i) ==> DataStart(p, x) + last * p.bs >= FLAG {
      PlainRunWrapsIff(p, x, i);
      MulMonotone(i, last, p.bs);
    }
  }

  /** `x` is below 2 GiB and its blocks are all stored plain but the last. */
  ghost predicate PlainButLast(p: Params, x: seq<Byte>) {
    && ValidParams(p) && |x| < FLAG && BlockCount(p, x) > 0
    && (forall i :: 0 <= i < BlockCount(p, x) - 1 ==> IsPlain(p, x, i))
    && !IsPlain(p, x, BlockCount(p, x) - 1)
  }

  /** The last block is lost when what header and index add outweighs what it
      saves, unless they add exactly one byte more than the rest of the image. */
  lemma TailLostAfterPlainRun(p: Params, x: seq<Byte>)
    requires PlainButLast(p, x)
    ensures
      var n := BlockCount(p, x);
      var z, rest := p.codec.compress(Block(p, x, n - 1)), |x| - (n - 1) * p.bs;
      TailLost(p, x) <==> rest < 28 + 4 * n + |z| && rest + 1 != 28 + 4 * n
  {
    hide BlockCount, IsPlain, BlockPos, PosAfter, Body, Unit, UnitDivides, Block;
    var last := BlockCount(p, x) - 1;
    SmallUnit(p, x);
    PlainRunPositions(p, x, last);
    BlockPosIs(p, x, last);
    BodyStep(p, x, last);
    StoredPacked(p, x, last);
  }

  /** Such an image comes back exactly when header, index and packed last block fit
      in place of the last block and what follows it, or header and index alone
      miss that by one byte. */
  lemma PlainButLastRoundTripIff(p: Params, x: seq<Byte>)
    requires PlainButLast(p, x) && Encodable(p, x) && Sound(p) && RejectsCuts(p)
    ensures
      var n := BlockCount(p, x);
      var z, rest := p.codec.compress(Block(p, x, n - 1)), |x| - (n - 1) * p.bs;
      Decompressed(p.codec, Compressed(p, x).value) == Some(WholeBlocks(p, x)) <==>
        28 + 4 * n + |z| <= rest || 28 + 4 * n == rest + 1
  {
    hide BlockCount, IsPlain, DataStart, Wraps, Block, Sound, RejectsCuts, Compressed, Decompressed,
      WholeBlocks, TailLost;
    var last := BlockCount(p, x) - 1;
    PlainRunWrapsIff(p, x, last);
    PlainRunSmallIff(p, x);
    LastIsSmall(p, x);
    TailLostAfterPlainRun(p, x);
    SmallRoundTripIff(p, x);
  }

  /** The compressor gives up on a compressed last block that needs bit 31. */
  lemma LastIsSmall(p: Params, x: seq<Byte>)
    requires PlainButLast(p, x) && Encodable(p, x)
    ensures !Wraps(p, x, BlockCount(p, x) - 1) && x != []
  {
    hide Compressed, Encodable, BlockPos, PosAfter, IsPlain, Wraps, ReadStart, ReadPos, WordAt, Mul, BlockCount;
    ReadsAtPosition(p, x, BlockCount(p, x) - 1);
    BlockFits(p, x, BlockCount(p, x) - 1);
  }
}
