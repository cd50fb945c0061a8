/** Images that pc/ziso.py accepts and does not give back, or that
    modules/isofs/zso.c does not deliver in full. */
module ZisoExamples {
  import opened Options
  import opened Bytes
  import opened Words
  import opened Arithmetic
  import opened ZisoFormat
  import opened ZisoRoundTrip
  import opened RawReader
  import opened ZsoReader

  // ----- A codec -----

  const PACKED_LEN := 1945

  function ZeroPacked(): (z: seq<Byte>)
    ensures |z| == PACKED_LEN && z[0] == 0
  {
    Zeros(PACKED_LEN)
  }

  /** A zero sector becomes 1945 bytes; anything else grows by a leading one. */
  function Compress(b: seq<Byte>): seq<Byte> {
    if b == Zeros(SECTOR) then ZeroPacked() else [1] + b
  }

  function Decode(d: seq<Byte>): Option<seq<Byte>> {
    if d == ZeroPacked() then Some(Zeros(SECTOR))
    else if |d| == SECTOR + 1 && d[0] == 1 then Some(d[1..])
    else None
  }

  /** The reader's decoder goes by the bytes it needs. */
  function Fast(t: seq<Byte>): (b: seq<Byte>)
    ensures |b| == SECTOR
  {
    if ZeroPacked() <= t then Zeros(SECTOR)
    else if |t| > SECTOR then t[1..SECTOR + 1]
    else Ones(SECTOR)
  }

  function Ones(n: nat): (r: seq<Byte>)
    ensures |r| == n
  {
    seq(n, _ => 1)
  }

  function Tool(): Params {
    Params(Codec(Compress, Decode), SECTOR, 95, 0x58)
  }

  lemma CodecIsSound()
    ensures Sound(Tool()) && RejectsCuts(Tool()) && FastSound(Tool(), Fast)
  {
    var p := Tool();
    forall b: seq<Byte>, k: nat | |b| == p.bs ensures Recovers(p, b, k) {
      DecodesAlone(b, Pads(p.pad, k));
    }
    forall b: seq<Byte>, k: nat | |b| == p.bs && k < |p.codec.compress(b)| ensures CutFails(p, b, k) {
    }
    forall b: seq<Byte>, t | |b| == SECTOR ensures Fast(p.codec.compress(b) + t) == b {
      FastDecodes(b, t);
    }
  }

  lemma DecodesAlone(b: seq<Byte>, t: seq<Byte>)
    requires |b| == SECTOR
    ensures Decode(Compress(b) + t) == if t == [] then Some(b) else None
  {
    var z := Compress(b);
    assert (z + t)[0] == z[0];
    if t == [] {
      assert z + t == z;
    }
  }

  lemma FastDecodes(b: seq<Byte>, t: seq<Byte>)
    requires |b| == SECTOR
    ensures Fast(Compress(b) + t) == b
  {
    var z := Compress(b);
    assert z <= z + t;
    if b == Zeros(SECTOR) {
    } else {
      assert (z + t)[0] == 1 && (z + t)[1..SECTOR + 1] == b;
    }
  }

  // ----- Images of ones -----

  /** `k` sectors of ones and `rest` bytes `v`. */
  function Run(k: nat, rest: nat, v: Byte): (x: seq<Byte>)
    ensures |x| == k * SECTOR + rest
    ensures forall i :: 0 <= i < |x| ==> x[i] == if i < k * SECTOR then 1 else v
  {
    seq(k * SECTOR + rest, i requires 0 <= i => if i < k * SECTOR then 1 else v)
  }

  lemma OnesArePlain(x: seq<Byte>, i: nat)
    requires i < BlockCount(Tool(), x)
    requires forall j :: i * SECTOR <= j < i * SECTOR + SECTOR ==> j < |x| && x[j] == 1
    ensures Block(Tool(), x, i) == Ones(SECTOR) && IsPlain(Tool(), x, i)
  {
    BlockFits(Tool(), x, i);
    var b := Block(Tool(), x, i);
    assert b[0] == 1 && Zeros(SECTOR)[0] == 0;
    assert b == Ones(SECTOR);
  }

  lemma ZerosArePacked(x: seq<Byte>, i: nat)
    requires i < BlockCount(Tool(), x)
    requires forall j :: i * SECTOR <= j < i * SECTOR + SECTOR ==> j < |x| && x[j] == 0
    ensures Stored(Tool(), x, i) == ZeroPacked() && !IsPlain(Tool(), x, i)
    ensures Block(Tool(), x, i) == Zeros(SECTOR)
  {
    assert Block(Tool(), x, i) == Zeros(SECTOR);
  }

  // ----- Which runs the compressor accepts -----

  lemma QuotMonotone(a: nat, b: nat, unit: nat)
    requires a <= b && unit > 0
    ensures Quot(a, unit) <= Quot(b, unit)
  {
    assert a == a / unit * unit + a % unit && b == b / unit * unit + b % unit;
    if b / unit < a / unit {
      MulSub(a / unit, b / unit, unit);
      MulAtLeast(a / unit - b / unit, unit);
    }
  }

  /** The index entry of a block after plain ones. */
  lemma RunWord(p: Params, x: seq<Byte>, i: nat)
    requires ValidParams(p) && UnitDivides(p, x) && i < BlockCount(p, x)
    requires forall j :: 0 <= j < i ==> IsPlain(p, x, j)
    requires
      var word := Quot(DataStart(p, x) + i * p.bs, Unit(x));
      word < FLAG || (IsPlain(p, x, i) && word < WORD)
    ensures BlockPos(p, x, i) == DataStart(p, x) + i * p.bs
    ensures Accepted(p, x, i) && IndexWord(p, x, i) < WORD
    ensures Wraps(p, x, i) <==> Quot(DataStart(p, x) + i * p.bs, Unit(x)) >= FLAG
  {
    hide BlockCount, IsPlain, DataStart, Unit, Quot, UnitDivides, BlockPos, PosAfter;
    PlainRunPositions(p, x, i);
    BlockPosIs(p, x, i);
  }

  /** `k` plain blocks and at most one other after them. */
  ghost predicate AfterRun(p: Params, x: seq<Byte>, k: nat)
    requires ValidParams(p)
  {
    && UnitDivides(p, x) && HeaderFits(p, x) && k <= BlockCount(p, x) <= k + 1
    && (forall j :: 0 <= j < k ==> IsPlain(p, x, j))
    && (k < BlockCount(p, x) ==> |Stored(p, x, k)| <= p.bs)
  }

  lemma RunEnd(p: Params, x: seq<Byte>, k: nat)
    requires ValidParams(p) && AfterRun(p, x, k)
    ensures k < BlockCount(p, x) ==> PosAfter(p, x, k + 1) == DataStart(p, x) + k * p.bs + |Stored(p, x, k)|
    ensures PosAfter(p, x, BlockCount(p, x)) <= DataStart(p, x) + BlockCount(p, x) * p.bs
  {
    hide BlockCount, IsPlain, DataStart, Unit, Quot, UnitDivides, BlockPos, PosAfter, Stored, HeaderFits;
    PlainRunPositions(p, x, k);
    if k < BlockCount(p, x) {
      BlockPosIs(p, x, k);
      BodyStep(p, x, k);
      assert (k + 1) * p.bs == k * p.bs + p.bs;
    }
  }

  /** The compressor accepts such an image when its index words fit 32 bits, and
      31 bits up to a block that is not plain. */
  lemma RunEncodable(p: Params, x: seq<Byte>, k: nat)
    requires ValidParams(p) && AfterRun(p, x, k)
    requires
      var end := Quot(DataStart(p, x) + BlockCount(p, x) * p.bs, Unit(x));
      end < FLAG || (k == BlockCount(p, x) && end < WORD)
    ensures Encodable(p, x)
    ensures Quot(DataStart(p, x) + BlockCount(p, x) * p.bs, Unit(x)) < FLAG ==>
      IndexSmall(p, x) && Quot(PosAfter(p, x, BlockCount(p, x)), Unit(x)) < FLAG
  {
    hide BlockCount, IsPlain, DataStart, Unit, Quot, UnitDivides, BlockPos, PosAfter, Stored, HeaderFits, Accepted,
      Wraps, IndexWord;
    var n, start := BlockCount(p, x), DataStart(p, x);
    forall i | 0 <= i < n
      ensures Accepted(p, x, i) && IndexWord(p, x, i) < WORD
      ensures Quot(start + n * p.bs, Unit(x)) < FLAG ==> !Wraps(p, x, i)
    {
      MulMonotone(i, n, p.bs);
      QuotMonotone(start + i * p.bs, start + n * p.bs, Unit(x));
      RunWord(p, x, i);
    }
    RunEnd(p, x, k);
    QuotMonotone(PosAfter(p, x, n), start + n * p.bs, Unit(x));
    LastWord(p, x);
  }

  lemma LastWord(p: Params, x: seq<Byte>)
    requires ValidParams(p)
    ensures IndexWord(p, x, BlockCount(p, x)) == Quot(PosAfter(p, x, BlockCount(p, x)), Unit(x))
  {}

  // ----- A lost tail -----

  /** `k` sectors of ones, one of zeros and `extra` bytes more. */
  lemma ZerosAfterOnes(k: nat, extra: nat)
    requires k < 1000 && extra < SECTOR
    ensures
      var p, x := Tool(), Run(k, SECTOR + extra, 0);
      && BlockCount(p, x) == k + 1 && DataStart(p, x) == 32 + 4 * k && Unit(x) == 1 && |x| < FLAG
      && AfterRun(p, x, k) && PlainButLast(p, x) && |p.codec.compress(Block(p, x, k))| == PACKED_LEN
  {
    hide Compress, Decode, Stored, IsPlain, Block;
    var p, x := Tool(), Run(k, SECTOR + extra, 0);
    SmallUnit(p, x);
    forall j | 0 <= j < k ensures IsPlain(p, x, j) {
      OnesArePlain(x, j);
    }
    ZerosArePacked(x, k);
    StoredPacked(p, x, k);
  }

  /** Such an image comes back exactly when header, index and 1945 bytes fit, or
      header and index exceed what follows the ones by one byte. */
  lemma ZerosAfterOnesIff(k: nat, extra: nat)
    requires k < 1000 && extra < SECTOR
    ensures
      var p, x := Tool(), Run(k, SECTOR + extra, 0);
      && Written(p, x) && Compressed(p, x).Some?
      && (TailLost(p, x) <==> !(4 * k + 1977 <= SECTOR + extra || 4 * k + 32 == SECTOR + extra + 1))
      && (Decompressed(p.codec, Compressed(p, x).value) == Some(WholeBlocks(p, x)) <==> !TailLost(p, x))
  {
    hide Run, Compress, Decode, Sound, RejectsCuts, Encodable, IndexSmall, Decompressed, Compressed, TailLost, AfterRun;
    var p, x := Tool(), Run(k, SECTOR + extra, 0);
    ZerosAfterOnes(k, extra);
    RunEncodable(p, x, k);
    CodecIsSound();
    TailLostAfterPlainRun(p, x);
    ImageParts(p, x);
    SmallRoundTripIff(p, x);
  }

  /** 29 sectors of ones and one of zeros: header and index take 148 bytes, so the
      size of the image falls 45 bytes before the end of the packed last block. */
  lemma TailIsCut()
    ensures
      var p, x := Tool(), Run(29, SECTOR, 0);
      && Written(p, x) && TailLost(p, x) && BlockPos(p, x, 29) < |x|
      && Decompressed(p.codec, Compressed(p, x).value) != Some(WholeBlocks(p, x))
  {
    hide Run, Encodable, IndexSmall, Decompressed, Compressed, TailLost, WholeBlocks;
    ZerosAfterOnes(29, 0);
    ZerosAfterOnesIff(29, 0);
    RunWord(Tool(), Run(29, SECTOR, 0), 29);
  }

  /** 505 sectors of ones and one of zeros: the last block begins four bytes behind
      the size of the image, and the read of -4 bytes is refused. */
  lemma TailIsRefused()
    ensures
      var p, x := Tool(), Run(505, SECTOR, 0);
      && Written(p, x) && TailLost(p, x) && BlockPos(p, x, 505) == |x| + 4
      && Decompressed(p.codec, Compressed(p, x).value) != Some(WholeBlocks(p, x))
  {
    hide Run, Encodable, IndexSmall, Decompressed, Compressed, TailLost, WholeBlocks;
    ZerosAfterOnes(505, 0);
    ZerosAfterOnesIff(505, 0);
    RunWord(Tool(), Run(505, SECTOR, 0), 505);
  }

  /** With three bytes more the last block begins one byte behind the size of the
      image: the read of -1 bytes goes to the end of the file, and the image comes back. */
  lemma TailIsReadWhole()
    ensures
      var p, x := Tool(), Run(505, SECTOR + 3, 0);
      && Written(p, x) && !TailLost(p, x) && BlockPos(p, x, 505) == |x| + 1
      && Decompressed(p.codec, Compressed(p, x).value) == Some(WholeBlocks(p, x))
  {
    hide Run, Encodable, IndexSmall, Decompressed, Compressed, TailLost, WholeBlocks;
    ZerosAfterOnes(505, 3);
    ZerosAfterOnesIff(505, 3);
    RunWord(Tool(), Run(505, SECTOR + 3, 0), 505);
  }

  // ----- A wrapped position -----

  const RUN := 1048575

  lemma WrappedRun()
    ensures
      var p, x := Tool(), Run(RUN, SECTOR - 1, 1);
      && |x| == FLAG - 1 && BlockCount(p, x) == RUN && DataStart(p, x) == 4194328 && Unit(x) == 1
      && AfterRun(p, x, RUN) && Block(p, x, RUN - 1) == Ones(SECTOR)
  {
    hide Compress, Decode, Stored, IsPlain, Block;
    var p, x := Tool(), Run(RUN, SECTOR - 1, 1);
    SmallUnit(p, x);
    forall j | 0 <= j < RUN ensures IsPlain(p, x, j) && Block(p, x, j) == Ones(SECTOR) {
      OnesArePlain(x, j);
    }
  }

  lemma TopByte(b: seq<Byte>)
    requires |b| == 4 && UnpackU32(b) >= FLAG
    ensures b[3] >= 0x80
  {}

  lemma PlainWordIsMarked(p: Params, x: seq<Byte>, i: nat)
    requires ValidParams(p) && i < BlockCount(p, x) && IsPlain(p, x, i)
    ensures IndexWord(p, x, i) >= FLAG
  {}

  /** The last sector is looked for at byte 4190232, on the index entry of block
      1047552, which is marked plain; a sector of ones has no such byte. */
  lemma WrappedIsMisread()
    ensures
      var p, x := Tool(), Run(RUN, SECTOR - 1, 1);
      && Encodable(p, x) && Compressed(p, x).Some? && BlockCount(p, x) == RUN
      && Misread(p, x, Compressed(p, x).value, RUN - 1) && !TailLost(p, x) && !SomeBeforeWrap(p, x)
  {
    hide Run, Compress, Decode, Stored, IsPlain, Block, Encodable, Compressed, Wraps, ReadStart, BlockCount, DataStart,
      IndexWord, UnpackU32;
    var p, x := Tool(), Run(RUN, SECTOR - 1, 1);
    WrappedRun();
    RunEncodable(p, x, RUN);
    ImageParts(p, x);
    PlainRunWrapsIff(p, x, RUN - 1);
    var file := Compressed(p, x).value;
    WordsReadBack(p, x, 1047552);
    PlainWordIsMarked(p, x, 1047552);
    TopByte(file[4190232..4190236]);
    CompressedIsImage(p, x);
    PlainStored(p, x, file, RUN - 1);
    ReadInside(file, 4190232, SECTOR);
    assert file[4190232..4190232 + SECTOR][3] == file[4190232..4190236][3] != Ones(SECTOR)[3];
  }

  /** 2^31 - 1 ones: the tool accepts the image and does not give it back, though
      every block is plain. */
  lemma WrappedIsLost()
    ensures
      var p, x := Tool(), Run(RUN, SECTOR - 1, 1);
      && Encodable(p, x) && !TailLost(p, x) && !SomeBeforeWrap(p, x)
      && Decompressed(p.codec, Compressed(p, x).value) != Some(WholeBlocks(p, x))
  {
    hide Run, Compress, Decode, Sound, RejectsCuts, Encodable, Decompressed, Compressed, TailLost, SomeBeforeWrap,
      Misread, BlockCount, WholeBlocks;
    var p, x := Tool(), Run(RUN, SECTOR - 1, 1);
    WrappedIsMisread();
    CodecIsSound();
    assert SomeMisread(p, x);
    RoundTripIff(p, x);
  }

  /** The reader of the console does no better: a request for block 1046527, whose
      end lies beyond 2 GiB, is lost, and the last sector is not delivered. */
  lemma WrappedIsNotPlayed()
    ensures
      var p, x := Tool(), Run(RUN, SECTOR - 1, 1);
      && Playable(p, x) && Compressed(p, x).Some? && BlockCount(p, x) == RUN
      && !Spans(p, x, 1046527, 1046528)
      && !Delivers(p, x, Compressed(p, x).value, Fast, RUN - 1, RUN - 1, Block(p, x, RUN - 1))
  {
    hide Run, Compress, Decode, Fast, Stored, IsPlain, Block, Encodable, Compressed, BlockCount, DataStart, PosAfter,
      BlockPos, Complete, Misread, SomeBeforeWrap, TailLost, Wraps, ReadStart, Delivers, Beyond, Unit;
    var p, x := Tool(), Run(RUN, SECTOR - 1, 1);
    WrappedRun();
    WrappedIsMisread();
    WrappedMarks();
    CompleteIff(p, x, RUN - 1);
    if Delivers(p, x, Compressed(p, x).value, Fast, RUN - 1, RUN - 1, Block(p, x, RUN - 1)) {
      DeliversBlockIff(p, x, Compressed(p, x).value, Fast, RUN - 1, RUN - 1, Block(p, x, RUN - 1));
    }
  }

  lemma WrappedMarks()
    ensures
      var p, x := Tool(), Run(RUN, SECTOR - 1, 1);
      && BlockCount(p, x) == RUN && AlignOf(|x|) == 0
      && !Beyond(p, x, 1046527) && Beyond(p, x, 1046528) && Beyond(p, x, RUN - 1)
  {
    hide Run, Compress, Decode, Stored, IsPlain, Block, BlockCount, DataStart, PosAfter, BlockPos, Unit;
    var p, x := Tool(), Run(RUN, SECTOR - 1, 1);
    WrappedRun();
    RunWord(p, x, 1046527);
    RunWord(p, x, 1046528);
    RunWord(p, x, RUN - 1);
  }

  // ----- A compressed block before a wrapped one -----

  const GAP := 1046528
  const GAP_BLOCKS := 1048565

  /** Sectors of ones but for one of zeros, 16 bytes below 2 GiB in the file. */
  function WithGap(): (x: seq<Byte>)
    ensures |x| == GAP_BLOCKS * SECTOR
    ensures forall i :: 0 <= i < |x| ==> x[i] == if GAP * SECTOR <= i < GAP * SECTOR + SECTOR then 0 else 1
  {
    seq(GAP_BLOCKS * SECTOR, i requires 0 <= i => if GAP * SECTOR <= i < GAP * SECTOR + SECTOR then 0 else 1)
  }

  lemma GapBlocks()
    ensures
      var p, x := Tool(), WithGap();
      && BlockCount(p, x) == GAP_BLOCKS && DataStart(p, x) == 4194288 && Unit(x) == 1 && UnitDivides(p, x)
      && HeaderFits(p, x) && (forall j :: 0 <= j < GAP_BLOCKS && j != GAP ==> IsPlain(p, x, j))
      && !IsPlain(p, x, GAP) && Stored(p, x, GAP) == ZeroPacked()
  {
    hide Compress, Decode, Stored, IsPlain, Block;
    var p, x := Tool(), WithGap();
    SmallUnit(p, x);
    forall j | 0 <= j < GAP_BLOCKS && j != GAP ensures IsPlain(p, x, j) {
      OnesArePlain(x, j);
    }
    ZerosArePacked(x, GAP);
  }

  /** Below 2 GiB no position is behind that of a run of plain blocks. */
  lemma {:induction false} PositionsBound(p: Params, x: seq<Byte>, k: nat)
    requires ValidParams(p) && p.threshold <= 100 && |x| < FLAG && k <= BlockCount(p, x)
    ensures PosAfter(p, x, k) <= DataStart(p, x) + k * p.bs
  {
    if k > 0 {
      hide DataStart, BlockCount, Stored, BlockPos;
      PositionsBound(p, x, k - 1);
      SmallUnit(p, x);
      BlockPosIs(p, x, k - 1);
      StoredBound(p, x, k - 1);
      assert (k - 1) * p.bs + p.bs == k * p.bs;
    }
  }

  lemma StoredBound(p: Params, x: seq<Byte>, i: nat)
    requires ValidParams(p) && p.threshold <= 100 && i < BlockCount(p, x)
    ensures |Stored(p, x, i)| <= p.bs
  {
    if !IsPlain(p, x, i) {
      PackedIsSmaller(p, x, i);
    }
  }

  /** The compressor accepts an image below 2 GiB when no compressed block needs bit 31. */
  lemma SmallEncodable(p: Params, x: seq<Byte>)
    requires ValidParams(p) && p.threshold <= 100 && |x| < FLAG && HeaderFits(p, x)
    requires DataStart(p, x) + BlockCount(p, x) * p.bs < WORD
    requires forall i :: 0 <= i < BlockCount(p, x) ==> IsPlain(p, x, i) || !Wraps(p, x, i)
    ensures Encodable(p, x)
  {
    hide BlockCount, IsPlain, DataStart, PosAfter, BlockPos, HeaderFits, Unit, UnitDivides;
    var n := BlockCount(p, x);
    SmallUnit(p, x);
    forall i | 0 <= i <= n ensures IndexWord(p, x, i) < WORD {
      PositionsBound(p, x, i);
      MulMonotone(i, n, p.bs);
      if i < n {
        BlockPosIs(p, x, i);
      }
    }
  }

  lemma GapWraps()
    ensures
      var p, x := Tool(), WithGap();
      BlockCount(p, x) == GAP_BLOCKS && !Wraps(p, x, GAP) && BeforeWrap(p, x, GAP)
  {
    hide WithGap, Compress, Decode, IsPlain, Block, BlockCount, DataStart, PosAfter, BlockPos, HeaderFits, Unit,
      UnitDivides, AlignUp, Body, Stored, ReadStart;
    var p, x := Tool(), WithGap();
    GapBlocks();
    PlainRunWrapsIff(p, x, GAP);
    PlainRunPositions(p, x, GAP);
    BlockPosIs(p, x, GAP);
    BodyStep(p, x, GAP);
    BlockPosIs(p, x, GAP + 1);
  }

  /** The index entry of the sector of zeros is the last below 2^31, so its read is refused. */
  lemma GapIsLost()
    ensures
      var p, x := Tool(), WithGap();
      && Encodable(p, x) && BlockCount(p, x) == GAP_BLOCKS && BeforeWrap(p, x, GAP) && !TailLost(p, x)
      && Decompressed(p.codec, Compressed(p, x).value) != Some(WholeBlocks(p, x))
  {
    hide WithGap, Compress, Decode, Stored, IsPlain, Block, BlockCount, DataStart, PosAfter, BlockPos, HeaderFits, Unit,
      Wraps, BeforeWrap, Sound, RejectsCuts, Compressed, Decompressed, WholeBlocks, Encodable;
    var p, x := Tool(), WithGap();
    GapBlocks();
    GapWraps();
    SmallEncodable(p, x);
    CodecIsSound();
    ImageParts(p, x);
    RoundTripIff(p, x);
  }

  // ----- A last block delimited short -----

  /** 2 GiB of ones but for a last sector of zeros: positions are even, and the
      packed last block ends at an odd one. */
  lemma ShortRun()
    ensures
      var p, x := Tool(), Run(RUN, SECTOR, 0);
      && |x| == FLAG && BlockCount(p, x) == RUN + 1 && DataStart(p, x) == 4194332 && Unit(x) == 2
      && AfterRun(p, x, RUN) && !IsPlain(p, x, RUN) && Stored(p, x, RUN) == ZeroPacked()
      && Block(p, x, RUN) == Zeros(SECTOR)
  {
    hide Compress, Decode, Stored, IsPlain, Block;
    var p, x := Tool(), Run(RUN, SECTOR, 0);
    assert Pow2(1) == 2;
    forall j | 0 <= j < RUN ensures IsPlain(p, x, j) {
      OnesArePlain(x, j);
    }
    ZerosArePacked(x, RUN);
  }

  /** The image can be played, and its last block is not complete: some stale
      bytes make the decoder deliver something else. */
  lemma ShortIsDelivered()
    ensures
      var p, x := Tool(), Run(RUN, SECTOR, 0);
      && Playable(p, x) && Compressed(p, x).Some? && BlockCount(p, x) == RUN + 1 && !Complete(p, x, RUN)
      && !Beyond(p, x, RUN)
      && exists t, sector ::
           MadeOf(Fast, Packed(p, x, Compressed(p, x).value, RUN, RUN), t, sector) && sector != Block(p, x, RUN)
  {
    hide Run, Compress, Decode, Stored, IsPlain, Block, Encodable, Compressed, BlockCount, DataStart, PosAfter,
      Complete, IndexSmall, Fast, Packed;
    var p, x := Tool(), Run(RUN, SECTOR, 0);
    ShortRun();
    RunEncodable(p, x, RUN);
    RunEnd(p, x, RUN);
    ImageParts(p, x);
    CompleteIff(p, x, RUN);
    RunWord(p, x, RUN);
    ShortIsCut(p, x, RUN, RUN);
    var packed := Packed(p, x, Compressed(p, x).value, RUN, RUN);
    var t := Ones(SECTOR - |packed|);
    OnesSpoil(packed, t);
    assert MadeOf(Fast, packed, t, Fast(packed + t));
  }

  /** Bytes cut short and followed by ones do not decode to zeros. */
  lemma OnesSpoil(packed: seq<Byte>, t: seq<Byte>)
    requires |packed| < PACKED_LEN && |packed| + |t| == SECTOR && forall i :: 0 <= i < |t| ==> t[i] == 1
    ensures Fast(packed + t) != Zeros(SECTOR)
  {
    assert (packed + t)[PACKED_LEN - 1] == 1 && ZeroPacked()[PACKED_LEN - 1] == 0;
    assert Ones(SECTOR)[0] == 1 && Zeros(SECTOR)[0] == 0;
  }
}
