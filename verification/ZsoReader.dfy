/** The sector reader for compressed images (modules/isofs/zso.c): it reads the
    compressed bytes of a run of sectors to the end of the caller's buffer and
    unpacks them in place from its start. Proved to deliver the sectors of the
    image that pc/ziso.py compressed. */
module ZsoReader {
  import opened Options
  import opened Bytes
  import opened Words
  import opened Arithmetic
  import opened ZisoFormat
  import opened ZisoRoundTrip
  import opened RawReader

  const IDX_MAX_ENTRIES := 257

  /** What the reader asks of an image: sectors of 2048 bytes and a shift of at most 11. */
  ghost predicate Playable(p: Params, x: seq<Byte>) {
    && ValidParams(p) && Encodable(p, x)
    && p.bs == SECTOR && p.threshold <= 100 && AlignOf(|x|) <= 11
  }

  /** The position an index entry stands for; that of the last entry is rounded down. */
  ghost function Mark(p: Params, x: seq<Byte>, i: nat): nat
    requires ValidParams(p) && i <= BlockCount(p, x)
  {
    if i < BlockCount(p, x) then BlockPos(p, x, i) else Mul(Quot(PosAfter(p, x, i), Unit(x)), Unit(x))
  }

  /** The index entries delimit all bytes of block `i`. */
  ghost predicate Complete(p: Params, x: seq<Byte>, i: nat)
    requires ValidParams(p) && i < BlockCount(p, x)
  {
    BlockPos(p, x, i) + |Stored(p, x, i)| <= Mark(p, x, i + 1)
  }

  lemma TableFits(p: Params, x: seq<Byte>)
    requires ValidParams(p) && Encodable(p, x)
    ensures DataStart(p, x) <= |Compressed(p, x).value|
  {
    ImageParts(p, x);
    BodyLength(p, x, BlockCount(p, x));
  }

  /** The position of an index entry needs bit 31. */
  ghost predicate Beyond(p: Params, x: seq<Byte>, i: nat)
    requires ValidParams(p) && i <= BlockCount(p, x)
  {
    Mark(p, x, i) >= Mul(FLAG, Unit(x))
  }

  /** How far before its position an entry is looked for. */
  ghost function Back(p: Params, x: seq<Byte>, i: nat): nat
    requires ValidParams(p) && i <= BlockCount(p, x)
  {
    if Beyond(p, x, i) then Mul(FLAG, Unit(x)) else 0
  }

  lemma BeyondIsWraps(p: Params, x: seq<Byte>, i: nat)
    requires ValidParams(p) && i < BlockCount(p, x)
    ensures Beyond(p, x, i) <==> Wraps(p, x, i)
    ensures ReadStart(p, x, i) == Mark(p, x, i) - Back(p, x, i)
  {
    hide Quot, Mul, Unit, BlockPos, BlockCount;
    QuotReaches(BlockPos(p, x, i), Unit(x));
  }

  lemma QuotReaches(pos: nat, unit: nat)
    requires unit > 0
    ensures Quot(pos, unit) >= FLAG <==> pos >= Mul(FLAG, unit)
  {
    var q := pos / unit;
    assert pos == q * unit + pos % unit;
    if q >= FLAG {
      MulMonotone(FLAG, q, unit);
    } else {
      MulSub(FLAG, q, unit);
      MulAtLeast(FLAG - q, unit);
    }
  }

  lemma LastWordDecodes(word: nat, unit: nat)
    requires word < WORD && unit > 0
    ensures Mul(ClearFlag(word), unit) ==
            if Mul(word, unit) >= Mul(FLAG, unit) then Mul(word, unit) - Mul(FLAG, unit) else Mul(word, unit)
  {
    MulSub(word, FLAG, unit);
    if word < FLAG {
      MulSub(FLAG, word, unit);
      MulAtLeast(FLAG - word, unit);
    } else {
      MulMonotone(FLAG, word, unit);
      assert ClearFlag(word) == word - FLAG;
    }
  }

  /** What an index entry decodes to. */
  lemma MarkDecodes(p: Params, x: seq<Byte>, i: nat)
    requires Playable(p, x) && i <= BlockCount(p, x)
    ensures DataStart(p, x) <= |Compressed(p, x).value|
    ensures Mul(ClearFlag(WordAt(Compressed(p, x).value, i)), Unit(x)) == Mark(p, x, i) - Back(p, x, i)
  {
    TableFits(p, x);
    if i < BlockCount(p, x) {
      hide Compressed, ClearFlag, WordAt, Mark, Back, ReadStart;
      ReadsAtPosition(p, x, i);
      BeyondIsWraps(p, x, i);
    } else {
      hide Compressed, ClearFlag, WordAt, Mul, BlockCount, Unit, PosAfter, BlockPos;
      WordsReadBack(p, x, i);
      LastWordDecodes(IndexWord(p, x, i), Unit(x));
    }
  }

  // ----- A block never takes more room than it gives -----

  lemma UnitDividesSector(x: seq<Byte>)
    requires AlignOf(|x|) <= 11
    ensures SECTOR % Unit(x) == 0 && Unit(x) <= SECTOR
  {
    SectorUnits(AlignOf(|x|));
    var u, k := Unit(x), SECTOR / Unit(x);
    DivModIs(SECTOR, k, 0, u);
    MulAtLeast(k, u);
  }

  /** Rounding up stays below the next aligned position. */
  lemma AlignUpBelow(pos: nat, bound: nat, unit: nat)
    requires unit > 0 && pos <= bound && bound % unit == 0
    ensures AlignUp(pos, unit) <= bound
  {
    if pos % unit != 0 {
      var q, k := pos / unit, bound / unit;
      assert pos == q * unit + pos % unit && bound == k * unit;
      if k <= q {
        MulMonotone(k, q, unit);
      }
      MulSub(k, q, unit);
      MulAtLeast(k - q, unit);
    }
  }

  lemma RoundDown(pos: nat, unit: nat)
    requires unit > 0
    ensures pos - unit < pos / unit * unit <= pos
    ensures pos / unit * unit == pos <==> pos % unit == 0
  {}

  lemma StoredFits(p: Params, x: seq<Byte>, i: nat)
    requires Playable(p, x) && i < BlockCount(p, x)
    ensures |Stored(p, x, i)| <= SECTOR
  {
  }

  lemma BlockPosAligned(p: Params, x: seq<Byte>, i: nat)
    requires ValidParams(p) && i < BlockCount(p, x)
    ensures BlockPos(p, x, i) % Unit(x) == 0
  {
    AlignUpMultiple(PosAfter(p, x, i), Unit(x));
    DivModIs(BlockPos(p, x, i), BlockPos(p, x, i) / Unit(x), 0, Unit(x));
  }

  /** Neighbouring entries are at most a sector apart, and exactly a sector for a plain block. */
  lemma SpanFits(p: Params, x: seq<Byte>, i: nat)
    requires Playable(p, x) && i < BlockCount(p, x)
    ensures Mark(p, x, i) <= Mark(p, x, i + 1) <= Mark(p, x, i) + SECTOR
    ensures IsPlain(p, x, i) ==> Mark(p, x, i + 1) == Mark(p, x, i) + SECTOR
    ensures Complete(p, x, i) <==> i + 1 < BlockCount(p, x) || IsPlain(p, x, i) || PosAfter(p, x, i + 1) % Unit(x) == 0
  {
    var pos, end, unit := BlockPos(p, x, i), PosAfter(p, x, i + 1), Unit(x);
    StoredFits(p, x, i);
    BlockPosAligned(p, x, i);
    UnitDividesSector(x);
    AlignedSum(pos, SECTOR, unit);
    AlignUpBelow(end, pos + SECTOR, unit);
    RoundDown(end, unit);
    RoundDownAbove(pos, end, unit);
  }

  lemma RoundDownAbove(a: nat, b: nat, unit: nat)
    requires unit > 0 && a <= b && a % unit == 0
    ensures a <= b / unit * unit
  {
    var q, k := a / unit, b / unit;
    assert a == q * unit && b == k * unit + b % unit;
    if k < q {
      MulSub(q, k, unit);
      MulAtLeast(q - k, unit);
    } else {
      MulSub(k, q, unit);
      assert (k - q) * unit >= 0;
    }
  }

  /** What is still packed always fits above what is still to be unpacked. */
  lemma {:induction false} RestFits(p: Params, x: seq<Byte>, i: nat, j: nat)
    requires Playable(p, x) && i <= j <= BlockCount(p, x)
    ensures Mark(p, x, i) <= Mark(p, x, j) <= Mark(p, x, i) + (j - i) * SECTOR
    decreases j
  {
    if i < j {
      RestFits(p, x, i, j - 1);
      SpanFits(p, x, j - 1);
    }
  }

  /** Only a compressed last block can be delimited short, and only when the data
      does not end on a multiple of the shift unit; images below 2 GiB never are. */
  lemma CompleteIff(p: Params, x: seq<Byte>, i: nat)
    requires Playable(p, x) && i < BlockCount(p, x)
    ensures Complete(p, x, i) <==>
            i + 1 < BlockCount(p, x) || IsPlain(p, x, i) || PosAfter(p, x, BlockCount(p, x)) % Unit(x) == 0
    ensures |x| < FLAG ==> Complete(p, x, i)
  {
    SpanFits(p, x, i);
    if |x| < FLAG {
      assert Pow2(0) == 1;
    }
  }

  // ----- What a sector delivers -----

  /** Where a request from block `lsn` on looks for block `i`. */
  ghost function Look(p: Params, x: seq<Byte>, lsn: nat, i: nat): (pos: nat)
    requires ValidParams(p) && p.bs == SECTOR && lsn <= i <= BlockCount(p, x)
  {
    var back := Back(p, x, lsn);
    if back <= Mark(p, x, i) then Mark(p, x, i) - back else 0
  }

  /** The bytes the index entries of block `i` delimit there. */
  ghost function Packed(p: Params, x: seq<Byte>, file: seq<Byte>, lsn: nat, i: nat): seq<Byte>
    requires ValidParams(p) && p.bs == SECTOR && lsn <= i < BlockCount(p, x)
  {
    var from, to := Look(p, x, lsn, i), Look(p, x, lsn, i + 1);
    if from <= to <= |file| then file[from..to] else []
  }

  /** `sector` is what the codec makes of `packed` and the stale bytes `t` after it. */
  ghost predicate MadeOf(fast: seq<Byte> -> seq<Byte>, packed: seq<Byte>, t: seq<Byte>, sector: seq<Byte>) {
    |packed| + |t| == SECTOR && sector == fast(packed + t)
  }

  /** A sector read for block `i` in a request from `lsn` on: the block; for a block
      delimited short whatever the codec makes of the delimited bytes and stale ones
      after them; and if the position of `lsn` needs bit 31, the bytes found 2^31
      units before the block. */
  ghost predicate Delivers(p: Params, x: seq<Byte>, file: seq<Byte>, fast: seq<Byte> -> seq<Byte>, lsn: nat, i: nat,
                           sector: seq<Byte>)
    requires ValidParams(p) && p.bs == SECTOR && lsn <= i < BlockCount(p, x)
  {
    if Beyond(p, x, lsn) then sector == Packed(p, x, file, lsn, i)
    else if Complete(p, x, i) then sector == Block(p, x, i)
    else exists t :: MadeOf(fast, Packed(p, x, file, lsn, i), t, sector)
  }

  lemma BeyondMonotone(p: Params, x: seq<Byte>, i: nat, j: nat)
    requires Playable(p, x) && i <= j <= BlockCount(p, x)
    ensures Beyond(p, x, i) ==> Beyond(p, x, j)
    ensures Look(p, x, i, j) == Mark(p, x, j) - Back(p, x, i)
  {
    hide Mark;
    RestFits(p, x, i, j);
  }

  /** Behind bit 31 every block is plain. */
  lemma BeyondIsPlain(p: Params, x: seq<Byte>, lsn: nat, i: nat)
    requires Playable(p, x) && lsn <= i < BlockCount(p, x) && Beyond(p, x, lsn)
    ensures Wraps(p, x, i) && IsPlain(p, x, i)
  {
    hide Mark, IsPlain, Wraps, BlockPos;
    BeyondMonotone(p, x, lsn, i);
    BeyondIsWraps(p, x, i);
    ReadsAtPosition(p, x, i);
  }

  /** Nothing of an image that does not grow lies beyond, so every request for it is delivered. */
  lemma ShrunkIsDelivered(p: Params, x: seq<Byte>, i: nat, j: nat)
    requires Playable(p, x) && |Compressed(p, x).value| <= |x| && i <= j <= BlockCount(p, x)
    ensures !Beyond(p, x, i) && Spans(p, x, i, j)
  {
    hide Compressed, Mark;
    FlagExceedsImage(x);
    MarkInFile(p, x, i);
    MarkInFile(p, x, j);
  }

  /** A complete block is delivered as it is unless the request begins where
      positions need bit 31 and the block is misread there. */
  lemma DeliversBlockIff(p: Params, x: seq<Byte>, file: seq<Byte>, fast: seq<Byte> -> seq<Byte>, lsn: nat, i: nat,
                         sector: seq<Byte>)
    requires ValidParams(p) && p.bs == SECTOR && Packs(p, x, file) && lsn <= i < BlockCount(p, x)
    requires Complete(p, x, i) && Delivers(p, x, file, fast, lsn, i, sector)
    ensures sector == Block(p, x, i) <==> !(Beyond(p, x, lsn) && Misread(p, x, file, i))
  {
    if Beyond(p, x, lsn) {
      hide Mark, IsPlain, Wraps, BlockPos, PosAfter, Block, Complete, ReadStart, Compressed, Image, Playable, Encodable;
      PacksFacts(p, x, file);
      FoundBefore(p, x, file, lsn, i);
    }
  }

  lemma FoundBefore(p: Params, x: seq<Byte>, file: seq<Byte>, lsn: nat, i: nat)
    requires Playable(p, x) && Image(p, x, file) && lsn <= i < BlockCount(p, x) && Beyond(p, x, lsn)
    ensures Wraps(p, x, i) && ReadAt(file, ReadStart(p, x, i), SECTOR) == Some(Packed(p, x, file, lsn, i))
  {
    hide Mark, IsPlain, Wraps, BlockPos, PosAfter, Block, ReadStart, Image, ReadAt;
    BeyondIsPlain(p, x, lsn, i);
    BeyondMonotone(p, x, lsn, i);
    BeyondMonotone(p, x, lsn, i + 1);
    BeyondMonotone(p, x, i, i);
    BeyondIsWraps(p, x, i);
    SpanFits(p, x, i);
    PlainStored(p, x, file, i);
    ReadInside(file, ReadStart(p, x, i), SECTOR);
  }

  /** Short of bit 31 the codec is handed a proper prefix of a last block that is not complete. */
  lemma ShortIsCut(p: Params, x: seq<Byte>, lsn: nat, i: nat)
    requires Playable(p, x) && lsn <= i < BlockCount(p, x) && !Beyond(p, x, lsn) && !Complete(p, x, i)
    ensures i + 1 == BlockCount(p, x) && !IsPlain(p, x, i)
    ensures
      var packed := Packed(p, x, Compressed(p, x).value, lsn, i);
      |packed| < |Stored(p, x, i)| && packed <= Stored(p, x, i)
  {
    hide Compressed, BlockPos, PosAfter, Stored, Block, IsPlain;
    SpanFits(p, x, i);
    ImageParts(p, x);
    StoredAt(p, x, i);
    var file, from, end, to := Compressed(p, x).value, BlockPos(p, x, i), PosAfter(p, x, i + 1), Mark(p, x, i + 1);
    assert file[from..to] == file[from..end][..to - from];
  }

  // ----- The size of a request -----

  /** (to - from) << align in 32 bits. */
  function Size32(from: nat, to: nat, align: nat): (size: nat)
    ensures size < WORD
  {
    (to - from) % WORD * Pow2(align) % WORD
  }

  /** The entries `i` and `j` delimit as many bytes as lie between their positions. */
  ghost predicate Spans(p: Params, x: seq<Byte>, i: nat, j: nat)
    requires ValidParams(p) && i <= j <= BlockCount(p, x)
  {
    Beyond(p, x, i) || !Beyond(p, x, j) || AlignOf(|x|) > 0
  }

  lemma PlainSize(from: nat, to: nat, align: nat, d: nat)
    requires Mul(to, Pow2(align)) - Mul(from, Pow2(align)) == d < FLAG
    ensures Size32(from, to, align) == d
  {
    hide Pow2;
    StepsAre(from, to, 0, Pow2(align), d);
    NoWrap(to - from, Pow2(align), d);
  }

  lemma NoWrap(steps: nat, u: nat, d: nat)
    requires u > 0 && steps * u == d < FLAG
    ensures steps % WORD * u % WORD == d
  {
    DoesNotShrink(steps, u);
    assert steps % WORD == steps;
  }

  lemma DoesNotShrink(a: nat, b: nat)
    requires b > 0
    ensures a <= a * b
  {}

  /** Without a shift the lost bit 31 makes the size too large; with one it is
      shifted out of the word. */
  lemma CrossingSize(from: nat, to: nat, align: nat, d: nat)
    requires from < FLAG && to < FLAG
    requires Mul(to, Pow2(align)) + Mul(FLAG, Pow2(align)) - Mul(from, Pow2(align)) == d < FLAG
    ensures Size32(from, to, align) == if align == 0 then d + FLAG else d
  {
    hide Pow2;
    var u, steps := Pow2(align), to - from + FLAG;
    StepsAre(from, to, FLAG, u, d);
    DoesNotShrink(steps, u);
    DivModIs(to - from, -1, steps + FLAG, WORD);
    BitLeaves(steps, align, d);
  }

  lemma StepsAre(from: nat, to: nat, more: nat, u: nat, d: nat)
    requires u > 0 && Mul(to, u) + Mul(more, u) - Mul(from, u) == d
    ensures to - from + more >= 0 && (to - from + more) * u == d
  {
    Distribute(to, more, u);
    MulSub(to + more, from, u);
    if to + more < from {
      MulSub(from, to + more, u);
      MulAtLeast(from - to - more, u);
    }
  }

  lemma BitLeaves(steps: nat, align: nat, d: nat)
    requires steps * Pow2(align) == d < FLAG
    ensures (steps + FLAG) * Pow2(align) % WORD == if align == 0 then d + FLAG else d
  {
    if align == 0 {
      assert Pow2(0) == 1;
    } else {
      var half := Pow2(align - 1);
      assert Pow2(align) == 2 * half;
      Distribute(steps, FLAG, Pow2(align));
      assert FLAG * Pow2(align) == half * WORD;
      DivModIs((steps + FLAG) * Pow2(align), half, d, WORD);
    }
  }

  lemma Distribute(a: nat, b: nat, c: nat)
    ensures (a + b) * c == a * c + b * c
  {}

  lemma SpansInside(p: Params, x: seq<Byte>, lsn: nat, count: nat, i: nat)
    requires Playable(p, x) && i < count && lsn + count <= BlockCount(p, x) && Spans(p, x, lsn, lsn + count)
    ensures Spans(p, x, lsn + i, lsn + i + 1)
  {
    hide Beyond;
    BeyondMonotone(p, x, lsn, lsn + i);
    BeyondMonotone(p, x, lsn + i + 1, lsn + count);
  }

  // ----- Unpacking in place -----

  /** After `i` of `count` blocks: the first `i` sectors are unpacked, the packed
      bytes of the others stand untouched at the end of the buffer, from `c`. */
  ghost predicate Unpacking(p: Params, x: seq<Byte>, file: seq<Byte>, fast: seq<Byte> -> seq<Byte>,
                            lsn: nat, count: nat, i: nat, b: seq<Byte>, c: nat)
    requires ValidParams(p) && p.bs == SECTOR
  {
    && i <= count && lsn + count <= BlockCount(p, x) && count * SECTOR <= |b|
    && Spans(p, x, lsn, lsn + count)
    && Look(p, x, lsn, lsn + i) <= Look(p, x, lsn, lsn + count) <= |file|
    && c + (Look(p, x, lsn, lsn + count) - Look(p, x, lsn, lsn + i)) == count * SECTOR
    && b[c..count * SECTOR] == file[Look(p, x, lsn, lsn + i)..Look(p, x, lsn, lsn + count)]
    && forall j :: 0 <= j < i ==> Delivers(p, x, file, fast, lsn, lsn + j, b[j * SECTOR..j * SECTOR + SECTOR])
  }

  /** The room block `lsn + i` takes among the packed bytes. */
  lemma RoomOf(p: Params, x: seq<Byte>, file: seq<Byte>, fast: seq<Byte> -> seq<Byte>,
               lsn: nat, count: nat, i: nat, b: seq<Byte>, c: nat)
    requires Playable(p, x) && Image(p, x, file) && Unpacking(p, x, file, fast, lsn, count, i, b, c) && i < count
    ensures
      var r := Mark(p, x, lsn + i + 1) - Mark(p, x, lsn + i);
      && i * SECTOR <= c && 0 <= r <= SECTOR && c + r <= count * SECTOR && (i + 1) * SECTOR <= c + r
      && (IsPlain(p, x, lsn + i) ==> r == SECTOR)
  {
    hide Image, BlockPos, Block, Stored, Complete, Delivers, Look;
    SpanFits(p, x, lsn + i);
    RestFits(p, x, lsn + i, lsn + count);
    RestFits(p, x, lsn + i + 1, lsn + count);
    BeyondMonotone(p, x, lsn, lsn + i);
    BeyondMonotone(p, x, lsn, lsn + count);
  }

  lemma SamePrefix(b: seq<Byte>, c: nat, end: nat, file: seq<Byte>, from: nat, to: nat, n: nat)
    requires c <= end <= |b| && from <= to <= |file| && b[c..end] == file[from..to] && from + n <= to
    ensures c + n <= |b| && b[c..c + n] == file[from..from + n]
  {
    assert b[c..c + n] == b[c..end][..n] && file[from..from + n] == file[from..to][..n];
  }

  /** The packed bytes of a block start where the reader looks for them. */
  lemma PackedBytes(p: Params, x: seq<Byte>, file: seq<Byte>, fast: seq<Byte> -> seq<Byte>,
                    lsn: nat, count: nat, i: nat, b: seq<Byte>, c: nat)
    requires Playable(p, x) && Image(p, x, file) && Unpacking(p, x, file, fast, lsn, count, i, b, c) && i < count
    requires Complete(p, x, lsn + i) && !Beyond(p, x, lsn)
    ensures
      var z := Stored(p, x, lsn + i);
      && |z| <= Mark(p, x, lsn + i + 1) - Mark(p, x, lsn + i)
      && c + |z| <= |b| && b[c..c + |z|] == z
  {
    hide BlockPos, PosAfter, Block, Stored, AlignUp, IsPlain, Pads, Playable, Pow2, Delivers, Spans, Beyond, Mul, Quot,
      Wraps, ReadStart, WordAt, HasFlag, ClearFlag;
    var k, z := lsn + i, Stored(p, x, lsn + i);
    RestFits(p, x, k + 1, lsn + count);
    PositionsStep(p, x, k);
    assert Holds(p, x, file, k);
    SamePrefix(b, c, count * SECTOR, file, Mark(p, x, k), Mark(p, x, lsn + count), |z|);
  }

  lemma PositionsStep(p: Params, x: seq<Byte>, k: nat)
    requires ValidParams(p) && k < BlockCount(p, x)
    ensures PosAfter(p, x, k + 1) == BlockPos(p, x, k) + |Stored(p, x, k)|
  {}

  lemma RestUntouched(b: seq<Byte>, c: nat, end: nat, file: seq<Byte>, from: nat, to: nat, r: nat,
                      at: nat, out: seq<Byte>)
    requires c + r <= end <= |b| && from + r <= to <= |file| && b[c..end] == file[from..to]
    requires at + |out| <= c + r
    ensures Splice(b, at, out)[c + r..end] == file[from + r..to]
  {
    assert Splice(b, at, out)[c + r..end] == b[c + r..end] == b[c..end][r..];
    assert file[from + r..to] == file[from..to][r..];
  }

  lemma EarlierUntouched(b: seq<Byte>, at: nat, out: seq<Byte>, j: nat, i: nat)
    requires at == i * SECTOR && at + |out| <= |b| && j < i
    ensures j * SECTOR + SECTOR <= at
    ensures Splice(b, at, out)[j * SECTOR..j * SECTOR + SECTOR] == b[j * SECTOR..j * SECTOR + SECTOR]
  {}

  /** Writing one unpacked sector keeps the packed bytes of the blocks to come. */
  lemma StepUnpacks(p: Params, x: seq<Byte>, file: seq<Byte>, fast: seq<Byte> -> seq<Byte>,
                    lsn: nat, count: nat, i: nat, b: seq<Byte>, c: nat, r: nat, out: seq<Byte>)
    requires Playable(p, x) && Image(p, x, file) && Unpacking(p, x, file, fast, lsn, count, i, b, c) && i < count
    requires r == Mark(p, x, lsn + i + 1) - Mark(p, x, lsn + i)
    requires |out| == SECTOR && Delivers(p, x, file, fast, lsn, lsn + i, out)
    ensures i * SECTOR + SECTOR <= |b|
    ensures Unpacking(p, x, file, fast, lsn, count, i + 1, Splice(b, i * SECTOR, out), c + r)
  {
    hide Image, BlockPos, PosAfter, Block, Stored, Complete, Mark, Delivers, Look, Back, Spans;
    var k := lsn + i;
    RoomOf(p, x, file, fast, lsn, count, i, b, c);
    RestFits(p, x, k + 1, lsn + count);
    BeyondMonotone(p, x, lsn, k);
    BeyondMonotone(p, x, lsn, k + 1);
    BeyondMonotone(p, x, lsn, lsn + count);
    RestUntouched(b, c, count * SECTOR, file, Look(p, x, lsn, k), Look(p, x, lsn, lsn + count), r, i * SECTOR, out);
    forall j | 0 <= j < i + 1
      ensures Delivers(p, x, file, fast, lsn, lsn + j, Splice(b, i * SECTOR, out)[j * SECTOR..j * SECTOR + SECTOR])
    {
      if j < i {
        EarlierUntouched(b, i * SECTOR, out, j, i);
      } else {
        assert Splice(b, i * SECTOR, out)[i * SECTOR..i * SECTOR + SECTOR] == out;
      }
    }
  }

  lemma SplicedAt(s: seq<Byte>, at: nat, from: nat, n: nat, k: nat)
    requires at + n <= |s| && from + n <= |s| && k < |s|
    ensures Splice(s, at, s[from..from + n])[k] == if at <= k < at + n then s[from + (k - at)] else s[k]
  {}

  /** memcpy towards lower addresses, byte by byte from the front. */
  method MoveDown(buf: array<Byte>, dst: nat, src: nat, n: nat)
    requires dst <= src && src + n <= buf.Length
    modifies buf
    ensures buf[..] == Splice(old(buf[..]), dst, old(buf[src..src + n]))
  {
    ghost var before := buf[..];
    for i := 0 to n
      invariant forall k :: 0 <= k < buf.Length ==>
        buf[k] == if dst <= k < dst + i then old(buf[src + (k - dst)]) else old(buf[k])
    {
      buf[dst + i] := buf[src + i];
    }
    ghost var moved := Splice(before, dst, before[src..src + n]);
    forall k | 0 <= k < buf.Length ensures buf[k] == moved[k] {
      SplicedAt(before, dst, src, n, k);
    }
    assert buf[..] == moved;
  }

  /** What LZ4_decompress_fast makes of the temporary buffer: it reads as many
      bytes as 2048 bytes of output need and ignores the rest. */
  ghost predicate FastSound(p: Params, fast: seq<Byte> -> seq<Byte>) {
    && (forall t :: |fast(t)| == SECTOR)
    && forall b: seq<Byte>, t :: |b| == SECTOR ==> fast(p.codec.compress(b) + t) == b
  }

  /** `file` is what the compressor makes of `x`. */
  ghost predicate Packs(p: Params, x: seq<Byte>, file: seq<Byte>) {
    Playable(p, x) && Compressed(p, x) == Some(file)
  }

  lemma PacksFacts(p: Params, x: seq<Byte>, file: seq<Byte>)
    requires Packs(p, x, file)
    ensures ValidParams(p) && p.bs == SECTOR && DataStart(p, x) <= |file| && Image(p, x, file)
  {
    TableFits(p, x);
    CompressedIsImage(p, x);
  }

  /** What two index entries give: the position of the first, and in 32 bits the
      bytes between them, unless bit 31 is lost between them without a shift. */
  lemma EntriesSpan(p: Params, x: seq<Byte>, file: seq<Byte>, i: nat, j: nat, w1: nat, w2: nat)
    requires ValidParams(p) && Packs(p, x, file) && i <= j <= BlockCount(p, x) && DataStart(p, x) <= |file|
    requires j < i + IDX_MAX_ENTRIES && w1 == WordAt(file, i) && w2 == WordAt(file, j)
    ensures Mul(ClearFlag(w1), Unit(x)) == Mark(p, x, i) - Back(p, x, i)
    ensures 0 <= Mark(p, x, j) - Mark(p, x, i) <= (j - i) * SECTOR
    ensures Size32(ClearFlag(w1), ClearFlag(w2), AlignOf(|x|)) ==
            Mark(p, x, j) - Mark(p, x, i) + if Spans(p, x, i, j) then 0 else FLAG
    ensures Mark(p, x, j) <= |file|
  {
    hide Compressed, ClearFlag, WordAt, Size32, Mark, Mul, Encodable;
    MarkDecodes(p, x, i);
    MarkDecodes(p, x, j);
    RestFits(p, x, i, j);
    BeyondMonotone(p, x, i, j);
    MarkInFile(p, x, j);
    Cleared(w1);
    Cleared(w2);
    if !Beyond(p, x, i) && Beyond(p, x, j) {
      CrossingSize(ClearFlag(w1), ClearFlag(w2), AlignOf(|x|), Mark(p, x, j) - Mark(p, x, i));
    } else {
      PlainSize(ClearFlag(w1), ClearFlag(w2), AlignOf(|x|), Mark(p, x, j) - Mark(p, x, i));
    }
  }

  lemma Cleared(w: nat)
    ensures ClearFlag(w) < FLAG
  {}

  lemma MarkInFile(p: Params, x: seq<Byte>, j: nat)
    requires Playable(p, x) && j <= BlockCount(p, x)
    ensures Compressed(p, x).Some? && Mark(p, x, j) <= |Compressed(p, x).value|
  {
    hide BlockPos, Encodable;
    RestFits(p, x, j, BlockCount(p, x));
    RoundDown(PosAfter(p, x, BlockCount(p, x)), Unit(x));
    ImageParts(p, x);
  }

  /** Packed bytes that begin with the stored block unpack to the block. */
  lemma UnpacksTo(p: Params, x: seq<Byte>, fast: seq<Byte> -> seq<Byte>, i: nat, packed: seq<Byte>, t: seq<Byte>)
    requires ValidParams(p) && p.bs == SECTOR && FastSound(p, fast) && i < BlockCount(p, x)
    requires Stored(p, x, i) <= packed && (IsPlain(p, x, i) ==> |packed| == SECTOR)
    ensures Block(p, x, i) == if IsPlain(p, x, i) then packed else fast(packed + t)
  {
    var z := Stored(p, x, i);
    assert packed + t == z + (packed[|z|..] + t);
  }

  /** One unpacked sector; `t` is what follows the packed bytes in the temporary buffer. */
  ghost function SectorOf(fast: seq<Byte> -> seq<Byte>, plain: bool, packed: seq<Byte>, t: seq<Byte>): seq<Byte> {
    if plain then packed else fast(packed + t)
  }

  /** Where the entries of a block say its packed bytes are: inside the buffer,
      and nowhere over what is still packed once the sector is written. */
  lemma RoundRoom(p: Params, x: seq<Byte>, file: seq<Byte>, fast: seq<Byte> -> seq<Byte>,
                  lsn: nat, count: nat, i: nat, b: seq<Byte>, c: nat, w1: nat, w2: nat)
    returns (r: nat)
    requires ValidParams(p) && p.bs == SECTOR && Packs(p, x, file) && DataStart(p, x) <= |file|
    requires Unpacking(p, x, file, fast, lsn, count, i, b, c) && i < count
    requires lsn + count <= BlockCount(p, x) && w1 == WordAt(file, lsn + i) && w2 == WordAt(file, lsn + i + 1)
    ensures r == Size32(ClearFlag(w1), ClearFlag(w2), AlignOf(|x|)) == Mark(p, x, lsn + i + 1) - Mark(p, x, lsn + i)
    ensures r <= SECTOR
    ensures i * SECTOR <= c && c + r <= count * SECTOR <= |b| && i * SECTOR + SECTOR <= |b|
    ensures HasFlag(w1) == IsPlain(p, x, lsn + i) && (HasFlag(w1) ==> r == SECTOR)
  {
    hide Compressed, ClearFlag, WordAt, Mark, Complete, Block, Stored, Image, BlockPos, PosAfter, HasFlag, Size32,
      Delivers, Look, Spans, Encodable;
    SpansInside(p, x, lsn, count, i);
    CompressedIsImage(p, x);
    ReadsAtPosition(p, x, lsn + i);
    EntriesSpan(p, x, file, lsn + i, lsn + i + 1, w1, w2);
    RoomOf(p, x, file, fast, lsn, count, i, b, c);
    r := Mark(p, x, lsn + i + 1) - Mark(p, x, lsn + i);
  }

  /** The bytes the entries delimit stand where the reader looks for them. */
  lemma DelimitedBytes(p: Params, x: seq<Byte>, file: seq<Byte>, fast: seq<Byte> -> seq<Byte>,
                       lsn: nat, count: nat, i: nat, b: seq<Byte>, c: nat)
    requires Playable(p, x) && Unpacking(p, x, file, fast, lsn, count, i, b, c) && i < count
    ensures
      var r := Mark(p, x, lsn + i + 1) - Mark(p, x, lsn + i);
      r >= 0 && c + r <= |b| && b[c..c + r] == Packed(p, x, file, lsn, lsn + i)
  {
    hide Mark, Delivers, Look, Back, Spans;
    RestFits(p, x, lsn + i, lsn + i + 1);
    RestFits(p, x, lsn + i + 1, lsn + count);
    BeyondMonotone(p, x, lsn, lsn + i);
    BeyondMonotone(p, x, lsn, lsn + i + 1);
    BeyondMonotone(p, x, lsn, lsn + count);
    SamePrefix(b, c, count * SECTOR, file, Look(p, x, lsn, lsn + i), Look(p, x, lsn, lsn + count),
               Mark(p, x, lsn + i + 1) - Mark(p, x, lsn + i));
  }

  /** Writing the unpacked sector of the block makes one more round. */
  lemma RoundUnpacks(p: Params, x: seq<Byte>, file: seq<Byte>, fast: seq<Byte> -> seq<Byte>,
                     lsn: nat, count: nat, i: nat, b: seq<Byte>, c: nat, r: nat, t: seq<Byte>)
    requires ValidParams(p) && p.bs == SECTOR && Packs(p, x, file) && FastSound(p, fast)
    requires Unpacking(p, x, file, fast, lsn, count, i, b, c) && i < count && lsn + count <= BlockCount(p, x)
    requires r == Mark(p, x, lsn + i + 1) - Mark(p, x, lsn + i) && c + r <= |b|
    requires if IsPlain(p, x, lsn + i) then r == SECTOR else r + |t| == SECTOR
    ensures i * SECTOR + SECTOR <= |b| && |SectorOf(fast, IsPlain(p, x, lsn + i), b[c..c + r], t)| == SECTOR
    ensures Unpacking(p, x, file, fast, lsn, count, i + 1,
                      Splice(b, i * SECTOR, SectorOf(fast, IsPlain(p, x, lsn + i), b[c..c + r], t)), c + r)
  {
    hide Compressed, Mark, Complete, Block, Stored, Image, BlockPos, PosAfter, Beyond, Look, Spans,
      Unpacking, Encodable;
    var k, out := lsn + i, SectorOf(fast, IsPlain(p, x, lsn + i), b[c..c + r], t);
    PacksFacts(p, x, file);
    RoomOf(p, x, file, fast, lsn, count, i, b, c);
    if Beyond(p, x, lsn) {
      BeyondIsPlain(p, x, lsn, k);
      DelimitedBytes(p, x, file, fast, lsn, count, i, b, c);
    } else if Complete(p, x, k) {
      PackedBytes(p, x, file, fast, lsn, count, i, b, c);
      assert b[c..c + |Stored(p, x, k)|] <= b[c..c + r];
      UnpacksTo(p, x, fast, k, b[c..c + r], t);
    } else {
      ShortIsCut(p, x, lsn, k);
      DelimitedBytes(p, x, file, fast, lsn, count, i, b, c);
      assert MadeOf(fast, Packed(p, x, file, lsn, k), t, out);
    }
    StepUnpacks(p, x, file, fast, lsn, count, i, b, c, r, out);
  }

  // ----- The reader -----

  class Reader {
    const src: Source
    const fast: seq<Byte> -> seq<Byte>
    const align: nat
    const totalBlock: nat
    const tmpBuf: array<Byte>
    const idxCache: array<Byte>
    var idxStartBlock: int
    /** The image, its compressed form, and how it was compressed. */
    ghost const p: Params
    ghost const x: seq<Byte>
    ghost const file: seq<Byte>

    ghost predicate Valid()
      reads this, idxCache
    {
      && ValidParams(p) && p.bs == SECTOR && Packs(p, x, file) && FastSound(p, fast)
      && DataStart(p, x) <= |file|
      && file <= Content(src) && (src.Hdd? ==> |file| + 2 * SECTOR <= |Content(src)|)
      && align == AlignOf(|x|) <= 11 && totalBlock == BlockCount(p, x)
      && tmpBuf.Length == SECTOR && idxCache.Length == 4 * IDX_MAX_ENTRIES && tmpBuf != idxCache
      && -1 <= idxStartBlock
      && (idxStartBlock >= 0 ==> CacheHolds(idxCache[..], idxStartBlock))
    }

    /** The cache holds the index entries from `start` on, as far as there are any. */
    ghost predicate CacheHolds(cache: seq<Byte>, start: nat)
      requires |cache| == 4 * IDX_MAX_ENTRIES && HEADER_SIZE + 4 * (totalBlock + 1) <= |file|
    {
      forall j: nat :: j < IDX_MAX_ENTRIES && start + j <= totalBlock ==>
        UnpackU32(cache[4 * j..4 * j + 4]) == WordAt(file, start + j)
    }

    /** ziso_init, from the header of the image; the disk goes on after the image. */
    constructor (src: Source, fast: seq<Byte> -> seq<Byte>, header: Fields, ghost p: Params, ghost x: seq<Byte>)
      requires Playable(p, x) && FastSound(p, fast) && header == FieldsOf(p, x)
      requires Compressed(p, x).value <= Content(src)
      requires src.Hdd? ==> |Compressed(p, x).value| + 2 * SECTOR <= |Content(src)|
      ensures Valid() && this.p == p && this.x == x && fresh(tmpBuf) && fresh(idxCache)
    {
      TableFits(p, x);
      this.src, this.fast := src, fast;
      this.p, this.x, file := p, x, Compressed(p, x).value;
      align := header.align;
      totalBlock := header.total / SECTOR;
      tmpBuf := new Byte[SECTOR];
      idxCache := new Byte[4 * IDX_MAX_ENTRIES];
      idxStartBlock := -1;
    }

    /** The cached index entry of block `i`. */
    method Entry(i: nat) returns (word: nat)
      requires Valid() && 0 <= idxStartBlock <= i < idxStartBlock + IDX_MAX_ENTRIES && i <= totalBlock
      ensures word == WordAt(file, i)
    {
      hide Packs, FastSound;
      var j: nat := i - idxStartBlock;
      word := UnpackU32(idxCache[..][4 * j..4 * j + 4]);
    }

    /** Loads the index entries from `lsn` on. */
    method RefreshIndex(lsn: nat)
      requires Valid() && lsn < totalBlock
      modifies idxCache, tmpBuf, this`idxStartBlock
      ensures Valid() && idxStartBlock == lsn
    {
      hide Packs, FastSound, Splice, Filled, UnpackU32, WordAt, CacheHolds;
      var offset := lsn * 4 + HEADER_SIZE;
      ghost var before := idxCache[..];
      assert ByteOf(offset, 0) == offset;
      var got := ReadRawData(src, idxCache, 0, IDX_MAX_ENTRIES * 4, offset, 0, tmpBuf);
      idxStartBlock := lsn;
      Refreshed(before, idxCache[..], lsn);
    }

    /** A cache filled from the index entry of `lsn` on holds the entries from there. */
    lemma Refreshed(before: seq<Byte>, cache: seq<Byte>, lsn: nat)
      requires |before| == 4 * IDX_MAX_ENTRIES && HEADER_SIZE + 4 * (totalBlock + 1) <= |file| && file <= Content(src)
      requires cache == Filled(src, before, 0, IDX_MAX_ENTRIES * 4, lsn * 4 + HEADER_SIZE)
      ensures |cache| == 4 * IDX_MAX_ENTRIES && CacheHolds(cache, lsn)
    {
      hide UnpackU32, Content;
      var offset, got := lsn * 4 + HEADER_SIZE, Delivered(src, lsn * 4 + HEADER_SIZE, IDX_MAX_ENTRIES * 4);
      forall j: nat | j < IDX_MAX_ENTRIES && lsn + j <= totalBlock
        ensures UnpackU32(cache[4 * j..4 * j + 4]) == WordAt(file, lsn + j)
      {
        EntryBytes(file, Content(src), cache, offset, got, j);
      }
    }

    static lemma EntryBytes(file: seq<Byte>, content: seq<Byte>, cache: seq<Byte>, offset: nat, got: nat, j: nat)
      requires file <= content && offset + 4 * j + 4 <= |file|
      requires offset + got <= |content| && got <= |cache| && cache[..got] == content[offset..offset + got]
      requires 4 * j + 4 <= got
      ensures cache[4 * j..4 * j + 4] == file[offset + 4 * j..offset + 4 * j + 4]
    {
      SubSlice(content, offset, offset + got, 4 * j, 4 * j + 4);
      assert cache[4 * j..4 * j + 4] == cache[..got][4 * j..4 * j + 4];
      assert content[offset + 4 * j..offset + 4 * j + 4] == file[offset + 4 * j..offset + 4 * j + 4];
    }

    static lemma SubSlice(s: seq<Byte>, a: nat, b: nat, i: nat, j: nat)
      requires a <= b <= |s| && i <= j <= b - a
      ensures s[a..b][i..j] == s[a + i..a + j]
    {
      forall m | 0 <= m < j - i ensures s[a..b][i..j][m] == s[a + i..a + j][m] {
      }
    }

    /** Unpacks the `r` bytes at `c` to the sector at `dst`, which may overlap them. */
    method UnpackSector(buf: array<Byte>, dst: nat, c: nat, r: nat, plain: bool) returns (ghost t: seq<Byte>)
      requires tmpBuf.Length == SECTOR && buf != tmpBuf
      requires dst <= c && c + r <= buf.Length && r <= SECTOR && dst + SECTOR <= buf.Length
      requires plain ==> r == SECTOR
      requires forall s :: |fast(s)| == SECTOR
      modifies buf, tmpBuf
      ensures !plain ==> r + |t| == SECTOR
      ensures |SectorOf(fast, plain, old(buf[..])[c..c + r], t)| == SECTOR
      ensures buf[..] == Splice(old(buf[..]), dst, SectorOf(fast, plain, old(buf[..])[c..c + r], t))
    {
      ghost var before := buf[..];
      if plain {
        hide Splice;
        t := [];
        MoveDown(buf, dst, c, r);
        assert SectorOf(fast, plain, before[c..c + r], t) == before[c..c + r];
        assert buf[..] == Splice(before, dst, before[c..c + r]);
      } else {
        MemCopy(tmpBuf, 0, buf[..], c, r);
        t := tmpBuf[r..];
        var packed := tmpBuf[..];
        assert packed == before[c..c + r] + t;
        hide Splice;
        var out := fast(packed);
        assert out == SectorOf(fast, plain, before[c..c + r], t);
        assert out[0..0 + SECTOR] == out;
        MemCopy(buf, dst, out, 0, SECTOR);
      }
    }

    /** Reads the packed bytes of `k` blocks to the end of their `k` sectors; `lost`
        when by their size they would begin before the buffer. */
    method ReadPacked(buf: array<Byte>, lsn: nat, k: nat) returns (lost: bool, c: nat)
      requires Valid() && buf != tmpBuf && buf != idxCache
      requires lsn + k <= totalBlock && k * SECTOR <= buf.Length
      requires 0 <= idxStartBlock <= lsn && lsn + k < idxStartBlock + IDX_MAX_ENTRIES
      modifies buf, tmpBuf
      ensures Valid() && lost == !Spans(p, x, lsn, lsn + k)
      ensures !lost ==> Unpacking(p, x, file, fast, lsn, k, 0, buf[..], c)
    {
      hide Packs, FastSound, Mark, Complete, ClearFlag, WordAt, Beyond, Spans, Size32, Delivers;
      var w1 := Entry(lsn);
      var w2 := Entry(lsn + k);
      EntriesSpan(p, x, file, lsn, lsn + k, w1, w2);
      var size := Size32(ClearFlag(w1), ClearFlag(w2), align);
      if k * SECTOR < size {
        return true, 0;
      }
      lost, c := false, k * SECTOR - size;
      Looks(lsn, k);
      ghost var before, from, content := buf[..], Look(p, x, lsn, lsn), Content(src);
      assert ByteOf(ClearFlag(w1), align) == from;
      var got := ReadRawData(src, buf, c, size, ClearFlag(w1), align, tmpBuf);
      PackedArrived(before, buf[..], c, file, content, from, size);
    }

    lemma Looks(lsn: nat, k: nat)
      requires Valid() && lsn + k <= totalBlock
      ensures Look(p, x, lsn, lsn) == Mark(p, x, lsn) - Back(p, x, lsn)
      ensures Look(p, x, lsn, lsn + k) == Mark(p, x, lsn + k) - Back(p, x, lsn)
    {
      hide Mark, Look, Back, Compressed, Encodable, CacheHolds, FastSound, Content;
      BeyondMonotone(p, x, lsn, lsn);
      BeyondMonotone(p, x, lsn, lsn + k);
    }

    static lemma PackedArrived(before: seq<Byte>, after: seq<Byte>, c: nat, file: seq<Byte>,
                               content: seq<Byte>, from: nat, size: nat)
      requires file <= content && from + size <= |file| && c + size <= |before|
      requires after == Splice(before, c, if size == 0 then [] else content[from..from + size])
      ensures after[c..c + size] == file[from..from + size]
    {}

    /** One round of the unpacking loop. */
    method UnpackNext(buf: array<Byte>, lsn: nat, k: nat, i: nat, c: nat) returns (c': nat)
      requires Valid() && buf != tmpBuf && buf != idxCache && i < k && lsn + k <= totalBlock
      requires 0 <= idxStartBlock <= lsn && lsn + k < idxStartBlock + IDX_MAX_ENTRIES
      requires Unpacking(p, x, file, fast, lsn, k, i, buf[..], c)
      modifies buf, tmpBuf
      ensures Valid() && Unpacking(p, x, file, fast, lsn, k, i + 1, buf[..], c')
    {
      hide Packs, ClearFlag, WordAt, Unpacking, HasFlag, SectorOf, Mark, IsPlain, Splice, Content,
        UnpackU32, CacheHolds;
      ghost var b := buf[..];
      var offset := Entry(lsn + i);
      var size := Entry(lsn + i + 1);
      ghost var room := RoundRoom(p, x, file, fast, lsn, k, i, b, c, offset, size);
      var bSize := Size32(ClearFlag(offset), ClearFlag(size), align);
      var r := if bSize < SECTOR then bSize else SECTOR;
      ghost var t := UnpackSector(buf, i * SECTOR, c, r, HasFlag(offset));
      RoundUnpacks(p, x, file, fast, lsn, k, i, b, c, r, t);
      c' := c + bSize;
    }

    /** ziso_read_sector: fills the buffer with up to `count` sectors from `lsn`
        on and answers how many there are; `lost` when it would read and write
        before the buffer. */
    method ReadSector(buf: array<Byte>, lsn: nat, count: nat) returns (k: nat, lost: bool)
      requires Valid() && buf != tmpBuf && buf != idxCache
      requires count < IDX_MAX_ENTRIES && count * SECTOR <= buf.Length
      modifies buf, tmpBuf, idxCache, this`idxStartBlock
      ensures Valid()
      ensures k == if lsn >= BlockCount(p, x) then 0
                   else if lsn + count > BlockCount(p, x) then BlockCount(p, x) - lsn else count
      ensures lost <==> lsn < BlockCount(p, x) && !Spans(p, x, lsn, lsn + k)
      ensures !lost ==> forall j :: 0 <= j < k ==>
        Delivers(p, x, file, fast, lsn, lsn + j, buf[..][j * SECTOR..j * SECTOR + SECTOR])
    {
      hide Packs, FastSound, Complete, Block, Mark, Beyond, Spans, Delivers, Look;
      if lsn >= totalBlock {
        return 0, false;
      }
      k := if lsn + count > totalBlock then totalBlock - lsn else count;
      if idxStartBlock < 0 || lsn < idxStartBlock || lsn + k >= idxStartBlock + IDX_MAX_ENTRIES - 1 {
        RefreshIndex(lsn);
      }
      var c;
      lost, c := ReadPacked(buf, lsn, k);
      if lost {
        return;
      }
      for i := 0 to k
        invariant Valid() && 0 <= idxStartBlock <= lsn && lsn + k < idxStartBlock + IDX_MAX_ENTRIES
        invariant Unpacking(p, x, file, fast, lsn, k, i, buf[..], c)
      {
        c := UnpackNext(buf, lsn, k, i, c);
      }
    }
  }
}
