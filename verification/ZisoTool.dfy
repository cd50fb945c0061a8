/** The loops of pc/ziso.py, sequential and in batches for the process pool,
    proved to write and read exactly the container of ZisoFormat. */
module ZisoTool {
  import opened Options
  import opened Bytes
  import opened Words
  import opened ZisoFormat

  const MP_NR := 1024 * 16

  /** Pads the output up to a multiple of the unit. */
  method SetAlign(fout: seq<Byte>, writePos: nat, unit: nat, pad: Byte) returns (fout': seq<Byte>, pos: nat)
    requires unit > 0
    ensures pos == AlignUp(writePos, unit) && fout' == fout + Pads(pad, pos - writePos)
  {
    fout', pos := fout, writePos;
    if writePos % unit != 0 {
      var alignLen := unit - writePos % unit;
      fout' := fout + Pads(pad, alignLen);
      pos := writePos + alignLen;
    }
  }

  /** The output while `k` blocks are written and the index is still blank. */
  ghost predicate Progress(p: Params, x: seq<Byte>, k: nat, fout: seq<Byte>, writePos: nat, index: seq<nat>) {
    && ValidParams(p) && HeaderFits(p, x) && k <= BlockCount(p, x)
    && fout == Header(p, x) + Zeros(4 * (BlockCount(p, x) + 1)) + Body(p, x, k)
    && writePos == PosAfter(p, x, k)
    && Indexed(p, x, k, index)
  }

  ghost predicate Indexed(p: Params, x: seq<Byte>, k: nat, index: seq<nat>)
    requires ValidParams(p) && k <= BlockCount(p, x)
  {
    && |index| == BlockCount(p, x) + 1
    && forall i :: 0 <= i < k ==> index[i] == IndexWord(p, x, i) && Accepted(p, x, i)
  }

  /** The step both loops take for one block. */
  lemma OneMoreBlock(p: Params, x: seq<Byte>, k: nat, fout: seq<Byte>, writePos: nat, index: seq<nat>)
    requires Progress(p, x, k, fout, writePos, index) && k < BlockCount(p, x)
    ensures BlockPos(p, x, k) == AlignUp(writePos, Unit(x))
    ensures Accepted(p, x, k) ==>
      Progress(p, x, k + 1,
               fout + Pads(p.pad, BlockPos(p, x, k) - writePos) + Stored(p, x, k),
               BlockPos(p, x, k) + |Stored(p, x, k)|,
               index[k := IndexWord(p, x, k)])
  {
    hide Header, Body, Pads, Stored, BlockPos, PosAfter, IndexWord, Accepted, Zeros, BlockCount;
    BodyStep(p, x, k, Header(p, x) + Zeros(4 * (BlockCount(p, x) + 1)));
    PositionStep(p, x, k);
  }

  lemma PositionStep(p: Params, x: seq<Byte>, k: nat)
    requires ValidParams(p) && k < BlockCount(p, x)
    ensures BlockPos(p, x, k) == AlignUp(PosAfter(p, x, k), Unit(x))
    ensures PosAfter(p, x, k + 1) == BlockPos(p, x, k) + |Stored(p, x, k)|
  {}

  lemma BodyStep(p: Params, x: seq<Byte>, k: nat, head: seq<Byte>)
    requires ValidParams(p) && k < BlockCount(p, x)
    ensures head + Body(p, x, k) + Pads(p.pad, BlockPos(p, x, k) - PosAfter(p, x, k)) + Stored(p, x, k) ==
            head + Body(p, x, k + 1)
  {
    Regroup(head, Body(p, x, k), Pads(p.pad, BlockPos(p, x, k) - PosAfter(p, x, k)), Stored(p, x, k));
  }

  lemma Regroup(head: seq<Byte>, a: seq<Byte>, b: seq<Byte>, c: seq<Byte>)
    ensures head + a + b + c == head + (a + b + c)
  {}

  lemma StartsBlank(p: Params, x: seq<Byte>, index: seq<nat>)
    requires ValidParams(p) && HeaderFits(p, x) && |index| == BlockCount(p, x) + 1
    ensures Progress(p, x, 0, Header(p, x) + Zeros(4 * (BlockCount(p, x) + 1)), DataStart(p, x), index)
  {
    var head := Header(p, x) + Zeros(4 * (BlockCount(p, x) + 1));
    assert head + [] == head;
  }

  /** The index words packed one by one; None when one of them is too wide. */
  method PackIndex(words: seq<nat>) returns (table: Option<seq<Byte>>)
    ensures table == None <==> exists i :: 0 <= i < |words| && words[i] >= WORD
    ensures table.Some? ==> (forall i :: 0 <= i < |words| ==> words[i] < WORD) && table.value == PackTable(words)
  {
    var t: seq<Byte> := [];
    for i := 0 to |words|
      invariant forall k :: 0 <= k < i ==> words[k] < WORD
      invariant t == PackTable(words[..i])
    {
      if words[i] >= WORD {
        return None;
      }
      assert words[..i + 1][..i] == words[..i];
      t := t + PackU32(words[i]);
    }
    assert words[..|words|] == words;
    table := Some(t);
  }

  /** The last index entry, and the table written over its blank. */
  method Finish(p: Params, x: seq<Byte>, fout: seq<Byte>, writePos: nat, index: seq<nat>) returns (r: Option<seq<Byte>>)
    requires ValidParams(p) && Progress(p, x, BlockCount(p, x), fout, writePos, index)
    ensures r == Compressed(p, x)
  {
    hide Body, PosAfter, BlockPos, Stored, Pads;
    var n := BlockCount(p, x);
    var words := index[n := Quot(writePos, Unit(x))];
    assert forall i :: 0 <= i <= n ==> words[i] == IndexWord(p, x, i);
    assert words == IndexWords(p, x, n + 1);
    var table := PackIndex(words);
    if table == None {
      return None;
    }
    Overwrite(Header(p, x), Zeros(4 * (n + 1)), Body(p, x, n));
    r := Some(fout[..HEADER_SIZE] + table.value + fout[HEADER_SIZE + 4 * (n + 1)..]);
  }

  lemma Overwrite(head: seq<Byte>, blank: seq<Byte>, body: seq<Byte>)
    ensures (head + blank + body)[..|head|] == head
    ensures (head + blank + body)[|head| + |blank|..] == body
  {}

  lemma BlockSize(p: Params, x: seq<Byte>, k: nat)
    requires ValidParams(p) && k < BlockCount(p, x)
    ensures |Block(p, x, k)| == p.bs
  {}

  /** The part of both loops that writes block `k`: align, index, store plain
      or compressed. Not `ok` where the compressor gives up. */
  method WriteBlock(p: Params, x: seq<Byte>, k: nat, limit: nat, isoData: seq<Byte>, zsoData: seq<Byte>,
                    fout: seq<Byte>, writePos: nat, index: seq<nat>)
    returns (ok: bool, fout': seq<Byte>, writePos': nat, index': seq<nat>)
    requires Progress(p, x, k, fout, writePos, index) && k < BlockCount(p, x)
    requires limit == p.threshold && isoData == Block(p, x, k) && zsoData == p.codec.compress(isoData)
    ensures ok == Accepted(p, x, k)
    ensures ok ==> Progress(p, x, k + 1, fout', writePos', index')
  {
    hide Header, Body, BlockPos, PosAfter, Pads, HasFlag, SetFlag, AlignUp, BlockCount, Zeros;
    BlockSize(p, x, k);
    OneMoreBlock(p, x, k, fout, writePos, index);
    fout', writePos' := SetAlign(fout, writePos, Unit(x), p.pad);
    var word := Quot(writePos', Unit(x));
    var data := zsoData;
    ok := true;
    if 100 * |zsoData| >= limit * |isoData| {
      data := isoData;
      word := SetFlag(word);
    } else if HasFlag(word) {
      ok := false;
    }
    index' := index[k := word];
    fout' := fout' + data;
    writePos' := writePos' + |data|;
  }

  /** compress_zso, one block at a time. */
  method Compress(p: Params, x: seq<Byte>) returns (r: Option<seq<Byte>>)
    requires ValidParams(p)
    ensures r == Compressed(p, x)
  {
    if !HeaderFits(p, x) {
      return None;
    }
    var totalBlock := BlockCount(p, x);
    var index: seq<nat> := seq(totalBlock + 1, _ => 0);
    var fout := Header(p, x) + Zeros(4 * |index|);
    var writePos: nat := |fout|;
    StartsBlank(p, x, index);
    var block := 0;
    while block < totalBlock
      invariant block <= totalBlock && Progress(p, x, block, fout, writePos, index)
    {
      var isoData := Block(p, x, block);
      var zsoData := p.codec.compress(isoData);
      var ok;
      ok, fout, writePos, index := WriteBlock(p, x, block, p.threshold, isoData, zsoData, fout, writePos, index);
      if !ok {
        return None;
      }
      block := block + 1;
    }
    r := Finish(p, x, fout, writePos, index);
  }

  /** compress_zso with the process pool: batches of blocks are read and
      compressed together, then written in order. */
  method CompressPooled(p: Params, x: seq<Byte>) returns (r: Option<seq<Byte>>)
    requires ValidParams(p) && p.threshold <= 100
    ensures r == Compressed(p, x)
  {
    hide Progress, Block;
    if !HeaderFits(p, x) {
      return None;
    }
    var totalBlock := BlockCount(p, x);
    var index: seq<nat> := seq(totalBlock + 1, _ => 0);
    var fout := Header(p, x) + Zeros(4 * |index|);
    var writePos: nat := |fout|;
    StartsBlank(p, x, index);
    var block := 0;
    while block < totalBlock
      invariant block <= totalBlock && Progress(p, x, block, fout, writePos, index)
    {
      var batch := if totalBlock - block < MP_NR then totalBlock - block else MP_NR;
      var isoData, zsoAll := ReadBatch(p, x, block, batch);
      ghost var start := block;
      var i := 0;
      while i < batch
        invariant 0 <= i <= batch && block == start + i
        invariant Progress(p, x, block, fout, writePos, index)
      {
        var limit := if p.threshold < 100 then p.threshold else 100;
        var ok;
        ok, fout, writePos, index := WriteBlock(p, x, block, limit, isoData[i], zsoAll[i], fout, writePos, index);
        if !ok {
          return None;
        }
        block, i := block + 1, i + 1;
      }
    }
    r := Finish(p, x, fout, writePos, index);
  }

  /** A batch of blocks and the answers of the pool, in the same order. */
  method ReadBatch(p: Params, x: seq<Byte>, first: nat, batch: nat)
    returns (isoData: seq<seq<Byte>>, zsoAll: seq<seq<Byte>>)
    requires ValidParams(p) && first + batch <= BlockCount(p, x)
    ensures |isoData| == |zsoAll| == batch
    ensures forall i :: 0 <= i < batch ==> isoData[i] == Block(p, x, first + i)
    ensures forall i :: 0 <= i < batch ==> zsoAll[i] == p.codec.compress(isoData[i])
  {
    isoData, zsoAll := [], [];
    for i := 0 to batch
      invariant |isoData| == |zsoAll| == i
      invariant forall k :: 0 <= k < i ==> isoData[k] == Block(p, x, first + k)
      invariant forall k :: 0 <= k < i ==> zsoAll[k] == p.codec.compress(isoData[k])
    {
      isoData := isoData + [Block(p, x, first + i)];
      zsoAll := zsoAll + [p.codec.compress(isoData[i])];
    }
  }

  /** lz4_decompress: drops the last byte until the library accepts; None where it would try for ever. */
  method Lz4Decompress(codec: Codec, compressed: seq<Byte>) returns (r: Option<seq<Byte>>)
    ensures r == LongestDecodable(codec, compressed)
  {
    var data := compressed;
    while true
      invariant LongestDecodable(codec, data) == LongestDecodable(codec, compressed)
      decreases |data|
    {
      r := codec.decode(data);
      if r.Some? || data == [] {
        return;
      }
      data := data[..|data| - 1];
    }
  }

  /** One round of the loop of decompress_zso. */
  method DecompressBlock(codec: Codec, file: seq<Byte>, f: Fields, indexBuf: seq<nat>, totalBlock: nat, block: nat)
    returns (r: Option<seq<Byte>>)
    requires block < totalBlock && HEADER_SIZE + 4 * (totalBlock + 1) <= |file|
    requires |indexBuf| == totalBlock + 1 && forall i :: 0 <= i <= totalBlock ==> indexBuf[i] == WordAt(file, i)
    ensures r == DecodeBlock(codec, file, f, totalBlock, block)
  {
    hide WordAt, LongestDecodable, Pow2, HasFlag, ClearFlag, ReadAt;
    if f.align < 0 {
      return None;
    }
    var plain := HasFlag(indexBuf[block]);
    var index := ClearFlag(indexBuf[block]);
    var readPos := Mul(index, Pow2(f.align));
    var readSize: int;
    if plain {
      readSize := f.bs;
    } else {
      var index2 := ClearFlag(indexBuf[block + 1]);
      readSize := (index2 - index) * Pow2(f.align);
      if block == totalBlock - 1 {
        readSize := f.total - readPos;
      }
    }
    var zsoData := ReadAt(file, readPos, readSize);
    if zsoData == None {
      return None;
    }
    var decData := zsoData;
    if !plain {
      decData := Lz4Decompress(codec, zsoData.value);
    }
    if decData == None || |decData.value| != f.bs {
      return None;
    }
    r := decData;
  }

  /** decompress_zso. */
  method Decompress(codec: Codec, file: seq<Byte>) returns (r: Option<seq<Byte>>)
    ensures r == Decompressed(codec, file)
  {
    if |file| < HEADER_SIZE {
      return None;
    }
    var f := ReadHeader(file);
    if f.magic != MAGIC || f.bs == 0 || f.total == 0 || f.headerSize != HEADER_SIZE || f.ver > 1 {
      return None;
    }
    var totalBlock := Quot(f.total, f.bs);
    if |file| < HEADER_SIZE + 4 * (totalBlock + 1) {
      return None;
    }
    var indexBuf: seq<nat> := [];
    for i := 0 to totalBlock + 1
      invariant |indexBuf| == i && forall k :: 0 <= k < i ==> indexBuf[k] == WordAt(file, k)
    {
      indexBuf := indexBuf + [WordAt(file, i)];
    }
    r := DecompressBlocks(codec, file, f, indexBuf, totalBlock);
  }

  method DecompressBlocks(codec: Codec, file: seq<Byte>, f: Fields, indexBuf: seq<nat>, totalBlock: nat)
    returns (r: Option<seq<Byte>>)
    requires HEADER_SIZE + 4 * (totalBlock + 1) <= |file|
    requires |indexBuf| == totalBlock + 1 && forall i :: 0 <= i <= totalBlock ==> indexBuf[i] == WordAt(file, i)
    ensures r == DecodeBlocks(codec, file, f, totalBlock, totalBlock)
  {
    hide DecodeBlock, WordAt;
    var fout: seq<Byte> := [];
    var block := 0;
    while block < totalBlock
      invariant block <= totalBlock
      invariant DecodeBlocks(codec, file, f, totalBlock, block) == Some(fout)
    {
      var decData := DecompressBlock(codec, file, f, indexBuf, totalBlock, block);
      if decData == None {
        OneFails(codec, file, f, totalBlock, block, totalBlock);
        return None;
      }
      fout := fout + decData.value;
      block := block + 1;
    }
    r := Some(fout);
  }

  /** One failing block fails the whole image. */
  lemma {:induction false} OneFails(codec: Codec, file: seq<Byte>, f: Fields, n: nat, k: nat, m: nat)
    requires k < m <= n && HEADER_SIZE + 4 * (n + 1) <= |file|
    requires DecodeBlock(codec, file, f, n, k) == None
    ensures DecodeBlocks(codec, file, f, n, m) == None
    decreases m
  {
    hide DecodeBlock;
    if k < m - 1 {
      OneFails(codec, file, f, n, k, m - 1);
    }
  }
}
