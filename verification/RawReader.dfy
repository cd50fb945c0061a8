/** Unaligned reads built from whole sectors (src/zso.c): the same bytes through
    the file descriptor and through the 512-byte sectors of the hard disk. */
module RawReader {
  import opened Bytes
  import opened Arithmetic
  import opened ZisoFormat

  const SECTOR := 2048
  const INT_MAX := 0x7fff_ffff
  const U32 := 0x1_0000_0000

  /** Where the image is: an open file, or a run of sectors of the disk. */
  datatype Source = File(data: seq<Byte>) | Hdd(disk: seq<Byte>, probedLba: nat)

  /** The bytes of the image and whatever follows it on the disk. */
  function Content(src: Source): seq<Byte> {
    match src
    case File(data) => data
    case Hdd(disk, lba) => if lba * 512 <= |disk| then disk[lba * 512..] else []
  }

  /** An image that begins at the probed sector is what the disk delivers. */
  lemma ImageOnDisk(before: seq<Byte>, image: seq<Byte>, rest: seq<Byte>, lba: nat)
    requires |before| == lba * 512
    ensures image <= Content(Hdd(before + image + rest, lba))
  {
    assert (before + image + rest)[lba * 512..] == image + rest;
  }

  /** The byte position of `offset` counted in units of 2^shift. */
  function ByteOf(offset: nat, shift: nat): nat {
    Mul(offset, Pow2(shift))
  }

  function LbaOf(offset: nat, shift: nat): nat
    requires shift <= 11
  {
    SectorUnits(shift);
    Quot(offset, SECTOR / Pow2(shift))
  }

  function PosOf(offset: nat, shift: nat): (pos: nat)
    ensures pos < SECTOR
  {
    ByteOf(offset, shift) % U32 % SECTOR
  }

  lemma SectorUnits(shift: nat)
    requires shift <= 11
    ensures SECTOR / Pow2(shift) > 0 && Pow2(shift) * (SECTOR / Pow2(shift)) == SECTOR
  {
    assert Pow2(0) == 1 && Pow2(1) == 2 && Pow2(2) == 4 && Pow2(3) == 8;
    assert Pow2(4) == 16 && Pow2(5) == 32 && Pow2(6) == 64 && Pow2(7) == 128;
    assert Pow2(8) == 256 && Pow2(9) == 512 && Pow2(10) == 1024 && Pow2(11) == 2048;
  }

  /** Sector number and position inside the sector name the byte position, though
      the shifted offset may wrap around 32 bits. */
  lemma SectorAndPos(offset: nat, shift: nat)
    requires shift <= 11
    ensures LbaOf(offset, shift) * SECTOR + PosOf(offset, shift) == ByteOf(offset, shift)
  {
    hide Pow2;
    var s, u := Pow2(shift), SECTOR / Pow2(shift);
    SectorUnits(shift);
    var q, r := offset / u, offset % u;
    assert offset == q * u + r;
    Rescale(q, r, u, s);
    DivModIs(offset * s, q, r * s, SECTOR);
    WrapKeepsLowBits(offset * s);
  }

  lemma Rescale(q: nat, r: nat, u: nat, s: nat)
    requires r < u && s > 0 && s * u == SECTOR
    ensures (q * u + r) * s == q * SECTOR + r * s && 0 <= r * s < SECTOR
  {
    assert (q * u + r) * s == q * (s * u) + r * s;
    MulSub(u, r, s);
    MulAtLeast(u - r, s);
  }

  lemma WrapKeepsLowBits(n: nat)
    ensures n % U32 % SECTOR == n % SECTOR
  {}

  // ----- Reading -----

  /** `after` is `before` with `n` bytes of `content` written over it. */
  ghost predicate Wrote(before: seq<Byte>, after: seq<Byte>, at: nat, content: seq<Byte>, from: nat, n: nat) {
    at + n <= |before| && from + n <= |content| && after == Splice(before, at, content[from..from + n])
  }

  lemma WroteNothing(before: seq<Byte>, at: nat, content: seq<Byte>, from: nat)
    requires at <= |before| && from <= |content|
    ensures Wrote(before, before, at, content, from, 0)
  {}

  /** Two adjoining pieces written one after the other are one piece. */
  lemma WroteMore(before: seq<Byte>, mid: seq<Byte>, after: seq<Byte>, at: nat, content: seq<Byte>,
                  from: nat, done: nat, more: nat)
    requires Wrote(before, mid, at, content, from, done)
    requires Wrote(mid, after, at + done, content, from + done, more)
    ensures Wrote(before, after, at, content, from, done + more)
  {
    assert content[from..from + done + more] == content[from..from + done] + content[from + done..from + done + more];
  }

  /** A 512-byte disk sector lies where the image says it does. */
  lemma DiskSector(src: Source, lba: nat, k: nat)
    requires src.Hdd? && lba * SECTOR + k * 512 + 512 <= |Content(src)|
    ensures (src.probedLba + lba * 4 + k) * 512 + 512 <= |src.disk|
    ensures src.disk[(src.probedLba + lba * 4 + k) * 512..(src.probedLba + lba * 4 + k) * 512 + 512] ==
            Content(src)[lba * SECTOR + k * 512..lba * SECTOR + k * 512 + 512]
  {}

  /** `n` whole sectors of 2048 bytes, each read as four sectors of 512 bytes. */
  method ReadHDDSectors(src: Source, lba: nat, buf: array<Byte>, at: nat, n: nat)
    requires src.Hdd? && (lba + n) * SECTOR <= |Content(src)|
    requires at + n * SECTOR <= buf.Length
    modifies buf
    ensures Wrote(old(buf[..]), buf[..], at, Content(src), lba * SECTOR, n * SECTOR)
  {
    hide Splice, Content;
    ghost var before, content := buf[..], Content(src);
    var lsn := src.probedLba + lba * 4;
    var p := at;
    WroteNothing(before, at, content, lba * SECTOR);
    for k := 0 to n * 4
      invariant p == at + k * 512
      invariant Wrote(before, buf[..], at, content, lba * SECTOR, k * 512)
    {
      ghost var mid := buf[..];
      DiskSector(src, lba, k);
      MemCopy(buf, p, src.disk, (lsn + k) * 512, 512);
      WroteMore(before, mid, buf[..], at, content, lba * SECTOR, k * 512, 512);
      p := p + 512;
    }
  }

  /** Seeks to the start of a sector in steps whose offsets fit a signed 32-bit number. */
  method LongLseek(lba: nat) returns (pos: nat)
    ensures pos == lba * SECTOR
  {
    var most := INT_MAX / SECTOR;
    if lba > most {
      assert most * SECTOR <= INT_MAX;
      pos := most * SECTOR;
      var remaining := lba - most;
      while remaining > 0
        invariant 0 <= remaining && pos == (lba - remaining) * SECTOR
      {
        var toSeek := if remaining > most then most else remaining;
        assert toSeek * SECTOR <= INT_MAX;
        pos := pos + toSeek * SECTOR;
        remaining := remaining - toSeek;
      }
    } else {
      assert lba * SECTOR <= INT_MAX;
      pos := lba * SECTOR;
    }
  }

  /** How many bytes a read of `size` bytes at `from` delivers. */
  function Delivered(src: Source, from: nat, size: nat): (n: nat)
    ensures n <= size && (n > 0 ==> from + n <= |Content(src)|)
  {
    if from + size <= |Content(src)| then size
    else if from <= |Content(src)| then |Content(src)| - from
    else 0
  }

  /** The hard disk delivers whole sectors, which all have to exist. */
  predicate Readable(src: Source, from: nat, size: nat) {
    src.Hdd? ==> AlignUp(from + size, SECTOR) <= |Content(src)|
  }

  /** What a buffer holds after a read of `size` bytes to index `at`. */
  ghost function Filled(src: Source, before: seq<Byte>, at: nat, size: nat, from: nat): seq<Byte>
    requires at + size <= |before|
  {
    var n := Delivered(src, from, size);
    Splice(before, at, if n == 0 then [] else Content(src)[from..from + n])
  }

  /** Fills the buffer with `size` bytes of the image from `offset` << `shift`,
      through either path; a file that ends earlier delivers what is left. */
  method ReadRawData(src: Source, buf: array<Byte>, at: nat, size: nat, offset: nat, shift: nat, tmp: array<Byte>)
    returns (got: nat)
    requires shift <= 11 && at + size <= buf.Length && tmp.Length >= SECTOR && tmp != buf
    requires Readable(src, ByteOf(offset, shift), size)
    modifies buf, tmp
    ensures got == Delivered(src, ByteOf(offset, shift), size)
    ensures buf[..] == Filled(src, old(buf[..]), at, size, ByteOf(offset, shift))
  {
    SectorAndPos(offset, shift);
    var lba, pos := LbaOf(offset, shift), PosOf(offset, shift);
    if src.File? {
      var seek := LongLseek(lba);
      seek := seek + pos;
      got := Delivered(src, seek, size);
      if got > 0 {
        MemCopy(buf, at, src.data, seek, got);
      }
    } else {
      ReadSectors(src, buf, at, size, lba, pos, tmp);
      got := size;
    }
  }

  lemma PartOfSector(before: seq<Byte>, after: seq<Byte>, content: seq<Byte>, from: nat, pos: nat, n: nat)
    requires Wrote(before, after, 0, content, from, SECTOR) && pos + n <= SECTOR
    ensures pos + n <= |after| && from + pos + n <= |content|
    ensures after[pos..pos + n] == content[from + pos..from + pos + n]
  {
    assert content[from..from + SECTOR][pos..pos + n] == content[from + pos..from + pos + n];
    assert after[..SECTOR] == content[from..from + SECTOR];
    assert after[pos..pos + n] == after[..SECTOR][pos..pos + n];
  }

  lemma WrotePart(before: seq<Byte>, after: seq<Byte>, at: nat, part: seq<Byte>, pos: nat,
                  content: seq<Byte>, from: nat, n: nat)
    requires at + n <= |before| && pos + n <= |part| && from + n <= |content|
    requires after == Splice(before, at, part[pos..pos + n]) && part[pos..pos + n] == content[from..from + n]
    ensures Wrote(before, after, at, content, from, n)
  {}

  /** `n` bytes of one sector, from position `pos`, by way of the temporary buffer. */
  method ReadPart(src: Source, lba: nat, pos: nat, n: nat, buf: array<Byte>, at: nat, tmp: array<Byte>)
    requires src.Hdd? && (lba + 1) * SECTOR <= |Content(src)| && pos + n <= SECTOR
    requires at + n <= buf.Length && tmp.Length >= SECTOR && tmp != buf
    modifies buf, tmp
    ensures Wrote(old(buf[..]), buf[..], at, Content(src), lba * SECTOR + pos, n)
  {
    hide Content, Wrote;
    ghost var before := tmp[..];
    ReadHDDSectors(src, lba, tmp, 0, 1);
    PartOfSector(before, tmp[..], Content(src), lba * SECTOR, pos, n);
    ghost var mid := buf[..];
    MemCopy(buf, at, tmp[..], pos, n);
    WrotePart(mid, buf[..], at, tmp[..], pos, Content(src), lba * SECTOR + pos, n);
  }

  /** How many whole sectors are read straight into the buffer. */
  lemma SectorsFit(lba: nat, size: nat, nBlocks: nat, len: nat)
    requires nBlocks == size / SECTOR + if size % SECTOR != 0 then 1 else 0
    requires AlignUp(lba * SECTOR + size, SECTOR) <= len
    ensures (lba + nBlocks) * SECTOR <= len
    ensures nBlocks > 0 ==> (nBlocks - 1) * SECTOR < size <= nBlocks * SECTOR
    ensures nBlocks == 0 ==> size == 0
  {}

  /** From the start of a sector: whole sectors straight into the buffer while
      more than one is left, the last one through the temporary buffer. */
  method ReadAligned(src: Source, buf: array<Byte>, at: nat, size: nat, lba: nat, tmp: array<Byte>)
    requires src.Hdd? && at + size <= buf.Length && tmp.Length >= SECTOR && tmp != buf
    requires AlignUp(lba * SECTOR + size, SECTOR) <= |Content(src)|
    modifies buf, tmp
    ensures Wrote(old(buf[..]), buf[..], at, Content(src), lba * SECTOR, size)
  {
    hide Wrote;
    ghost var before, content := buf[..], Content(src);
    var nBlocks := size / SECTOR;
    if size % SECTOR != 0 {
      nBlocks := nBlocks + 1;
    }
    SectorsFit(lba, size, nBlocks, |content|);
    WroteNothing(before, at, content, lba * SECTOR);
    var r := 0;
    if nBlocks > 1 {
      r := SECTOR * (nBlocks - 1);
      ReadHDDSectors(src, lba, buf, at, nBlocks - 1);
    }
    assert Wrote(before, buf[..], at, content, lba * SECTOR, r);
    if size - r > 0 {
      ghost var mid := buf[..];
      ReadPart(src, if nBlocks > 1 then lba + nBlocks - 1 else lba, 0, size - r, buf, at + r, tmp);
      WroteMore(before, mid, buf[..], at, content, lba * SECTOR, r, size - r);
    }
  }

  /** The hard disk path: a first partial sector, then the aligned rest. */
  method ReadSectors(src: Source, buf: array<Byte>, at: nat, size: nat, lba: nat, pos: nat, tmp: array<Byte>)
    requires src.Hdd? && pos < SECTOR && at + size <= buf.Length && tmp.Length >= SECTOR && tmp != buf
    requires AlignUp(lba * SECTOR + pos + size, SECTOR) <= |Content(src)|
    modifies buf, tmp
    ensures Wrote(old(buf[..]), buf[..], at, Content(src), lba * SECTOR + pos, size)
  {
    hide Wrote;
    ghost var before, content := buf[..], Content(src);
    WroteNothing(before, at, content, lba * SECTOR + pos);
    var r := 0;
    if pos > 0 {
      r := if size < SECTOR - pos then size else SECTOR - pos;
      ReadPart(src, lba, pos, r, buf, at, tmp);
    }
    assert Wrote(before, buf[..], at, content, lba * SECTOR + pos, r);
    if size - r > 0 {
      ghost var mid := buf[..];
      ReadAligned(src, buf, at + r, size - r, if pos > 0 then lba + 1 else lba, tmp);
      WroteMore(before, mid, buf[..], at, content, lba * SECTOR + pos, r, size - r);
    }
  }
}
