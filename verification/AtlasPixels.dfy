/** The atlas as a picture (src/atlas.c): bitmaps copied row by row into one
    flat buffer, and what stays readable after any run of placements. */
module AtlasPixels {
  import opened Options
  import opened Bytes
  import opened Packing
  import opened Arithmetic

  // ----- Rows in a flat buffer -----

  /** Byte `bx` of row `py` of a buffer whose rows are `stride` bytes long. */
  function At(mem: seq<Byte>, stride: nat, bx: nat, py: nat): Byte {
    if py * stride + bx < |mem| then mem[py * stride + bx] else 0
  }

  /** Byte `b` of the pixel in column `px` of row `py`, for rows of `width` pixels of `ps` bytes. */
  function PixelByte(mem: seq<Byte>, ps: nat, width: nat, px: nat, py: nat, b: nat): Byte {
    At(mem, width * ps, px * ps + b, py)
  }

  /** The last row of a copy that fits lies inside both buffers. */
  lemma RowFits(len: nat, stride: nat, xb: nat, y: nat, wb: nat, rows: nat, srcLen: nat)
    requires rows > 0 && xb + wb <= stride && (y + rows) * stride <= len && rows * wb <= srcLen
    ensures 0 <= (y + (rows - 1)) * stride <= len && 0 <= (rows - 1) * wb <= srcLen
    ensures (y + (rows - 1)) * stride + xb + wb <= len && (rows - 1) * wb + wb <= srcLen
  {
    MulSub(y + rows, 1, stride);
    MulSub(rows, 1, wb);
    MulMonotone(0, y + (rows - 1), stride);
    MulMonotone(0, rows - 1, wb);
  }

  /** The first `rows` rows, of `wb` bytes each, of `src` copied to byte column
      `xb` of row `y`. */
  function Blit(mem: seq<Byte>, stride: nat, xb: nat, y: nat, wb: nat, rows: nat, src: seq<Byte>): (r: seq<Byte>)
    requires xb + wb <= stride && (y + rows) * stride <= |mem| && rows * wb <= |src|
    ensures |r| == |mem|
    decreases rows
  {
    if rows == 0 then mem
    else
      RowFits(|mem|, stride, xb, y, wb, rows, |src|);
      var row := rows - 1;
      Splice(Blit(mem, stride, xb, y, wb, row, src), (y + row) * stride + xb, src[row * wb..row * wb + wb])
  }

  /** A byte number in the run that starts at (xb, Y) is a byte of row Y. */
  lemma RunIsOneRow(stride: nat, xb: nat, wb: nat, Y: nat, bx: nat, py: nat)
    requires xb + wb <= stride && bx < stride
    ensures Y * stride + xb <= py * stride + bx < Y * stride + xb + wb <==> py == Y && xb <= bx < xb + wb
  {
    if py < Y {
      MulMonotone(py + 1, Y, stride);
    } else if py > Y {
      MulMonotone(Y + 1, py, stride);
    }
  }

  /** memcpy of `n` bytes between two buffers, byte by byte. */
  lemma SpliceIndex(s: seq<Byte>, at: nat, src: seq<Byte>, from: nat, n: nat, k: nat)
    requires at + n <= |s| && from + n <= |src| && k < |s|
    ensures Splice(s, at, src[from..from + n])[k] == if at <= k < at + n then src[from + (k - at)] else s[k]
  {}

  /** One more row of the copy. */
  lemma SpliceByte(mem: seq<Byte>, stride: nat, xb: nat, Y: nat, wb: nat, row: nat, src: seq<Byte>, bx: nat, py: nat,
                   at: nat, from: nat)
    requires xb + wb <= stride && bx < stride
    requires at == Y * stride + xb && from == row * wb
    requires at + wb <= |mem| && from + wb <= |src|
    ensures At(Splice(mem, at, src[from..from + wb]), stride, bx, py) ==
            if xb <= bx < xb + wb && py == Y then At(src, wb, bx - xb, row) else At(mem, stride, bx, py)
  {
    hide Splice;
    RunIsOneRow(stride, xb, wb, Y, bx, py);
    var k := py * stride + bx;
    if k < |mem| {
      SpliceIndex(mem, at, src, from, wb, k);
    }
  }

  /** The copy writes each byte of the bitmap at its two-dimensional position
      and touches no other byte of the picture. */
  lemma {:induction false} BlitByte(mem: seq<Byte>, stride: nat, xb: nat, y: nat, wb: nat, rows: nat,
                                    src: seq<Byte>, bx: nat, py: nat)
    requires xb + wb <= stride && (y + rows) * stride <= |mem| && rows * wb <= |src|
    requires bx < stride
    ensures At(Blit(mem, stride, xb, y, wb, rows, src), stride, bx, py) ==
            if xb <= bx < xb + wb && y <= py < y + rows then At(src, wb, bx - xb, py - y)
            else At(mem, stride, bx, py)
    decreases rows
  {
    hide At, Splice;
    if rows > 0 {
      var row := rows - 1;
      RowFits(|mem|, stride, xb, y, wb, rows, |src|);
      BlitByte(mem, stride, xb, y, wb, row, src, bx, py);
      SpliceByte(Blit(mem, stride, xb, y, wb, row, src), stride, xb, y + row, wb, row, src, bx, py,
                 (y + row) * stride + xb, row * wb);
    }
  }

  /** A byte of pixel `px` is a byte of the scaled columns exactly when `px` is one of the columns. */
  lemma ByteOfPixel(ps: nat, x: nat, w: nat, px: nat, b: nat)
    requires b < ps
    ensures x * ps <= px * ps + b < x * ps + w * ps <==> x <= px < x + w
    ensures x <= px ==> px * ps + b - x * ps == (px - x) * ps + b
  {
    assert x * ps + w * ps == (x + w) * ps;
    if px < x {
      MulMonotone(px + 1, x, ps);
    } else {
      MulMonotone(x, px, ps);
    }
    if px < x + w {
      MulMonotone(px + 1, x + w, ps);
    } else {
      MulMonotone(x + w, px, ps);
    }
  }

  /** The same in pixels: the copied bitmap appears in the rectangle, and every
      pixel outside the rectangle is what it was. */
  lemma BlitPixel(mem: seq<Byte>, ps: nat, width: nat, x: nat, y: nat, w: nat, rows: nat, src: seq<Byte>,
                  px: nat, py: nat, b: nat)
    requires x * ps + w * ps <= width * ps && (y + rows) * (width * ps) <= |mem| && rows * (w * ps) <= |src|
    requires px < width && b < ps
    ensures PixelByte(Blit(mem, width * ps, x * ps, y, w * ps, rows, src), ps, width, px, py, b) ==
            if x <= px < x + w && y <= py < y + rows then PixelByte(src, ps, w, px - x, py - y, b)
            else PixelByte(mem, ps, width, px, py, b)
  {
    hide Blit, At;
    ByteOfPixel(ps, 0, width, px, b);
    ByteOfPixel(ps, x, w, px, b);
    BlitByte(mem, width * ps, x * ps, y, w * ps, rows, src, px * ps + b, py);
  }

  // ----- Placing bitmaps -----

  /** A bitmap to place: `h` rows of `w` pixels, row after row. */
  datatype Bitmap = Bitmap(w: nat, h: nat, pixels: seq<Byte>)

  /** `ps` is the number of bytes of a pixel, 0 in a format the copy does not support. */
  datatype State = State(width: nat, height: nat, ps: nat, tree: Tree, mem: seq<Byte>)

  /** A bitmap and the position it was given. */
  datatype Glyph = Glyph(x: nat, y: nat, bitmap: Bitmap)

  ghost predicate Valid(st: State) {
    && WellFormed(st.tree)
    && st.tree.r == Rect(0, 0, st.width, st.height)
    && st.height * (st.width * st.ps) <= |st.mem|
  }

  ghost predicate HasPixels(request: Option<Bitmap>, ps: nat) {
    request.Some? ==> request.value.h * (request.value.w * ps) <= |request.value.pixels|
  }

  /** The copy of a bitmap that was given the leaf `r` stays inside the picture. */
  lemma CopyFits(st: State, r: Rect, b: Bitmap)
    requires Valid(st) && Within(r, st.tree.r) && Fits(r, b.w + 1, b.h + 1)
    ensures r.x * st.ps + b.w * st.ps <= st.width * st.ps
    ensures (r.y + b.h) * (st.width * st.ps) <= |st.mem|
  {
    assert r.x * st.ps + b.w * st.ps == (r.x + b.w) * st.ps;
    MulMonotone(r.x + b.w, st.width, st.ps);
    MulMonotone(r.y + b.h, st.height, st.width * st.ps);
  }

  /** A placement never takes a leaf outside the atlas. */
  lemma PlacedWithin(t: Tree, w: nat, h: nat)
    requires WellFormed(t)
    ensures Place(t, w, h).1.Some? ==> Within(Place(t, w, h).1.value, t.r) && Fits(Place(t, w, h).1.value, w, h)
    ensures WellFormed(Place(t, w, h).0) && Place(t, w, h).0.r == t.r
  {
    LeavesAreWithin(t);
    FailsIffNoLeafFits(t, w, h);
    if Place(t, w, h).1.Some? {
      TakesFirstFit(t, w, h);
    }
  }

  /** The picture with bitmap `b` copied to the corner of the leaf `r`. */
  ghost function Paint(st: State, r: Rect, b: Bitmap): (mem: seq<Byte>)
    requires Valid(st) && HasPixels(Some(b), st.ps)
    requires Within(r, st.tree.r) && Fits(r, b.w + 1, b.h + 1)
    ensures |mem| == |st.mem|
  {
    CopyFits(st, r, b);
    Blit(st.mem, st.width * st.ps, r.x * st.ps, r.y, b.w * st.ps, b.h, b.pixels)
  }

  /** One request: the bitmap with one spare column and row, or nothing for a null bitmap. */
  ghost function PlaceBitmap(st: State, request: Option<Bitmap>): (State, Option<Rect>)
    requires Valid(st) && HasPixels(request, st.ps)
  {
    match request
    case None => (st, None)
    case Some(b) =>
      PlacedWithin(st.tree, b.w + 1, b.h + 1);
      match Place(st.tree, b.w + 1, b.h + 1)
      case (t, None) => (st.(tree := t), None)
      case (t, Some(r)) =>
        (st.(tree := t, mem := Paint(st, r, b)), Some(r))
  }

  function ReservedBy(g: Glyph): Rect {
    Rect(g.x, g.y, g.bitmap.w + 1, g.bitmap.h + 1)
  }

  function Reserved(glyphs: seq<Glyph>): seq<Rect> {
    seq(|glyphs|, i requires 0 <= i < |glyphs| => ReservedBy(glyphs[i]))
  }

  /** Byte `b` of a glyph's reserved area: its bitmap, and zero in the spare column and row. */
  function GlyphByte(g: Glyph, ps: nat, px: nat, py: nat, b: nat): Byte
    requires g.x <= px && g.y <= py
  {
    if px < g.x + g.bitmap.w && py < g.y + g.bitmap.h
    then PixelByte(g.bitmap.pixels, ps, g.bitmap.w, px - g.x, py - g.y, b)
    else 0
  }

  /** The glyph reads back from the picture, with its spare column and row blank. */
  ghost predicate Shows(st: State, g: Glyph) {
    forall px: nat, py: nat, b: nat :: b < st.ps && Contains(ReservedBy(g), px, py) ==>
      PixelByte(st.mem, st.ps, st.width, px, py, b) == GlyphByte(g, st.ps, px, py, b)
  }

  ghost predicate BlankWhereFree(st: State) {
    forall px: nat, py: nat, b: nat :: b < st.ps && Cover(FreeLeaves(st.tree), px, py) > 0 ==>
      PixelByte(st.mem, st.ps, st.width, px, py, b) == 0
  }

  ghost predicate Consistent(st: State, glyphs: seq<Glyph>) {
    && Valid(st)
    && Tiles(st.tree.r, Reserved(glyphs), FreeLeaves(st.tree))
    && BlankWhereFree(st)
    && forall i :: 0 <= i < |glyphs| ==> Shows(st, glyphs[i])
  }

  /** One request keeps every earlier glyph readable and shows the new one. */
  lemma PlaceBitmapKeeps(st: State, glyphs: seq<Glyph>, request: Option<Bitmap>)
    requires Consistent(st, glyphs) && HasPixels(request, st.ps)
    ensures
      var (st', p) := PlaceBitmap(st, request);
      Consistent(st', if p.Some? then glyphs + [Glyph(p.value.x, p.value.y, request.value)] else glyphs)
  {
    var (st', p) := PlaceBitmap(st, request);
    if request.Some? {
      var b := request.value;
      PlacedWithin(st.tree, b.w + 1, b.h + 1);
      FailsIffNoLeafFits(st.tree, b.w + 1, b.h + 1);
      if p.Some? {
        PlaceOneKeeps(st, glyphs, b);
      }
    }
  }

  /** The picture of `st'` is that of `st` with the bitmap of `g` painted over it. */
  ghost predicate Painted(st: State, mem': seq<Byte>, g: Glyph) {
    forall px: nat, py: nat, b: nat :: b < st.ps && px < st.width ==>
      PixelByte(mem', st.ps, st.width, px, py, b) ==
      if Contains(Rect(g.x, g.y, g.bitmap.w, g.bitmap.h), px, py) then GlyphByte(g, st.ps, px, py, b)
      else PixelByte(st.mem, st.ps, st.width, px, py, b)
  }

  /** Every pixel the new glyph may touch was free, hence blank. */
  lemma NewGlyphShows(st: State, st': State, glyphs: seq<Glyph>, g: Glyph, i: nat)
    requires Consistent(st, glyphs) && Painted(st, st'.mem, g) && st' == st.(tree := st'.tree, mem := st'.mem)
    requires i < |FreeLeaves(st.tree)| && Within(ReservedBy(g), FreeLeaves(st.tree)[i])
    requires Within(FreeLeaves(st.tree)[i], st.tree.r)
    ensures Shows(st', g)
  {
    forall px: nat, py: nat, b: nat | b < st.ps && Contains(ReservedBy(g), px, py)
      ensures PixelByte(st'.mem, st.ps, st.width, px, py, b) == GlyphByte(g, st.ps, px, py, b)
    {
      CoverAtLeast(FreeLeaves(st.tree), i, px, py);
    }
  }

  /** An earlier glyph has no pixel in a free leaf, so painting there spares it. */
  lemma OldGlyphStays(st: State, st': State, glyphs: seq<Glyph>, g: Glyph, i: nat, k: nat)
    requires Consistent(st, glyphs) && Painted(st, st'.mem, g) && st' == st.(tree := st'.tree, mem := st'.mem)
    requires i < |FreeLeaves(st.tree)| && Within(ReservedBy(g), FreeLeaves(st.tree)[i])
    requires k < |glyphs|
    ensures Shows(st', glyphs[k])
  {
    var old_ := glyphs[k];
    forall px: nat, py: nat, b: nat | b < st.ps && Contains(ReservedBy(old_), px, py)
      ensures PixelByte(st'.mem, st.ps, st.width, px, py, b) == GlyphByte(old_, st.ps, px, py, b)
    {
      assert Contains(Reserved(glyphs)[k], px, py);
      TilingIsDisjoint(st.tree.r, Reserved(glyphs), FreeLeaves(st.tree), k, i, px, py);
    }
  }

  /** What stays free was free, and the new glyph did not paint it. */
  lemma FreeStaysBlank(st: State, st': State, glyphs: seq<Glyph>, g: Glyph)
    requires Consistent(st, glyphs) && Painted(st, st'.mem, g) && st' == st.(tree := st'.tree, mem := st'.mem)
    requires Tiles(st.tree.r, Reserved(glyphs) + [ReservedBy(g)], FreeLeaves(st'.tree))
    ensures BlankWhereFree(st')
  {
    var reserved := Reserved(glyphs);
    forall px: nat, py: nat, b: nat | b < st.ps && Cover(FreeLeaves(st'.tree), px, py) > 0
      ensures PixelByte(st'.mem, st.ps, st.width, px, py, b) == 0
    {
      CoverSplice(reserved + [ReservedBy(g)], |reserved|, px, py);
      assert (reserved + [ReservedBy(g)])[..|reserved|] == reserved;
    }
  }

  /** A successful request paints exactly its bitmap. */
  lemma PlacePaints(st: State, b: Bitmap)
    requires Valid(st) && HasPixels(Some(b), st.ps)
    requires PlaceBitmap(st, Some(b)).1.Some?
    ensures
      var (st', p) := PlaceBitmap(st, Some(b));
      Painted(st, st'.mem, Glyph(p.value.x, p.value.y, b))
  {
    var (st', p) := PlaceBitmap(st, Some(b));
    var g := Glyph(p.value.x, p.value.y, b);
    PlacedWithin(st.tree, b.w + 1, b.h + 1);
    CopyFits(st, p.value, b);
    forall px: nat, py: nat, k: nat | k < st.ps && px < st.width
      ensures PixelByte(st'.mem, st.ps, st.width, px, py, k) ==
              if Contains(Rect(g.x, g.y, b.w, b.h), px, py) then GlyphByte(g, st.ps, px, py, k)
              else PixelByte(st.mem, st.ps, st.width, px, py, k)
    {
      BlitPixel(st.mem, st.ps, st.width, g.x, g.y, b.w, b.h, b.pixels, px, py, k);
    }
  }

  /** A successful request changes only the tree and the buffer, and takes a free leaf. */
  lemma PlaceShape(st: State, b: Bitmap) returns (i: nat)
    requires Valid(st) && HasPixels(Some(b), st.ps)
    requires PlaceBitmap(st, Some(b)).1.Some?
    ensures
      var (st', p) := PlaceBitmap(st, Some(b));
      && Valid(st') && st'.tree.r == st.tree.r && st' == st.(tree := st'.tree, mem := st'.mem)
      && st'.tree == Place(st.tree, b.w + 1, b.h + 1).0 && p == Place(st.tree, b.w + 1, b.h + 1).1
      && i < |FreeLeaves(st.tree)|
      && Within(Rect(p.value.x, p.value.y, b.w + 1, b.h + 1), FreeLeaves(st.tree)[i])
      && Within(FreeLeaves(st.tree)[i], st.tree.r)
  {
    PlacedWithin(st.tree, b.w + 1, b.h + 1);
    TakesFirstFit(st.tree, b.w + 1, b.h + 1);
    i := Chosen(st.tree, b.w + 1, b.h + 1);
  }

  lemma PlaceOneKeeps(st: State, glyphs: seq<Glyph>, b: Bitmap)
    requires Consistent(st, glyphs) && HasPixels(Some(b), st.ps)
    requires PlaceBitmap(st, Some(b)).1.Some?
    ensures
      var (st', p) := PlaceBitmap(st, Some(b));
      Consistent(st', glyphs + [Glyph(p.value.x, p.value.y, b)])
  {
    var i := PlaceShape(st, b);
    PlacePaints(st, b);
    var (st', p) := PlaceBitmap(st, Some(b));
    var g := Glyph(p.value.x, p.value.y, b);
    PlaceKeepsTiling(st.tree, Reserved(glyphs), b.w + 1, b.h + 1);
    assert Reserved(glyphs + [g]) == Reserved(glyphs) + [ReservedBy(g)];
    FreeStaysBlank(st, st', glyphs, g);
    NewGlyphShows(st, st', glyphs, g, i);
    forall k | 0 <= k < |glyphs| ensures Shows(st', glyphs[k]) {
      OldGlyphStays(st, st', glyphs, g, i, k);
    }
  }

  // ----- Runs -----

  /** A run of requests: the final state, and the bitmaps that found a place, in order. */
  ghost function Run(st: State, requests: seq<Option<Bitmap>>): (r: (State, seq<Glyph>))
    requires Valid(st) && forall i :: 0 <= i < |requests| ==> HasPixels(requests[i], st.ps)
    ensures Valid(r.0) && r.0.ps == st.ps && r.0.width == st.width && r.0.height == st.height
  {
    if requests == [] then (st, [])
    else
      var (st0, glyphs) := Run(st, requests[..|requests| - 1]);
      var request := requests[|requests| - 1];
      var (st1, p) := PlaceBitmap(st0, request);
      PlaceBitmapValid(st0, request);
      (st1, if p.Some? then glyphs + [Glyph(p.value.x, p.value.y, request.value)] else glyphs)
  }

  lemma PlaceBitmapValid(st: State, request: Option<Bitmap>)
    requires Valid(st) && HasPixels(request, st.ps)
    ensures
      var st' := PlaceBitmap(st, request).0;
      Valid(st') && st'.ps == st.ps && st'.width == st.width && st'.height == st.height && |st'.mem| == |st.mem|
  {
    if request.Some? {
      PlacedWithin(st.tree, request.value.w + 1, request.value.h + 1);
    }
  }

  /** A request is refused exactly when no free leaf holds the bitmap with one more
      column and row, and then nothing changes; otherwise it gets the first such leaf. */
  lemma PlaceBitmapIff(st: State, b: Bitmap)
    requires Valid(st) && HasPixels(Some(b), st.ps)
    ensures
      var (st', p) := PlaceBitmap(st, Some(b));
      && (p.None? <==> NoneFits(FreeLeaves(st.tree), b.w + 1, b.h + 1))
      && (p.None? ==> st' == st)
      && (p.Some? ==> exists i: nat ::
            FirstFit(FreeLeaves(st.tree), b.w + 1, b.h + 1, i) && p.value == FreeLeaves(st.tree)[i])
  {
    FailsIffNoLeafFits(st.tree, b.w + 1, b.h + 1);
    if Place(st.tree, b.w + 1, b.h + 1).1.Some? {
      PlacedWithin(st.tree, b.w + 1, b.h + 1);
      TakesFirstFit(st.tree, b.w + 1, b.h + 1);
    }
  }

  /** A new atlas: one free leaf over a buffer of zeros. */
  ghost predicate Blank(st: State) {
    && st.tree == Free(Rect(0, 0, st.width, st.height))
    && st.height * (st.width * st.ps) <= |st.mem|
    && forall i :: 0 <= i < |st.mem| ==> st.mem[i] == 0
  }

  lemma BlankPixels(st: State)
    requires Blank(st)
    ensures BlankWhereFree(st)
  {
    forall px: nat, py: nat, b: nat | b < st.ps && Cover(FreeLeaves(st.tree), px, py) > 0
      ensures PixelByte(st.mem, st.ps, st.width, px, py, b) == 0
    {
      ZeroEverywhere(st.mem, st.width * st.ps, px * st.ps + b, py);
    }
  }

  lemma BlankIsConsistent(st: State)
    requires Blank(st)
    ensures Consistent(st, [])
  {
    BlankPixels(st);
    OneLeafTiles(st.tree.r);
    assert Reserved([]) == [];
  }

  lemma ZeroEverywhere(mem: seq<Byte>, stride: nat, bx: nat, py: nat)
    requires forall i :: 0 <= i < |mem| ==> mem[i] == 0
    ensures At(mem, stride, bx, py) == 0
  {}

  lemma OneLeafTiles(r: Rect)
    ensures Tiles(r, [], [r])
  {
    assert [r][..0] == [];
  }

  /** After any run of placements on a new atlas every bitmap that found a
      place reads back unchanged, its spare column and row are blank, and the
      reserved areas and the free leaves tile the atlas. */
  lemma {:induction false} RunKeepsGlyphs(st: State, requests: seq<Option<Bitmap>>)
    requires Blank(st) && forall i :: 0 <= i < |requests| ==> HasPixels(requests[i], st.ps)
    ensures Valid(st)
    ensures Consistent(Run(st, requests).0, Run(st, requests).1)
  {
    if requests == [] {
      BlankIsConsistent(st);
    } else {
      var before := requests[..|requests| - 1];
      RunKeepsGlyphs(st, before);
      var (st0, glyphs) := Run(st, before);
      PlaceBitmapKeeps(st0, glyphs, requests[|requests| - 1]);
    }
  }
}
