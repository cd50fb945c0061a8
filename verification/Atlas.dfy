/** The atlas on the heap (src/atlas.c): allocation nodes linked by pointers and
    a pixel buffer, each operation proved against its form on values. */
module Atlas {
  import opened Options
  import opened Bytes
  import opened Packing
  import opened Arithmetic
  import AtlasPixels

  class Allocation {
    const x: nat
    const y: nat
    const w: nat
    const h: nat
    var leaf1: Allocation?
    var leaf2: Allocation?
    ghost var Repr: set<Allocation>

    ghost predicate Valid()
      reads this, Repr
      ensures Valid() ==> this in Repr
      decreases Repr
    {
      && this in Repr
      && (leaf1 == null <==> leaf2 == null)
      && (leaf1 != null ==>
            && leaf1 in Repr && leaf1.Repr <= Repr && this !in leaf1.Repr && leaf1.Valid()
            && leaf2 in Repr && leaf2.Repr <= Repr && this !in leaf2.Repr && leaf2.Valid()
            && leaf1.Repr !! leaf2.Repr)
    }

    function Area(): Rect {
      Rect(x, y, w, h)
    }

    /** The tree hanging from this node, as a value. */
    ghost function Tree(): (t: Tree)
      requires Valid()
      reads this, Repr
      ensures t.r == Area()
      decreases Repr
    {
      if leaf1 == null then Free(Area()) else Used(Area(), leaf1.Tree(), leaf2.Tree())
    }

    constructor (r: Rect)
      ensures Valid() && fresh(Repr) && Tree() == Free(r)
    {
      x, y, w, h := r.x, r.y, r.w, r.h;
      leaf1, leaf2 := null, null;
      Repr := {this};
    }

    /** Cuts what the reservation leaves of a free leaf into two new leaves. */
    method Divide(width: nat, height: nat)
      requires Valid() && leaf1 == null && Fits(Area(), width, height)
      modifies this
      ensures Valid() && old(Repr) <= Repr && fresh(Repr - old(Repr))
      ensures Tree() == Used(Area(), Free(Pieces(Area(), width, height).0), Free(Pieces(Area(), width, height).1))
    {
      hide Pieces;
      var (l1, l2) := Pieces(Area(), width, height);
      leaf1 := new Allocation(l1);
      leaf2 := new Allocation(l2);
      Repr := Repr + leaf1.Repr + leaf2.Repr;
    }

    /** One level of the recursion on values. */
    static lemma PlaceUnfolds(t: Tree, width: nat, height: nat)
      ensures !Fits(t.r, width, height) ==> Place(t, width, height) == (t, None)
      ensures Fits(t.r, width, height) && t.Free? ==>
        Place(t, width, height) ==
        (Used(t.r, Free(Pieces(t.r, width, height).0), Free(Pieces(t.r, width, height).1)), Some(t.r))
      ensures Fits(t.r, width, height) && t.Used? ==>
        Place(t, width, height) ==
        var (t1, p) := Place(t.leaf1, width, height);
        if p.Some? then (Used(t.r, t1, t.leaf2), p)
        else
          var (t2, q) := Place(t.leaf2, width, height);
          (Used(t.r, t.leaf1, t2), q)
    {}

    method AllocPlace(width: nat, height: nat) returns (p: Allocation?)
      requires Valid()
      modifies Repr
      ensures Valid() && old(Repr) <= Repr && fresh(Repr - old(Repr))
      ensures Tree() == Place(old(Tree()), width, height).0
      ensures p == null <==> Place(old(Tree()), width, height).1 == None
      ensures p != null ==> p in Repr && Place(old(Tree()), width, height).1 == Some(p.Area())
      decreases Repr
    {
      hide Pieces, Place;
      PlaceUnfolds(Tree(), width, height);
      if !(w >= width && h >= height) {
        return null;
      }
      if leaf1 == null && leaf2 == null {
        Divide(width, height);
        return this;
      }
      ghost var t1, t2 := leaf1.Tree(), leaf2.Tree();
      p := leaf1.AllocPlace(width, height);
      Repr := Repr + leaf1.Repr;
      if p != null {
        return p;
      }
      FailureChangesNothing(t1, width, height);
      assert Valid() && Tree() == Used(Area(), t1, t2);
      p := leaf2.AllocPlace(width, height);
      Repr := Repr + leaf2.Repr;
    }
  }

  /** GS pixel storage formats. */
  datatype Psm = CT32 | CT24 | CT16 | CT16S | T8 | OtherPsm

  function PixelSize(psm: Psm): nat {
    match psm
    case CT32 => 4
    case CT24 => 4
    case CT16 => 2
    case CT16S => 2
    case T8 => 1
    case OtherPsm => 0
  }

  class Atlas {
    const width: nat
    const height: nat
    const psm: Psm
    const allocation: Allocation
    const mem: array<Byte>

    ghost predicate Valid()
      reads this, allocation, allocation.Repr, mem
    {
      && allocation.Valid()
      && AtlasPixels.Valid(RawState())
    }

    ghost function RawState(): AtlasPixels.State
      requires allocation.Valid()
      reads this, allocation, allocation.Repr, mem
    {
      AtlasPixels.State(width, height, PixelSize(psm), allocation.Tree(), mem[..])
    }

    ghost function State(): AtlasPixels.State
      requires Valid()
      reads this, allocation, allocation.Repr, mem
    {
      RawState()
    }

    /** `txtsize` is what gsKit answers for the size of a texture of this format. */
    constructor (width: nat, height: nat, psm: Psm, txtsize: nat)
      requires height * (width * PixelSize(psm)) <= txtsize
      ensures Valid() && fresh(allocation.Repr) && fresh(mem) && mem.Length == txtsize
      ensures AtlasPixels.Blank(State())
      ensures State().width == width && State().height == height && State().ps == PixelSize(psm)
    {
      this.width, this.height, this.psm := width, height, psm;
      allocation := new Allocation(Rect(0, 0, width, height));
      mem := new Byte[txtsize];
      new;
      MemClear(mem, 0, txtsize);
    }

    /** Row by row copy of a bitmap to the corner of `al`. */
    method CopyData(al: Allocation, b: AtlasPixels.Bitmap)
      requires Valid() && AtlasPixels.HasPixels(Some(b), PixelSize(psm))
      requires Within(al.Area(), Rect(0, 0, width, height)) && Fits(al.Area(), b.w + 1, b.h + 1)
      modifies mem
      ensures mem[..] == AtlasPixels.Paint(old(State()), al.Area(), b)
    {
      var ps := PixelSize(psm);
      AtlasPixels.CopyFits(State(), al.Area(), b);
      if ps == 0 {
        NothingToCopy(State(), al.Area(), b);
        return;
      }
      FirstByte(ps, width, al.x, al.y);
      CopyRows(ps * (al.y * width + al.x), width * ps, al.x * ps, al.y, b.w * ps, b.h, b.pixels);
    }

    /** The loop of the copy: `start` is the byte of the first pixel, then both
        pointers advance by a row of their buffer. */
    method CopyRows(start: nat, stride: nat, xb: nat, y0: nat, rowsize: nat, rows: nat, pixels: seq<Byte>)
      requires xb + rowsize <= stride && (y0 + rows) * stride <= mem.Length && rows * rowsize <= |pixels|
      requires start == y0 * stride + xb
      modifies mem
      ensures mem[..] == AtlasPixels.Blit(old(mem[..]), stride, xb, y0, rowsize, rows, pixels)
    {
      hide AtlasPixels.Blit, Splice;
      var data, src := start, 0;
      ghost var before := mem[..];
      RowsFit(|before|, stride, y0, rowsize, 0, rows, |pixels|);
      NoRows(before, stride, xb, y0, rowsize, pixels);
      for y := 0 to rows
        invariant data == (y0 + y) * stride + xb && src == y * rowsize
        invariant (y0 + y) * stride <= |before| && y * rowsize <= |pixels|
        invariant mem[..] == AtlasPixels.Blit(before, stride, xb, y0, rowsize, y, pixels)
      {
        OneMoreRow(before, stride, xb, y0, rowsize, y, rows, pixels, data, src);
        MemCopy(mem, data, pixels, src, rowsize);
        data := data + stride;
        src := src + rowsize;
      }
    }

    lemma NoRows(mem: seq<Byte>, stride: nat, xb: nat, y: nat, wb: nat, src: seq<Byte>)
      requires xb + wb <= stride && y * stride <= |mem|
      ensures AtlasPixels.Blit(mem, stride, xb, y, wb, 0, src) == mem
    {}

    lemma RowsFit(len: nat, stride: nat, y: nat, wb: nat, row: nat, rows: nat, srcLen: nat)
      requires row <= rows && (y + rows) * stride <= len && rows * wb <= srcLen
      ensures (y + row) * stride <= len && row * wb <= srcLen
    {
      MulMonotone(y + row, y + rows, stride);
      MulMonotone(row, rows, wb);
    }

    /** A bitmap of an unsupported format has no bytes to copy. */
    lemma NothingToCopy(st: AtlasPixels.State, r: Rect, b: AtlasPixels.Bitmap)
      requires AtlasPixels.Valid(st) && AtlasPixels.HasPixels(Some(b), st.ps)
      requires Within(r, st.tree.r) && Fits(r, b.w + 1, b.h + 1)
      requires st.ps == 0
      ensures AtlasPixels.Paint(st, r, b) == st.mem
    {
      NoBytes(st.mem, r.y, b.h, b.pixels);
    }

    lemma {:induction false} NoBytes(mem: seq<Byte>, y: nat, rows: nat, src: seq<Byte>)
      ensures AtlasPixels.Blit(mem, 0, 0, y, 0, rows, src) == mem
    {
      if rows > 0 {
        NoBytes(mem, y, rows - 1, src);
      }
    }

    lemma FirstByte(ps: nat, width: nat, x: nat, y: nat)
      ensures ps * (y * width + x) == y * (width * ps) + x * ps
    {}

    lemma OneMoreRow(mem: seq<Byte>, stride: nat, xb: nat, y: nat, wb: nat, row: nat, rows: nat,
                     src: seq<Byte>, data: nat, from: nat)
      requires row < rows && xb + wb <= stride && (y + rows) * stride <= |mem| && rows * wb <= |src|
      requires data == (y + row) * stride + xb && from == row * wb
      ensures (y + row) * stride <= |mem| && row * wb <= |src|
      ensures (y + (row + 1)) * stride <= |mem| && (row + 1) * wb <= |src|
      ensures data + wb <= |mem| && from + wb <= |src|
      ensures data + stride == (y + (row + 1)) * stride + xb && from + wb == (row + 1) * wb
      ensures AtlasPixels.Blit(mem, stride, xb, y, wb, row + 1, src) ==
              Splice(AtlasPixels.Blit(mem, stride, xb, y, wb, row, src), data, src[from..from + wb])
    {
      MulMonotone(y + row + 1, y + rows, stride);
      MulMonotone(row + 1, rows, wb);
      AtlasPixels.RowFits(|mem|, stride, xb, y, wb, row + 1, |src|);
    }

    /** Gives a bitmap a place; null when the bitmap is null or no free area is large enough. */
    method Place(request: Option<AtlasPixels.Bitmap>) returns (al: Allocation?)
      requires Valid() && AtlasPixels.HasPixels(request, PixelSize(psm))
      modifies allocation.Repr, mem
      ensures Valid() && old(allocation.Repr) <= allocation.Repr && fresh(allocation.Repr - old(allocation.Repr))
      ensures State() == AtlasPixels.PlaceBitmap(old(State()), request).0
      ensures al == null <==> AtlasPixels.PlaceBitmap(old(State()), request).1 == None
      ensures al != null ==> AtlasPixels.PlaceBitmap(old(State()), request).1 == Some(al.Area())
    {
      ghost var st := State();
      if request == None {
        return null;
      }
      var b := request.value;
      AtlasPixels.PlacedWithin(st.tree, b.w + 1, b.h + 1);
      al := allocation.AllocPlace(b.w + 1, b.h + 1);
      if al == null {
        return null;
      }
      CopyData(al, b);
    }
  }
}
