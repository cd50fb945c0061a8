/** A font slot on the heap (src/fntsys.c): its cache pages and its atlases,
    proved against the glyph cache on values. */
module FontCache {
  import opened Options
  import opened Bytes
  import opened GlyphCache
  import Atlas

  /** The objects an atlas may change. */
  ghost function Footprint(a: Atlas.Atlas): set<object>
    reads a, a.allocation
  {
    {a, a.mem, a.allocation} + a.allocation.Repr
  }

  class FontSlot {
    const txtsize: nat
    var glyphCache: Cache
    var atlases: seq<Atlas.Atlas?>
    /** Everything the atlases are made of. */
    ghost var Repr: set<object>

    ghost predicate Valid()
      reads this`atlases, this`Repr, Repr
    {
      && this !in Repr
      && ATLAS_WIDTH * ATLAS_HEIGHT <= txtsize
      && |atlases| == ATLAS_MAX
      && (forall i :: 0 <= i < ATLAS_MAX && atlases[i] != null ==> SlotValid(atlases[i]))
      && (forall i, j :: 0 <= i < j < ATLAS_MAX && atlases[i] != null && atlases[j] != null ==>
            Footprint(atlases[i]) !! Footprint(atlases[j]))
    }

    ghost predicate SlotValid(a: Atlas.Atlas)
      reads this`Repr, Repr
    {
      && a in Repr && a.allocation in Repr && Footprint(a) <= Repr
      && a.Valid() && AtlasOk(Some(a.State()))
    }

    ghost function Slot(i: nat): (a: Option<AtlasPixels.State>)
      requires Valid() && i < ATLAS_MAX
      reads this`atlases, this`Repr, Repr
      ensures AtlasOk(a)
    {
      if atlases[i] == null then None else Some(atlases[i].State())
    }

    ghost function States(): (s: Atlases)
      requires Valid()
      reads this`atlases, this`Repr, Repr
      ensures AtlasesOk(s) && forall i :: 0 <= i < ATLAS_MAX ==> s[i] == Slot(i)
    {
      [Slot(0), Slot(1), Slot(2), Slot(3)]
    }

    ghost function Value(): (f: Font)
      requires Valid()
      reads this, Repr
    {
      Font(glyphCache, States())
    }

    constructor (txtsize: nat)
      requires ATLAS_WIDTH * ATLAS_HEIGHT <= txtsize
      ensures Valid() && fresh(Repr) && Value() == EMPTY_FONT && this.txtsize == txtsize
    {
      this.txtsize := txtsize;
      glyphCache := [];
      atlases := [null, null, null, null];
      Repr := {};
    }

    method CreateAtlas(aid: nat)
      requires Valid() && aid < ATLAS_MAX && atlases[aid] == null
      modifies this`atlases, this`Repr
      ensures Valid() && atlases[aid] != null && old(Repr) <= Repr && fresh(Repr - old(Repr))
      ensures States() == old(States())[aid := Some(NewAtlas(txtsize))]
    {
      hide AtlasPixels.Valid, Zeros;
      var atlas := NewFontAtlas();
      ghost var before := atlases;
      ghost var was := States();
      atlases := atlases[aid := atlas];
      Repr := Repr + Footprint(atlas);
      assert SlotValid(atlases[aid]);
      forall i | 0 <= i < ATLAS_MAX && i != aid && atlases[i] != null
        ensures SlotValid(atlases[i]) && Footprint(atlases[i]) !! Footprint(atlas)
      {
        assert atlases[i] == before[i];
      }
      assert Valid();
      assert forall i :: 0 <= i < ATLAS_MAX && i != aid ==> Slot(i) == was[i];
      assert States() == was[aid := Slot(aid)];
    }

    method NewFontAtlas() returns (atlas: Atlas.Atlas)
      requires ATLAS_WIDTH * ATLAS_HEIGHT <= txtsize
      ensures atlas.Valid() && fresh(Footprint(atlas)) && atlas.State() == NewAtlas(txtsize)
      ensures AtlasOk(Some(atlas.State()))
    {
      atlas := new Atlas.Atlas(ATLAS_WIDTH, ATLAS_HEIGHT, Atlas.T8, txtsize);
      assert atlas.State().mem == Zeros(txtsize);
    }

    method PlaceIn(aid: nat, b: AtlasPixels.Bitmap) returns (al: Atlas.Allocation?)
      requires Valid() && aid < ATLAS_MAX && AtlasPixels.HasPixels(Some(b), 1)
      requires atlases[aid] != null
      modifies this`Repr, Repr
      ensures Valid() && atlases == old(atlases) && old(Repr) <= Repr && fresh(Repr - old(Repr))
      ensures forall i :: 0 <= i < ATLAS_MAX && i != aid ==> Slot(i) == old(Slot(i))
      ensures
        var (st', p) := AtlasPixels.PlaceBitmap(old(Slot(aid)).value, Some(b));
        && Slot(aid) == Some(st')
        && (al == null <==> p == None)
        && (al != null ==> p == Some(al.Area()))
    {
      hide AtlasPixels.Valid, AtlasPixels.PlaceBitmap, AtlasPixels.HasPixels;
      var atlas := atlases[aid];
      ghost var st := atlas.State();
      ghost var changed := Footprint(atlas);
      AtlasPixels.PlaceBitmapValid(st, Some(b));
      al := atlas.Place(Some(b));
      Repr := Repr + Footprint(atlas);
      assert SlotValid(atlases[aid]);
      forall i | 0 <= i < ATLAS_MAX && i != aid && atlases[i] != null
        ensures SlotValid(atlases[i]) && atlases[i].State() == old(atlases[i].State()) &&
                Footprint(atlases[i]) == old(Footprint(atlases[i])) && Footprint(atlases[i]) !! Footprint(atlas)
      {
        assert old(Footprint(atlases[i])) !! changed;
      }
    }

    /** One attempt at atlas number `aid`, creating it when it is missing. */
    method TryAtlas(aid: nat, b: AtlasPixels.Bitmap) returns (al: Atlas.Allocation?)
      requires Valid() && aid < ATLAS_MAX && AtlasPixels.HasPixels(Some(b), 1)
      modifies this`atlases, this`Repr, Repr
      ensures Valid() && old(Repr) <= Repr && fresh(Repr - old(Repr))
      ensures
        var st := AtlasAt(old(States()), aid, txtsize);
        && AtlasPixels.Valid(st) && st.ps == 1
        && var (st', p) := AtlasPixels.PlaceBitmap(st, Some(b));
           && States() == old(States())[aid := Some(st')]
           && (al == null <==> p == None)
           && (al != null ==> p == Some(al.Area()))
    {
      hide AtlasPixels.Valid, AtlasPixels.PlaceBitmap, AtlasPixels.HasPixels;
      NewAtlasBlank(txtsize);
      if atlases[aid] == null {
        CreateAtlas(aid);
      }
      ghost var before := States();
      al := PlaceIn(aid, b);
      assert States() == before[aid := Slot(aid)];
    }

    /** Tries the atlases in order; the place given, or None when all of them refuse. */
    method GlyphAtlasPlace(b: AtlasPixels.Bitmap) returns (place: Option<(nat, nat, nat)>)
      requires Valid() && AtlasPixels.HasPixels(Some(b), 1)
      modifies this`atlases, this`Repr, Repr
      ensures Valid() && old(Repr) <= Repr && fresh(Repr - old(Repr))
      ensures (States(), place) == PlaceFrom(old(States()), 0, b, txtsize)
    {
      var aid := 0;
      while aid < ATLAS_MAX
        invariant 0 <= aid <= ATLAS_MAX
        invariant Valid() && old(Repr) <= Repr && fresh(Repr - old(Repr))
        invariant PlaceFrom(old(States()), 0, b, txtsize) == PlaceFrom(States(), aid, b, txtsize)
      {
        var al := TryAtlas(aid, b);
        if al != null {
          return Some((aid, al.x, al.y));
        }
        aid := aid + 1;
      }
      place := None;
    }

    /** Grows the page table with null pages and allocates the page when it is missing. */
    method PrepareGlyphCachePage(page: nat)
      modifies this`glyphCache
      ensures glyphCache == PreparePage(old(glyphCache), page)
    {
      if page >= |glyphCache| {
        var np := glyphCache;
        while |np| <= page
          invariant |glyphCache| <= |np| <= page + 1
          invariant np == glyphCache + seq(|np| - |glyphCache|, _ => None)
        {
          np := np + [None];
        }
        glyphCache := np;
      }
      if glyphCache[page] == None {
        glyphCache := glyphCache[page := Some(seq(PAGE_SIZE, _ => NO_ENTRY))];
      }
    }

    method Store(gid: nat, entry: Entry)
      requires EntryAt(glyphCache, gid).Some?
      modifies this`glyphCache
      ensures glyphCache == SetEntry(old(glyphCache), gid, entry)
    {
      var page := glyphCache[gid / PAGE_SIZE].value;
      glyphCache := glyphCache[gid / PAGE_SIZE := Some(page[gid % PAGE_SIZE := entry])];
    }

    /** Makes sure a character is in the cache; None when it cannot be rendered or placed. */
    method CacheChar(gid: nat, rendering: Rendering) returns (glyph: Option<Entry>)
      requires Valid() && RenderingOk(rendering)
      modifies this, Repr
      ensures Valid() && old(Repr) <= Repr && fresh(Repr - old(Repr))
      ensures (Value(), glyph) == CacheGlyph(old(Value()), gid, rendering, txtsize)
    {
      hide PlaceFrom, PreparePage, SetEntry, SlotValid, AtlasPixels.HasPixels;
      PrepareGlyphCachePage(gid / PAGE_SIZE);
      var entry := glyphCache[gid / PAGE_SIZE].value[gid % PAGE_SIZE];
      if entry.isValid {
        return Some(entry);
      }
      if rendering == Failed {
        return None;
      }
      var b := rendering.bitmap;
      if b.w != 0 && b.h != 0 {
        var place := GlyphAtlasPlace(b);
        entry := entry.(place := place);
        if place == None {
          Store(gid, entry);
          return None;
        }
      }
      entry := entry.(width := b.w, height := b.h, metrics := rendering.metrics, isValid := true);
      Store(gid, entry);
      glyph := Some(entry);
    }

    /** Drops every cached glyph and every atlas. */
    method CacheFlush()
      requires Valid()
      modifies this
      ensures Valid() && Repr == {} && Value() == EMPTY_FONT
    {
      glyphCache := [];
      atlases := [null, null, null, null];
      Repr := {};
    }
  }
}
