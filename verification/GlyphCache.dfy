/** The glyph cache of a font (src/fntsys.c), on values: pages of entries that
    point into up to four atlases filled on demand. */
module GlyphCache {
  import opened Options
  import opened Bytes
  import opened Packing
  import opened AtlasPixels

  const ATLAS_MAX := 4
  const ATLAS_WIDTH := 256
  const ATLAS_HEIGHT := 256
  const PAGE_SIZE := 256

  datatype Metrics = Metrics(shx: int, shy: int, ox: int, oy: int)

  /** What the font engine answers for a character: an error, or a bitmap of one byte a pixel. */
  datatype Rendering = Failed | Rendered(bitmap: Bitmap, metrics: Metrics)

  /** `place` is the atlas number and the corner inside it; None for a null allocation. */
  datatype Entry = Entry(isValid: bool, width: nat, height: nat, metrics: Metrics, place: Option<(nat, nat, nat)>)

  type Page = p: seq<Entry> | |p| == PAGE_SIZE witness seq(PAGE_SIZE, _ => NO_ENTRY)

  const NO_ENTRY := Entry(false, 0, 0, Metrics(0, 0, 0, 0), None)

  type Cache = seq<Option<Page>>

  type Atlases = seq<Option<State>>

  datatype Font = Font(cache: Cache, atlases: Atlases)

  const EMPTY_FONT := Font([], [None, None, None, None])

  ghost predicate RenderingOk(r: Rendering) {
    r.Rendered? ==> HasPixels(Some(r.bitmap), 1)
  }

  /** A new font atlas over a texture buffer of `txtsize` bytes. */
  function NewAtlas(txtsize: nat): State {
    State(ATLAS_WIDTH, ATLAS_HEIGHT, 1, Free(Rect(0, 0, ATLAS_WIDTH, ATLAS_HEIGHT)), Zeros(txtsize))
  }

  ghost predicate AtlasOk(a: Option<State>) {
    a.Some? ==> Valid(a.value) && a.value.width == ATLAS_WIDTH && a.value.height == ATLAS_HEIGHT && a.value.ps == 1
  }

  ghost predicate AtlasesOk(atlases: Atlases) {
    |atlases| == ATLAS_MAX && forall i :: 0 <= i < ATLAS_MAX ==> AtlasOk(atlases[i])
  }

  /** Tries the atlases from number `aid` on, creating the missing ones. */
  ghost function PlaceFrom(atlases: Atlases, aid: nat, b: Bitmap, txtsize: nat): (r: (Atlases, Option<(nat, nat, nat)>))
    requires AtlasesOk(atlases) && HasPixels(Some(b), 1) && ATLAS_WIDTH * ATLAS_HEIGHT <= txtsize
    ensures AtlasesOk(r.0)
    decreases ATLAS_MAX - aid
  {
    if aid >= ATLAS_MAX then (atlases, None)
    else
      var st := AtlasAt(atlases, aid, txtsize);
      PlaceBitmapValid(st, Some(b));
      var (st', p) := PlaceBitmap(st, Some(b));
      var atlases' := atlases[aid := Some(st')];
      if p.Some? then (atlases', Some((aid, p.value.x, p.value.y)))
      else PlaceFrom(atlases', aid + 1, b, txtsize)
  }

  /** The entry of a character; None when its page is missing. */
  function EntryAt(cache: Cache, gid: nat): Option<Entry> {
    if gid / PAGE_SIZE < |cache| && cache[gid / PAGE_SIZE].Some?
    then Some(cache[gid / PAGE_SIZE].value[gid % PAGE_SIZE])
    else None
  }

  /** The cache with the page of index `page` present. */
  function PreparePage(cache: Cache, page: nat): (r: Cache)
    ensures page < |r| && r[page].Some?
  {
    var grown := if page < |cache| then cache else cache + seq(page + 1 - |cache|, _ => None);
    if grown[page].Some? then grown else grown[page := Some(seq(PAGE_SIZE, _ => NO_ENTRY))]
  }

  function SetEntry(cache: Cache, gid: nat, e: Entry): Cache
    requires EntryAt(cache, gid).Some?
  {
    var page := gid / PAGE_SIZE;
    cache[page := Some(cache[page].value[gid % PAGE_SIZE := e])]
  }

  /** The page table grows only as far as needed, by missing pages, and a new page
      holds no character. */
  lemma PreparePageGrows(cache: Cache, page: nat)
    ensures
      var r := PreparePage(cache, page);
      && |r| == (if page < |cache| then |cache| else page + 1)
      && forall k :: 0 <= k < |r| ==>
           r[k] == if k < |cache| && cache[k].Some? then cache[k]
                   else if k == page then Some(seq(PAGE_SIZE, _ => NO_ENTRY)) else None
  {}

  lemma PreparePageKeeps(cache: Cache, page: nat, gid: nat)
    ensures EntryAt(PreparePage(cache, page), gid) ==
            if gid / PAGE_SIZE == page && EntryAt(cache, gid).None? then Some(NO_ENTRY) else EntryAt(cache, gid)
  {}

  lemma SetEntryAt(cache: Cache, gid: nat, e: Entry, other: nat)
    requires EntryAt(cache, gid).Some?
    ensures EntryAt(SetEntry(cache, gid, e), other) == if other == gid then Some(e) else EntryAt(cache, other)
  {
    assert gid == gid / PAGE_SIZE * PAGE_SIZE + gid % PAGE_SIZE;
    assert other == other / PAGE_SIZE * PAGE_SIZE + other % PAGE_SIZE;
  }

  /** One use of a character: the font afterwards and the entry to draw with. */
  ghost function CacheGlyph(font: Font, gid: nat, rendering: Rendering, txtsize: nat): (r: (Font, Option<Entry>))
    requires AtlasesOk(font.atlases) && RenderingOk(rendering) && ATLAS_WIDTH * ATLAS_HEIGHT <= txtsize
    ensures AtlasesOk(r.0.atlases)
  {
    var cache := PreparePage(font.cache, gid / PAGE_SIZE);
    var old_ := EntryAt(cache, gid).value;
    if old_.isValid then (font.(cache := cache), Some(old_))
    else match rendering
      case Failed => (font.(cache := cache), None)
      case Rendered(b, metrics) =>
        if b.w == 0 || b.h == 0 then
          var e := Entry(true, b.w, b.h, metrics, old_.place);
          (font.(cache := SetEntry(cache, gid, e)), Some(e))
        else
          var (atlases, place) := PlaceFrom(font.atlases, 0, b, txtsize);
          if place.None? then
            (Font(SetEntry(cache, gid, old_.(place := None)), atlases), None)
          else
            var e := Entry(true, b.w, b.h, metrics, place);
            (Font(SetEntry(cache, gid, e), atlases), Some(e))
  }

  // ----- Which glyphs the atlases show -----

  /** The glyphs held by each atlas, in the order of their placement. */
  type Shelf = seq<seq<Glyph>>

  ghost predicate ShelfOk(atlases: Atlases, shelf: Shelf) {
    && |shelf| == ATLAS_MAX
    && AtlasesOk(atlases)
    && forall i :: 0 <= i < ATLAS_MAX ==>
         if atlases[i].None? then shelf[i] == [] else Consistent(atlases[i].value, shelf[i])
  }

  lemma NewAtlasBlank(txtsize: nat)
    requires ATLAS_WIDTH * ATLAS_HEIGHT <= txtsize
    ensures Consistent(NewAtlas(txtsize), [])
  {
    BlankIsConsistent(NewAtlas(txtsize));
  }

  ghost function AtlasAt(atlases: Atlases, aid: nat, txtsize: nat): State
    requires aid < |atlases|
  {
    if atlases[aid].None? then NewAtlas(txtsize) else atlases[aid].value
  }

  /** One attempt at one atlas. */
  lemma TryAtlas(atlases: Atlases, shelf: Shelf, aid: nat, b: Bitmap, txtsize: nat)
    requires ShelfOk(atlases, shelf) && HasPixels(Some(b), 1) && ATLAS_WIDTH * ATLAS_HEIGHT <= txtsize
    requires aid < ATLAS_MAX
    ensures
      var st := AtlasAt(atlases, aid, txtsize);
      && Valid(st) && st.ps == 1
      && var (st', p) := PlaceBitmap(st, Some(b));
         ShelfOk(atlases[aid := Some(st')],
                 if p.Some? then Shelve(shelf, (aid, p.value.x, p.value.y), b) else shelf)
  {
    hide AtlasPixels.Consistent, AtlasPixels.PlaceBitmap, AtlasPixels.Valid;
    NewAtlasBlank(txtsize);
    var st := AtlasAt(atlases, aid, txtsize);
    PlaceBitmapValid(st, Some(b));
    PlaceBitmapKeeps(st, shelf[aid], Some(b));
  }

  /** Placing a bitmap keeps every shelved glyph and shelves the new one. */
  lemma {:induction false} PlaceFromKeeps(atlases: Atlases, shelf: Shelf, aid: nat, b: Bitmap, txtsize: nat)
    requires ShelfOk(atlases, shelf) && HasPixels(Some(b), 1) && ATLAS_WIDTH * ATLAS_HEIGHT <= txtsize
    ensures
      var (atlases', place) := PlaceFrom(atlases, aid, b, txtsize);
      && (place.None? ==> ShelfOk(atlases', shelf))
      && (place.Some? ==>
            && aid <= place.value.0 < ATLAS_MAX
            && ShelfOk(atlases', Shelve(shelf, place.value, b)))
    decreases ATLAS_MAX - aid
  {
    hide AtlasPixels.Consistent, AtlasPixels.PlaceBitmap, AtlasPixels.Valid;
    if aid < ATLAS_MAX {
      TryAtlas(atlases, shelf, aid, b, txtsize);
      var st := AtlasAt(atlases, aid, txtsize);
      PlaceBitmapValid(st, Some(b));
      var (st', p) := PlaceBitmap(st, Some(b));
      if p.None? {
        PlaceFromKeeps(atlases[aid := Some(st')], shelf, aid + 1, b, txtsize);
      }
    }
  }

  // ----- Which characters find a place -----

  /** The free leaves of an atlas; one that does not exist yet would be all free. */
  function LeavesOf(atlas: Option<State>): seq<Rect> {
    if atlas.None? then [Rect(0, 0, ATLAS_WIDTH, ATLAS_HEIGHT)] else FreeLeaves(atlas.value.tree)
  }

  /** Some free leaf holds the bitmap with one more column and row. */
  ghost predicate HasRoom(atlas: Option<State>, b: Bitmap) {
    exists i :: 0 <= i < |LeavesOf(atlas)| && Fits(LeavesOf(atlas)[i], b.w + 1, b.h + 1)
  }

  /** Atlas `a` is the first from `aid` on that has room. */
  ghost predicate FirstWithRoom(atlases: Atlases, aid: nat, b: Bitmap, a: nat)
    requires |atlases| == ATLAS_MAX
  {
    aid <= a < ATLAS_MAX && HasRoom(atlases[a], b) && forall k :: aid <= k < a ==> !HasRoom(atlases[k], b)
  }

  /** One attempt succeeds exactly when that atlas has room. */
  lemma TrySucceedsIff(atlases: Atlases, aid: nat, b: Bitmap, txtsize: nat)
    requires AtlasesOk(atlases) && HasPixels(Some(b), 1) && ATLAS_WIDTH * ATLAS_HEIGHT <= txtsize && aid < ATLAS_MAX
    ensures
      var st := AtlasAt(atlases, aid, txtsize);
      && Valid(st) && st.ps == 1
      && var (st', p) := PlaceBitmap(st, Some(b));
         && (p.Some? <==> HasRoom(atlases[aid], b))
         && (p.None? ==> st' == st)
         && (p.Some? ==> exists i: nat ::
               FirstFit(LeavesOf(atlases[aid]), b.w + 1, b.h + 1, i) && p.value == LeavesOf(atlases[aid])[i])
  {
    hide PlaceBitmap;
    var st := AtlasAt(atlases, aid, txtsize);
    NewAtlasBlank(txtsize);
    assert AtlasOk(atlases[aid]);
    assert FreeLeaves(st.tree) == LeavesOf(atlases[aid]);
    PlaceBitmapIff(st, b);
    assert HasRoom(atlases[aid], b) <==> !NoneFits(LeavesOf(atlases[aid]), b.w + 1, b.h + 1);
    var p := PlaceBitmap(st, Some(b)).1;
    if p.Some? {
      var i: nat :| FirstFit(FreeLeaves(st.tree), b.w + 1, b.h + 1, i) && p.value == FreeLeaves(st.tree)[i];
      assert FirstFit(LeavesOf(atlases[aid]), b.w + 1, b.h + 1, i);
    }
  }

  /** A bitmap finds no place exactly when no atlas has room, existing or still to
      be made. Otherwise it goes to the first that has, into the first leaf that
      holds it; the missing atlases before are made and stay blank, and no other
      atlas changes. */
  lemma {:induction false} PlaceFromIff(atlases: Atlases, aid: nat, b: Bitmap, txtsize: nat)
    requires AtlasesOk(atlases) && HasPixels(Some(b), 1) && ATLAS_WIDTH * ATLAS_HEIGHT <= txtsize
    ensures
      var (atlases', place) := PlaceFrom(atlases, aid, b, txtsize);
      && |atlases'| == ATLAS_MAX
      && (place.None? <==> forall a :: aid <= a < ATLAS_MAX ==> !HasRoom(atlases[a], b))
      && (place.Some? ==>
            && FirstWithRoom(atlases, aid, b, place.value.0)
            && exists i: nat :: FirstFit(LeavesOf(atlases[place.value.0]), b.w + 1, b.h + 1, i)
                 && place.value.1 == LeavesOf(atlases[place.value.0])[i].x
                 && place.value.2 == LeavesOf(atlases[place.value.0])[i].y)
      && forall a :: 0 <= a < ATLAS_MAX && (place.Some? ==> a != place.value.0) ==>
           atlases'[a] ==
           if aid <= a && (place.Some? ==> a < place.value.0) then Some(AtlasAt(atlases, a, txtsize)) else atlases[a]
    decreases ATLAS_MAX - aid
  {
    hide PlaceBitmap, Valid, HasPixels, HasRoom, LeavesOf, FirstFit;
    if aid < ATLAS_MAX {
      TrySucceedsIff(atlases, aid, b, txtsize);
      var st := AtlasAt(atlases, aid, txtsize);
      PlaceBitmapValid(st, Some(b));
      var (st', p) := PlaceBitmap(st, Some(b));
      if p.None? {
        PlaceFromIff(atlases[aid := Some(st')], aid + 1, b, txtsize);
      }
    }
  }

  /** A character that is rendered with pixels and not cached yet stays uncached
      exactly when no atlas has room for its bitmap. */
  lemma StaysUncachedIff(font: Font, gid: nat, b: Bitmap, metrics: Metrics, txtsize: nat)
    requires AtlasesOk(font.atlases) && RenderingOk(Rendered(b, metrics)) && ATLAS_WIDTH * ATLAS_HEIGHT <= txtsize
    requires b.w != 0 && b.h != 0 && (EntryAt(font.cache, gid).Some? ==> !EntryAt(font.cache, gid).value.isValid)
    ensures
      var (font', r) := CacheGlyph(font, gid, Rendered(b, metrics), txtsize);
      && EntryAt(font'.cache, gid).Some?
      && (r == None <==> !EntryAt(font'.cache, gid).value.isValid)
      && (r == None <==> forall a :: 0 <= a < ATLAS_MAX ==> !HasRoom(font.atlases[a], b))
      && (r.Some? ==>
            && r.value.metrics == metrics && r.value.place.Some?
            && FirstWithRoom(font.atlases, 0, b, r.value.place.value.0))
  {
    hide PlaceFrom, CacheGlyph, HasRoom, EntryAt, AtlasesOk, HasPixels;
    UseOutcome(font, gid, Rendered(b, metrics), txtsize);
    PlaceFromIff(font.atlases, 0, b, txtsize);
  }

  function Shelve(shelf: Shelf, place: (nat, nat, nat), b: Bitmap): Shelf
    requires place.0 < |shelf|
  {
    shelf[place.0 := shelf[place.0] + [Glyph(place.1, place.2, b)]]
  }

  /** Entry `e` of a character last rendered as `b`: its size is that of the bitmap,
      and a bitmap with pixels stands on the shelf where the entry points. */
  ghost predicate EntryShown(e: Entry, b: Bitmap, shelf: Shelf) {
    && e.width == b.w && e.height == b.h
    && (b.w == 0 || b.h == 0 ==> e.place == None)
    && (b.w != 0 && b.h != 0 ==>
          && e.place.Some? && e.place.value.0 < |shelf|
          && Glyph(e.place.value.1, e.place.value.2, b) in shelf[e.place.value.0])
  }

  /** `drawn` maps each cached character to the bitmap it was rendered as. */
  ghost predicate Cached(font: Font, shelf: Shelf, drawn: map<nat, Bitmap>) {
    && ShelfOk(font.atlases, shelf)
    && forall gid: nat :: EntryAt(font.cache, gid).Some? ==>
         var e := EntryAt(font.cache, gid).value;
         if e.isValid then gid in drawn && EntryShown(e, drawn[gid], shelf) else e.place == None
  }

  ghost predicate Placed(font: Font, gid: nat, rendering: Rendering, txtsize: nat)
    requires AtlasesOk(font.atlases) && RenderingOk(rendering) && ATLAS_WIDTH * ATLAS_HEIGHT <= txtsize
  {
    !(EntryAt(font.cache, gid).Some? && EntryAt(font.cache, gid).value.isValid)
    && CacheGlyph(font, gid, rendering, txtsize).1.Some?
  }

  /** The shelf after one use of a character. */
  ghost function ShelfAfter(font: Font, shelf: Shelf, gid: nat, rendering: Rendering, txtsize: nat): Shelf
    requires AtlasesOk(font.atlases) && RenderingOk(rendering) && ATLAS_WIDTH * ATLAS_HEIGHT <= txtsize
  {
    if Placed(font, gid, rendering, txtsize) then
      var e := CacheGlyph(font, gid, rendering, txtsize).1.value;
      if e.place.Some? && e.place.value.0 < |shelf| then Shelve(shelf, e.place.value, rendering.bitmap) else shelf
    else shelf
  }

  ghost function DrawnAfter(font: Font, drawn: map<nat, Bitmap>, gid: nat, rendering: Rendering,
                            txtsize: nat): map<nat, Bitmap>
    requires AtlasesOk(font.atlases) && RenderingOk(rendering) && ATLAS_WIDTH * ATLAS_HEIGHT <= txtsize
  {
    if Placed(font, gid, rendering, txtsize) then drawn[gid := rendering.bitmap] else drawn
  }

  /** The entry of `other` once the page of `gid` is there. */
  ghost function Prepared(cache: Cache, gid: nat, other: nat): Option<Entry> {
    if other / PAGE_SIZE == gid / PAGE_SIZE && EntryAt(cache, other).None? then Some(NO_ENTRY)
    else EntryAt(cache, other)
  }

  /** What one use of a character does to its own entry, and to the atlases. */
  lemma UseOutcome(font: Font, gid: nat, rendering: Rendering, txtsize: nat)
    requires AtlasesOk(font.atlases) && RenderingOk(rendering) && ATLAS_WIDTH * ATLAS_HEIGHT <= txtsize
    ensures
      var (font', r) := CacheGlyph(font, gid, rendering, txtsize);
      && EntryAt(font'.cache, gid).Some? && Prepared(font.cache, gid, gid).Some?
      && var e, was := EntryAt(font'.cache, gid).value, Prepared(font.cache, gid, gid).value;
         if was.isValid then e == was && font'.atlases == font.atlases && r == Some(e)
         else if rendering.Failed? then e == was && font'.atlases == font.atlases && r == None
         else
           var b := rendering.bitmap;
           if b.w == 0 || b.h == 0 then
             e == Entry(true, b.w, b.h, rendering.metrics, was.place) && font'.atlases == font.atlases && r == Some(e)
           else
             var (atlases, place) := PlaceFrom(font.atlases, 0, b, txtsize);
             && font'.atlases == atlases
             && (place.None? ==> e == was.(place := None) && r == None)
             && (place.Some? ==> e == Entry(true, b.w, b.h, rendering.metrics, place) && r == Some(e))
  {
    hide PlaceFrom, AtlasesOk, HasPixels, PreparePage, SetEntry, EntryAt;
    var cache := PreparePage(font.cache, gid / PAGE_SIZE);
    PreparePageKeeps(font.cache, gid / PAGE_SIZE, gid);
    forall e: Entry ensures EntryAt(SetEntry(cache, gid, e), gid) == Some(e) {
      SetEntryAt(cache, gid, e, gid);
    }
  }

  /** The answer is the entry of the character, exactly when it is valid afterwards. */
  lemma AnswerIsValidEntry(font: Font, gid: nat, rendering: Rendering, txtsize: nat)
    requires AtlasesOk(font.atlases) && RenderingOk(rendering) && ATLAS_WIDTH * ATLAS_HEIGHT <= txtsize
    ensures
      var (font', r) := CacheGlyph(font, gid, rendering, txtsize);
      var e := EntryAt(font'.cache, gid);
      e.Some? && r == if e.value.isValid then e else None
  {
    hide PlaceFrom, CacheGlyph, EntryAt, AtlasesOk, HasPixels;
    UseOutcome(font, gid, rendering, txtsize);
  }

  /** No other entry changes, but the page may be new. */
  lemma UseKeepsOthers(font: Font, gid: nat, rendering: Rendering, txtsize: nat, other: nat)
    requires AtlasesOk(font.atlases) && RenderingOk(rendering) && ATLAS_WIDTH * ATLAS_HEIGHT <= txtsize
    requires other != gid
    ensures EntryAt(CacheGlyph(font, gid, rendering, txtsize).0.cache, other) == Prepared(font.cache, gid, other)
  {
    hide PlaceFrom, AtlasesOk, HasPixels, PreparePage, SetEntry, EntryAt;
    var cache := PreparePage(font.cache, gid / PAGE_SIZE);
    PreparePageKeeps(font.cache, gid / PAGE_SIZE, gid);
    PreparePageKeeps(font.cache, gid / PAGE_SIZE, other);
    forall e: Entry ensures EntryAt(SetEntry(cache, gid, e), other) == EntryAt(cache, other) {
      SetEntryAt(cache, gid, e, other);
    }
  }

  lemma ShownStays(e: Entry, b: Bitmap, shelf: Shelf, place: (nat, nat, nat), added: Bitmap)
    requires EntryShown(e, b, shelf) && place.0 < |shelf|
    ensures EntryShown(e, b, Shelve(shelf, place, added))
  {}

  lemma ShownNew(e: Entry, b: Bitmap, shelf: Shelf)
    requires e.width == b.w && e.height == b.h && b.w != 0 && b.h != 0
    requires e.place.Some? && e.place.value.0 < |shelf|
    ensures EntryShown(e, b, Shelve(shelf, e.place.value, b))
  {
    var g := Glyph(e.place.value.1, e.place.value.2, b);
    assert (shelf[e.place.value.0] + [g])[|shelf[e.place.value.0]|] == g;
  }

  /** The shelves after one use, and the character's own entry. */
  lemma UseKeepsShelf(font: Font, shelf: Shelf, drawn: map<nat, Bitmap>, gid: nat, rendering: Rendering, txtsize: nat)
    requires Cached(font, shelf, drawn) && RenderingOk(rendering) && ATLAS_WIDTH * ATLAS_HEIGHT <= txtsize
    ensures
      var font' := CacheGlyph(font, gid, rendering, txtsize).0;
      var shelf' := ShelfAfter(font, shelf, gid, rendering, txtsize);
      var drawn' := DrawnAfter(font, drawn, gid, rendering, txtsize);
      && ShelfOk(font'.atlases, shelf') && EntryAt(font'.cache, gid).Some?
      && var e := EntryAt(font'.cache, gid).value;
         if e.isValid then gid in drawn' && EntryShown(e, drawn'[gid], shelf') else e.place == None
    ensures EntryAt(font.cache, gid).Some? && EntryAt(font.cache, gid).value.isValid ==>
      EntryAt(CacheGlyph(font, gid, rendering, txtsize).0.cache, gid) == EntryAt(font.cache, gid)
  {
    hide PlaceFrom, HasPixels, EntryAt, CacheGlyph, AtlasesOk, Consistent, Shelve;
    UseOutcome(font, gid, rendering, txtsize);
    if rendering.Rendered? {
      var b := rendering.bitmap;
      PlaceFromKeeps(font.atlases, shelf, 0, b, txtsize);
      var e := EntryAt(CacheGlyph(font, gid, rendering, txtsize).0.cache, gid).value;
      if e.place.Some? && e.place.value.0 < |shelf| && e.width == b.w != 0 && e.height == b.h != 0 {
        ShownNew(e, b, shelf);
      }
    }
  }

  lemma UseKeepsShown(font: Font, shelf: Shelf, drawn: map<nat, Bitmap>, gid: nat, rendering: Rendering,
                      txtsize: nat, e: Entry, b: Bitmap)
    requires Cached(font, shelf, drawn) && RenderingOk(rendering) && ATLAS_WIDTH * ATLAS_HEIGHT <= txtsize
    requires EntryShown(e, b, shelf)
    ensures EntryShown(e, b, ShelfAfter(font, shelf, gid, rendering, txtsize))
  {
    hide HasPixels, EntryAt, CacheGlyph, AtlasesOk, Consistent, Shelve, EntryShown;
    UseOutcome(font, gid, rendering, txtsize);
    if ShelfAfter(font, shelf, gid, rendering, txtsize) != shelf {
      ShownStays(e, b, shelf, CacheGlyph(font, gid, rendering, txtsize).1.value.place.value, rendering.bitmap);
    }
  }

  /** One use of a character keeps every cached glyph where it was and as it was. */
  lemma CacheGlyphKeeps(font: Font, shelf: Shelf, drawn: map<nat, Bitmap>, gid: nat, rendering: Rendering, txtsize: nat)
    requires Cached(font, shelf, drawn) && RenderingOk(rendering) && ATLAS_WIDTH * ATLAS_HEIGHT <= txtsize
    ensures Cached(CacheGlyph(font, gid, rendering, txtsize).0,
                   ShelfAfter(font, shelf, gid, rendering, txtsize),
                   DrawnAfter(font, drawn, gid, rendering, txtsize))
    ensures forall other: nat :: EntryAt(font.cache, other).Some? && EntryAt(font.cache, other).value.isValid ==>
      EntryAt(CacheGlyph(font, gid, rendering, txtsize).0.cache, other) == EntryAt(font.cache, other)
  {
    hide HasPixels, EntryAt, CacheGlyph, AtlasesOk, Consistent, EntryShown, ShelfAfter;
    UseKeepsShelf(font, shelf, drawn, gid, rendering, txtsize);
    forall other: nat | other != gid
      ensures EntryAt(CacheGlyph(font, gid, rendering, txtsize).0.cache, other) == Prepared(font.cache, gid, other)
      ensures EntryAt(font.cache, other).Some? && EntryAt(font.cache, other).value.isValid ==>
                && other in drawn
                && EntryShown(EntryAt(font.cache, other).value, drawn[other],
                              ShelfAfter(font, shelf, gid, rendering, txtsize))
    {
      UseKeepsOthers(font, gid, rendering, txtsize, other);
      if EntryAt(font.cache, other).Some? && EntryAt(font.cache, other).value.isValid {
        UseKeepsShown(font, shelf, drawn, gid, rendering, txtsize, EntryAt(font.cache, other).value, drawn[other]);
      }
    }
  }

  // ----- Runs -----

  /** A font is used for a character, or its cache is flushed because the screen mode changed. */
  datatype Op = Use(gid: nat, rendering: Rendering) | Flush

  datatype History = History(font: Font, shelf: Shelf, drawn: map<nat, Bitmap>)

  const NO_HISTORY := History(EMPTY_FONT, [[], [], [], []], map[])

  ghost predicate OpsOk(ops: seq<Op>) {
    forall i :: 0 <= i < |ops| ==> ops[i].Use? ==> RenderingOk(ops[i].rendering)
  }

  ghost function Step(h: History, op: Op, txtsize: nat): (h': History)
    requires AtlasesOk(h.font.atlases) && (op.Use? ==> RenderingOk(op.rendering))
    requires ATLAS_WIDTH * ATLAS_HEIGHT <= txtsize
    ensures AtlasesOk(h'.font.atlases)
  {
    match op
    case Flush => NO_HISTORY
    case Use(gid, rendering) =>
      History(CacheGlyph(h.font, gid, rendering, txtsize).0,
              ShelfAfter(h.font, h.shelf, gid, rendering, txtsize),
              DrawnAfter(h.font, h.drawn, gid, rendering, txtsize))
  }

  ghost function Run(ops: seq<Op>, txtsize: nat): (h: History)
    requires OpsOk(ops) && ATLAS_WIDTH * ATLAS_HEIGHT <= txtsize
    ensures AtlasesOk(h.font.atlases)
  {
    if ops == [] then NO_HISTORY else Step(Run(ops[..|ops| - 1], txtsize), ops[|ops| - 1], txtsize)
  }

  lemma {:induction false} RunCaches(ops: seq<Op>, txtsize: nat)
    requires OpsOk(ops) && ATLAS_WIDTH * ATLAS_HEIGHT <= txtsize
    ensures
      var h := Run(ops, txtsize);
      Cached(h.font, h.shelf, h.drawn)
  {
    if ops != [] {
      RunCaches(ops[..|ops| - 1], txtsize);
      var h, op := Run(ops[..|ops| - 1], txtsize), ops[|ops| - 1];
      if op.Use? {
        CacheGlyphKeeps(h.font, h.shelf, h.drawn, op.gid, op.rendering, txtsize);
      }
    }
  }

  /** After any run of uses and flushes, every valid entry with a bitmap points
      into an atlas from which that bitmap reads back, with a blank border to
      its right and below it. */
  lemma ValidGlyphsReadBack(ops: seq<Op>, txtsize: nat, gid: nat)
    requires OpsOk(ops) && ATLAS_WIDTH * ATLAS_HEIGHT <= txtsize
    requires EntryAt(Run(ops, txtsize).font.cache, gid).Some?
    requires EntryAt(Run(ops, txtsize).font.cache, gid).value.isValid
    ensures gid in Run(ops, txtsize).drawn
    ensures
      var h := Run(ops, txtsize);
      var e, b := EntryAt(h.font.cache, gid).value, h.drawn[gid];
      && e.width == b.w && e.height == b.h
      && (e.width != 0 && e.height != 0 ==>
            && e.place.Some? && e.place.value.0 < ATLAS_MAX && h.font.atlases[e.place.value.0].Some?
            && Shows(h.font.atlases[e.place.value.0].value, Glyph(e.place.value.1, e.place.value.2, b)))
  {
    RunCaches(ops, txtsize);
  }

  lemma EntryStays(ops: seq<Op>, txtsize: nat, op: Op, gid: nat)
    requires OpsOk(ops) && ATLAS_WIDTH * ATLAS_HEIGHT <= txtsize && op.Use? && RenderingOk(op.rendering)
    requires EntryAt(Run(ops, txtsize).font.cache, gid).Some?
    requires EntryAt(Run(ops, txtsize).font.cache, gid).value.isValid
    ensures OpsOk(ops + [op])
    ensures EntryAt(Run(ops + [op], txtsize).font.cache, gid) == EntryAt(Run(ops, txtsize).font.cache, gid)
    ensures gid in Run(ops, txtsize).drawn && gid in Run(ops + [op], txtsize).drawn
    ensures Run(ops + [op], txtsize).drawn[gid] == Run(ops, txtsize).drawn[gid]
  {
    var h := Run(ops, txtsize);
    RunCaches(ops, txtsize);
    assert (ops + [op])[..|ops|] == ops;
    CacheGlyphKeeps(h.font, h.shelf, h.drawn, op.gid, op.rendering, txtsize);
  }

  /** Once cached, a character keeps its entry and is not rendered again, however
      often characters are used, until the cache is flushed. */
  lemma {:induction false} ValidEntriesStay(ops: seq<Op>, more: seq<Op>, txtsize: nat, gid: nat)
    requires OpsOk(ops) && OpsOk(more) && ATLAS_WIDTH * ATLAS_HEIGHT <= txtsize
    requires forall i :: 0 <= i < |more| ==> more[i].Use?
    requires EntryAt(Run(ops, txtsize).font.cache, gid).Some?
    requires EntryAt(Run(ops, txtsize).font.cache, gid).value.isValid
    ensures OpsOk(ops + more)
    ensures EntryAt(Run(ops + more, txtsize).font.cache, gid) == EntryAt(Run(ops, txtsize).font.cache, gid)
    ensures gid in Run(ops, txtsize).drawn && gid in Run(ops + more, txtsize).drawn
    ensures Run(ops + more, txtsize).drawn[gid] == Run(ops, txtsize).drawn[gid]
  {
    hide EntryAt, Run, RenderingOk;
    if more == [] {
      assert ops + more == ops;
      ValidGlyphsReadBack(ops, txtsize, gid);
    } else {
      var before, op := more[..|more| - 1], more[|more| - 1];
      ValidEntriesStay(ops, before, txtsize, gid);
      EntryStays(ops + before, txtsize, op, gid);
      assert ops + more == ops + before + [op];
    }
  }
}
