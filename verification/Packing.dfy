/** The guillotine rectangle packer of the glyph atlas (src/atlas.c), on values:
    which rectangles a run of placements reserves and which ones stay free. */
module Packing {
  import opened Options

  datatype Rect = Rect(x: nat, y: nat, w: nat, h: nat)

  /** An allocation node: a free leaf, or a node that holds one reservation in
      its upper left corner and hands the rest of its area to two children. */
  datatype Tree = Free(r: Rect) | Used(r: Rect, leaf1: Tree, leaf2: Tree)

  predicate Contains(r: Rect, px: int, py: int) {
    r.x <= px < r.x + r.w && r.y <= py < r.y + r.h
  }

  predicate Fits(r: Rect, w: nat, h: nat) {
    w <= r.w && h <= r.h
  }

  /** The two pieces left of `r` once w x h is cut from its upper left corner. */
  function Pieces(r: Rect, w: nat, h: nat): (Rect, Rect)
    requires Fits(r, w, h)
  {
    var dx := r.w - w;
    var dy := r.h - h;
    if dx < dy then
      (Rect(r.x + w, r.y, dx, h), Rect(r.x, r.y + h, r.w, dy))
    else
      (Rect(r.x, r.y + h, w, dy), Rect(r.x + w, r.y, dx, r.h))
  }

  /** Placement of w x h: the new tree and the rectangle of the node that took it. */
  function Place(t: Tree, w: nat, h: nat): (Tree, Option<Rect>) {
    if !Fits(t.r, w, h) then (t, None)
    else match t
      case Free(r) =>
        var (l1, l2) := Pieces(r, w, h);
        (Used(r, Free(l1), Free(l2)), Some(r))
      case Used(r, leaf1, leaf2) =>
        var (t1, p1) := Place(leaf1, w, h);
        if p1.Some? then (Used(r, t1, leaf2), p1)
        else
          var (t2, p2) := Place(leaf2, w, h);
          (Used(r, leaf1, t2), p2)
  }

  /** The free leaves, in the order in which a placement tries them. */
  function FreeLeaves(t: Tree): seq<Rect> {
    match t
    case Free(r) => [r]
    case Used(_, leaf1, leaf2) => FreeLeaves(leaf1) + FreeLeaves(leaf2)
  }

  predicate Within(r: Rect, outer: Rect) {
    outer.x <= r.x && r.x + r.w <= outer.x + outer.w && outer.y <= r.y && r.y + r.h <= outer.y + outer.h
  }

  /** Every child lies within its parent. */
  predicate WellFormed(t: Tree) {
    t.Used? ==>
      && Within(t.leaf1.r, t.r)
      && Within(t.leaf2.r, t.r)
      && WellFormed(t.leaf1)
      && WellFormed(t.leaf2)
  }

  /** `i` is the first leaf that can hold w x h. */
  ghost predicate FirstFit(leaves: seq<Rect>, w: nat, h: nat, i: nat) {
    && i < |leaves|
    && Fits(leaves[i], w, h)
    && forall j :: 0 <= j < i ==> !Fits(leaves[j], w, h)
  }

  ghost predicate NoneFits(leaves: seq<Rect>, w: nat, h: nat) {
    forall j :: 0 <= j < |leaves| ==> !Fits(leaves[j], w, h)
  }

  /** Index of the free leaf a successful placement cuts up. */
  ghost function Chosen(t: Tree, w: nat, h: nat): (i: nat)
    requires Place(t, w, h).1.Some?
  {
    match t
    case Free(_) => 0
    case Used(_, leaf1, leaf2) =>
      if Place(leaf1, w, h).1.Some? then Chosen(leaf1, w, h)
      else |FreeLeaves(leaf1)| + Chosen(leaf2, w, h)
  }

  lemma {:induction false} LeavesAreWithin(t: Tree)
    requires WellFormed(t)
    ensures forall k :: 0 <= k < |FreeLeaves(t)| ==> Within(FreeLeaves(t)[k], t.r)
  {
    if t.Used? {
      LeavesAreWithin(t.leaf1);
      LeavesAreWithin(t.leaf2);
    }
  }

  lemma {:induction false} FailureChangesNothing(t: Tree, w: nat, h: nat)
    requires Place(t, w, h).1.None?
    ensures Place(t, w, h).0 == t
  {
    if t.Used? && Fits(t.r, w, h) {
      FailureChangesNothing(t.leaf2, w, h);
    }
  }

  /** A placement fails exactly when no free leaf is large enough, and then
      changes nothing. */
  lemma {:induction false} FailsIffNoLeafFits(t: Tree, w: nat, h: nat)
    requires WellFormed(t)
    ensures Place(t, w, h).1.None? <==> NoneFits(FreeLeaves(t), w, h)
    ensures Place(t, w, h).1.None? ==> Place(t, w, h).0 == t
  {
    LeavesAreWithin(t);
    if Place(t, w, h).1.None? {
      FailureChangesNothing(t, w, h);
    }
    match t {
      case Free(r) =>
        assert FreeLeaves(t)[0] == r;
      case Used(_, leaf1, leaf2) =>
        FailsIffNoLeafFits(leaf1, w, h);
        FailsIffNoLeafFits(leaf2, w, h);
        var a, b := FreeLeaves(leaf1), FreeLeaves(leaf2);
        if NoneFits(FreeLeaves(t), w, h) {
          assert forall j :: 0 <= j < |a| ==> a[j] == (a + b)[j];
          assert forall j :: 0 <= j < |b| ==> b[j] == (a + b)[|a| + j];
        }
    }
  }

  /** `rs` with its element `i` replaced by two others. */
  ghost function SplitAt<T>(rs: seq<T>, i: nat, l1: T, l2: T): seq<T>
    requires i < |rs|
  {
    rs[..i] + [l1, l2] + rs[i + 1..]
  }

  lemma SplitAtConcat<T>(a: seq<T>, b: seq<T>, i: nat, l1: T, l2: T)
    requires i < |a| + |b|
    ensures i < |a| ==> SplitAt(a + b, i, l1, l2) == SplitAt(a, i, l1, l2) + b
    ensures i >= |a| ==> SplitAt(a + b, i, l1, l2) == a + SplitAt(b, i - |a|, l1, l2)
  {
    if i < |a| {
      assert (a + b)[..i] == a[..i] && (a + b)[i + 1..] == a[i + 1..] + b;
    } else {
      assert (a + b)[..i] == a + b[..i - |a|] && (a + b)[i + 1..] == b[i - |a| + 1..];
    }
  }

  /** A successful placement takes the first leaf that is large enough and
      replaces it, in place, by the two pieces around the reservation. */
  lemma {:induction false} TakesFirstFit(t: Tree, w: nat, h: nat)
    requires WellFormed(t)
    requires Place(t, w, h).1.Some?
    ensures FirstFit(FreeLeaves(t), w, h, Chosen(t, w, h))
    ensures Place(t, w, h).1.value == FreeLeaves(t)[Chosen(t, w, h)]
    ensures WellFormed(Place(t, w, h).0) && Place(t, w, h).0.r == t.r
    ensures
      var i := Chosen(t, w, h);
      var (l1, l2) := Pieces(FreeLeaves(t)[i], w, h);
      FreeLeaves(Place(t, w, h).0) == SplitAt(FreeLeaves(t), i, l1, l2)
  {
    match t {
      case Free(r) =>
      case Used(r, leaf1, leaf2) =>
        var a, b := FreeLeaves(leaf1), FreeLeaves(leaf2);
        var i := Chosen(t, w, h);
        if Place(leaf1, w, h).1.Some? {
          TakesFirstFit(leaf1, w, h);
          assert (a + b)[i] == a[i];
        } else {
          FailsIffNoLeafFits(leaf1, w, h);
          TakesFirstFit(leaf2, w, h);
          assert (a + b)[i] == b[i - |a|];
        }
        var (l1, l2) := Pieces((a + b)[i], w, h);
        SplitAtConcat(a, b, i, l1, l2);
    }
  }

  // ----- Which requests still fit -----

  lemma FirstFitUnique(leaves: seq<Rect>, w: nat, h: nat, i: nat, j: nat)
    requires FirstFit(leaves, w, h, i) && FirstFit(leaves, w, h, j)
    ensures i == j
  {}

  /** What a placement leaves of the first leaf `r` that is large enough. If less
      is left beside the reservation than below it, the strip below keeps the whole
      width of `r`, otherwise the strip beside keeps its whole height; the other,
      shortened one comes first and is tried before it. */
  lemma PlaceCuts(t: Tree, w: nat, h: nat, i: nat)
    requires WellFormed(t) && FirstFit(FreeLeaves(t), w, h, i)
    ensures Place(t, w, h).1 == Some(FreeLeaves(t)[i])
    ensures
      var ls := FreeLeaves(t);
      var r := ls[i];
      var left :=
        if r.w - w < r.h - h then [Rect(r.x + w, r.y, r.w - w, h), Rect(r.x, r.y + h, r.w, r.h - h)]
        else [Rect(r.x, r.y + h, w, r.h - h), Rect(r.x + w, r.y, r.w - w, r.h)];
      FreeLeaves(Place(t, w, h).0) == ls[..i] + left + ls[i + 1..]
  {
    FailsIffNoLeafFits(t, w, h);
    TakesFirstFit(t, w, h);
    FirstFitUnique(FreeLeaves(t), w, h, i, Chosen(t, w, h));
  }

  /** So after a placement in leaf `i` a second request fits exactly when another
      leaf held it before, or one of the two strips holds it. */
  lemma SecondFitsIff(t: Tree, w: nat, h: nat, i: nat, w2: nat, h2: nat)
    requires WellFormed(t) && FirstFit(FreeLeaves(t), w, h, i)
    ensures
      var r := FreeLeaves(t)[i];
      Place(Place(t, w, h).0, w2, h2).1.Some? <==>
        || (exists j :: 0 <= j < |FreeLeaves(t)| && j != i && Fits(FreeLeaves(t)[j], w2, h2))
        || (if r.w - w < r.h - h then (w2 <= r.w && h + h2 <= r.h) || (w + w2 <= r.w && h2 <= h)
            else (w + w2 <= r.w && h2 <= r.h) || (w2 <= w && h + h2 <= r.h))
  {
    hide Place, FreeLeaves, WellFormed, NoneFits;
    var r := FreeLeaves(t)[i];
    var left :=
      if r.w - w < r.h - h then [Rect(r.x + w, r.y, r.w - w, h), Rect(r.x, r.y + h, r.w, r.h - h)]
      else [Rect(r.x, r.y + h, w, r.h - h), Rect(r.x + w, r.y, r.w - w, r.h)];
    PlaceCuts(t, w, h, i);
    TakesFirstFit(t, w, h);
    FailsIffNoLeafFits(Place(t, w, h).0, w2, h2);
    FitsAfterCut(FreeLeaves(t), i, left, w2, h2);
  }

  lemma FitsAfterCut(ls: seq<Rect>, i: nat, left: seq<Rect>, w: nat, h: nat)
    requires i < |ls| && |left| == 2
    ensures !NoneFits(ls[..i] + left + ls[i + 1..], w, h) <==>
            || (exists j :: 0 <= j < |ls| && j != i && Fits(ls[j], w, h))
            || Fits(left[0], w, h) || Fits(left[1], w, h)
  {
    hide Fits;
    var ls' := ls[..i] + left + ls[i + 1..];
    assert ls'[i] == left[0] && ls'[i + 1] == left[1];
    forall j | 0 <= j < |ls| && j != i ensures ls'[if j < i then j else j + 1] == ls[j] {
    }
    if j :| 0 <= j < |ls'| && Fits(ls'[j], w, h) {
      if j < i {
        assert ls'[j] == ls[j];
      } else if j > i + 1 {
        assert ls'[j] == ls[j - 1];
      }
    }
    if j :| 0 <= j < |ls| && j != i && Fits(ls[j], w, h) {
      assert Fits(ls'[if j < i then j else j + 1], w, h);
    }
  }

  /** The cut wastes no square: one that fits into what is left of a leaf, beside
      the reservation or below it, still finds a place. */
  lemma SquareStillFits(r: Rect, w: nat, h: nat, side: nat)
    requires Fits(r, w, h)
    ensures Place(Place(Free(r), w, h).0, side, side).1.Some? <==>
            (w + side <= r.w && side <= r.h) || (side <= r.w && h + side <= r.h)
  {
    var t := Free(r);
    assert FreeLeaves(t) == [r] && FirstFit(FreeLeaves(t), w, h, 0);
    SecondFitsIff(t, w, h, 0, side, side);
  }

  /** Two requests of 11 x 13 on an atlas of 256 x 256: the second stands below the first. */
  lemma SecondGoesBelow()
    ensures
      var (t1, p1) := Place(Free(Rect(0, 0, 256, 256)), 11, 13);
      var (t2, p2) := Place(t1, 11, 13);
      && p1.Some? && p1.value.x == 0 && p1.value.y == 0
      && p2.Some? && p2.value.x == 0 && p2.value.y == 13
  {}

  // ----- Coverage: every point of the atlas in exactly one rectangle -----

  /** How many rectangles of `rs` contain the point. */
  ghost function Cover(rs: seq<Rect>, px: int, py: int): nat {
    if rs == [] then 0
    else Cover(rs[..|rs| - 1], px, py) + if Contains(rs[|rs| - 1], px, py) then 1 else 0
  }

  ghost function TotalArea(rs: seq<Rect>): nat {
    if rs == [] then 0 else TotalArea(rs[..|rs| - 1]) + rs[|rs| - 1].w * rs[|rs| - 1].h
  }

  lemma {:induction false} CoverConcat(a: seq<Rect>, b: seq<Rect>, px: int, py: int)
    ensures Cover(a + b, px, py) == Cover(a, px, py) + Cover(b, px, py)
    ensures TotalArea(a + b) == TotalArea(a) + TotalArea(b)
    decreases |b|
  {
    if b == [] {
      assert a + b == a;
    } else {
      assert (a + b)[..|a + b| - 1] == a + b[..|b| - 1];
      CoverConcat(a, b[..|b| - 1], px, py);
    }
  }

  lemma CoverSplice(rs: seq<Rect>, i: nat, px: int, py: int)
    requires i < |rs|
    ensures Cover(rs, px, py) ==
            Cover(rs[..i], px, py) + (if Contains(rs[i], px, py) then 1 else 0) + Cover(rs[i + 1..], px, py)
    ensures TotalArea(rs) == TotalArea(rs[..i]) + rs[i].w * rs[i].h + TotalArea(rs[i + 1..])
  {
    assert rs == rs[..i + 1] + rs[i + 1..];
    CoverConcat(rs[..i + 1], rs[i + 1..], px, py);
    assert rs[..i + 1][..i] == rs[..i];
  }

  /** A leaf is the disjoint union of the reservation and the two pieces. */
  lemma PiecesTile(r: Rect, w: nat, h: nat, px: int, py: int)
    requires Fits(r, w, h)
    ensures
      var (l1, l2) := Pieces(r, w, h);
      && (if Contains(r, px, py) then 1 else 0) ==
         (if Contains(Rect(r.x, r.y, w, h), px, py) then 1 else 0)
         + (if Contains(l1, px, py) then 1 else 0)
         + (if Contains(l2, px, py) then 1 else 0)
      && r.w * r.h == w * h + l1.w * l1.h + l2.w * l2.h
  {
    var dx, dy := r.w - w, r.h - h;
    assert r.w * r.h == (w + dx) * (h + dy) == w * h + dx * h + w * dy + dx * dy;
  }

  lemma CoverOne(r: Rect, px: int, py: int)
    ensures Cover([r], px, py) == (if Contains(r, px, py) then 1 else 0) && TotalArea([r]) == r.w * r.h
  {
    assert [r][..0] == [];
  }

  /** Reserving in leaf `i` moves its pixels from the leaves to the reservations. */
  lemma PiecesCover(ls: seq<Rect>, i: nat, w: nat, h: nat, reserved: seq<Rect>, px: int, py: int)
    requires i < |ls| && Fits(ls[i], w, h)
    ensures
      var (l1, l2) := Pieces(ls[i], w, h);
      var got, ls' := Rect(ls[i].x, ls[i].y, w, h), ls[..i] + [l1, l2] + ls[i + 1..];
      && Cover(reserved + [got], px, py) + Cover(ls', px, py) == Cover(reserved, px, py) + Cover(ls, px, py)
      && TotalArea(reserved + [got]) + TotalArea(ls') == TotalArea(reserved) + TotalArea(ls)
  {
    hide Cover, TotalArea, Contains, Pieces;
    var (l1, l2) := Pieces(ls[i], w, h);
    var got := Rect(ls[i].x, ls[i].y, w, h);
    CoverSplice(ls, i, px, py);
    CoverConcat(reserved, [got], px, py);
    CoverOne(got, px, py);
    CoverConcat(ls[..i] + [l1, l2], ls[i + 1..], px, py);
    CoverConcat(ls[..i], [l1, l2], px, py);
    assert [l1, l2] == [l1] + [l2];
    CoverConcat([l1], [l2], px, py);
    CoverOne(l1, px, py);
    CoverOne(l2, px, py);
    PiecesTile(ls[i], w, h, px, py);
  }

  ghost predicate Tiles(bounds: Rect, reserved: seq<Rect>, leaves: seq<Rect>) {
    && TotalArea(reserved) + TotalArea(leaves) == bounds.w * bounds.h
    && forall px, py ::
         Cover(reserved, px, py) + Cover(leaves, px, py) == if Contains(bounds, px, py) then 1 else 0
  }

  /** One placement keeps the tiling, with the new reservation added. */
  lemma PlaceKeepsTiling(t: Tree, reserved: seq<Rect>, w: nat, h: nat)
    requires WellFormed(t) && Tiles(t.r, reserved, FreeLeaves(t))
    requires Place(t, w, h).1.Some?
    ensures
      var (t', p) := Place(t, w, h);
      Tiles(t.r, reserved + [Rect(p.value.x, p.value.y, w, h)], FreeLeaves(t'))
  {
    hide Place, FreeLeaves, Cover, TotalArea;
    var (t', p) := Place(t, w, h);
    var got := Rect(p.value.x, p.value.y, w, h);
    TakesFirstFit(t, w, h);
    var i := Chosen(t, w, h);
    forall px, py
      ensures Cover(reserved + [got], px, py) + Cover(FreeLeaves(t'), px, py) ==
              Cover(reserved, px, py) + Cover(FreeLeaves(t), px, py)
      ensures TotalArea(reserved + [got]) + TotalArea(FreeLeaves(t')) == TotalArea(reserved) + TotalArea(FreeLeaves(t))
    {
      PiecesCover(FreeLeaves(t), i, w, h, reserved, px, py);
    }
  }

  // ----- Runs -----

  /** A run of placement requests on a tree: the final tree and the rectangles reserved, in order. */
  function Run(t: Tree, requests: seq<(nat, nat)>): (Tree, seq<Rect>) {
    if requests == [] then (t, [])
    else
      var (t0, reserved) := Run(t, requests[..|requests| - 1]);
      var (w, h) := requests[|requests| - 1];
      match Place(t0, w, h)
      case (t1, None) => (t1, reserved)
      case (t1, Some(r)) => (t1, reserved + [Rect(r.x, r.y, w, h)])
  }

  /** After any run on a fresh atlas, the reservations and the free leaves tile
      it exactly: every pixel in one of them, and the areas add up. */
  lemma {:induction false} RunTiles(width: nat, height: nat, requests: seq<(nat, nat)>)
    ensures
      var (t, reserved) := Run(Free(Rect(0, 0, width, height)), requests);
      && WellFormed(t) && t.r == Rect(0, 0, width, height)
      && Tiles(Rect(0, 0, width, height), reserved, FreeLeaves(t))
  {
    var blank := Free(Rect(0, 0, width, height));
    if requests == [] {
      assert FreeLeaves(blank)[..0] == [];
    } else {
      var before := requests[..|requests| - 1];
      var (w, h) := requests[|requests| - 1];
      RunTiles(width, height, before);
      var (t0, reserved) := Run(blank, before);
      FailsIffNoLeafFits(t0, w, h);
      if Place(t0, w, h).1.Some? {
        TakesFirstFit(t0, w, h);
        PlaceKeepsTiling(t0, reserved, w, h);
      }
    }
  }

  lemma {:induction false} CoverAtLeast(rs: seq<Rect>, i: nat, px: int, py: int)
    requires i < |rs| && Contains(rs[i], px, py)
    ensures Cover(rs, px, py) >= 1
  {
    CoverSplice(rs, i, px, py);
  }

  /** What tiling means for two different rectangles: they share no pixel, and
      none sticks out of the atlas. */
  lemma TilingIsDisjoint(bounds: Rect, reserved: seq<Rect>, leaves: seq<Rect>, i: nat, j: nat, px: int, py: int)
    requires Tiles(bounds, reserved, leaves)
    requires i < |reserved| && Contains(reserved[i], px, py)
    ensures Contains(bounds, px, py)
    ensures j < |reserved| && j != i ==> !Contains(reserved[j], px, py)
    ensures j < |leaves| ==> !Contains(leaves[j], px, py)
  {
    CoverAtLeast(reserved, i, px, py);
    if j < |leaves| && Contains(leaves[j], px, py) {
      CoverAtLeast(leaves, j, px, py);
    }
    if j < |reserved| && j != i && Contains(reserved[j], px, py) {
      var lo, hi := if i < j then i else j, if i < j then j else i;
      CoverSplice(reserved, hi, px, py);
      CoverAtLeast(reserved[..hi], lo, px, py);
    }
  }
}
