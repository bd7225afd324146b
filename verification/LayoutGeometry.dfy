// Where cells lie: layout_fix_offsets, and the theorem that a fixed layout
// tiles its rectangle with panes and separators.
module LayoutGeometry {
  import opened Sums
  import opened LayoutTree

  function Off(t: Tree, ty: Axis): int {
    if ty == LeftRight then t.xoff else t.yoff
  }

  // Where child i starts along its container's axis, from the container's edge.
  function Start(ks: seq<Tree>, ty: Axis, i: nat): int
    requires i <= |ks|
  {
    Sum(Sizes(ks, ty)[..i]) + i
  }

  lemma StartNext(ks: seq<Tree>, ty: Axis, i: nat)
    requires i < |ks|
    ensures Start(ks, ty, i + 1) == Start(ks, ty, i) + Size(ks[i], ty) + 1
  {
    assert Sizes(ks, ty)[..i + 1][..i] == Sizes(ks, ty)[..i];
  }

  lemma StartEnd(ks: seq<Tree>, ty: Axis)
    ensures Start(ks, ty, |ks|) == Sum(Sizes(ks, ty)) + |ks|
  {
    assert Sizes(ks, ty)[..|ks|] == Sizes(ks, ty);
  }

  function KidX(t: Tree, i: nat, x: int): int
    requires i < |t.kids|
  {
    if t.kind == LeftRight then x + Start(t.kids, LeftRight, i) else x
  }

  function KidY(t: Tree, i: nat, y: int): int
    requires i < |t.kids|
  {
    if t.kind == LeftRight then y else y + Start(t.kids, TopBottom, i)
  }

  // The tree with its top-left corner at (x, y) and every cell below moved to
  // where the sizes put it.
  function Fix(t: Tree, x: int, y: int): Tree
    decreases t
  {
    t.(xoff := x, yoff := y,
       kids := seq(|t.kids|, i requires 0 <= i < |t.kids| => Fix(t.kids[i], KidX(t, i, x), KidY(t, i, y))))
  }

  // layout_fix_offsets
  function FixOffsets(t: Tree): Tree {
    Fix(t, t.xoff, t.yoff)
  }

  ghost predicate Placed(t: Tree)
    decreases t
  {
    forall i :: 0 <= i < |t.kids| ==>
      && t.kids[i].xoff == KidX(t, i, t.xoff) && t.kids[i].yoff == KidY(t, i, t.yoff)
      && Placed(t.kids[i])
  }

  // The first child is at its container's corner, and each other one is next to
  // the one before, past a separator.
  lemma PlacedNext(t: Tree, i: nat)
    requires Placed(t) && t.kind != WindowPane && i < |t.kids|
    ensures Off(t.kids[i], Other(t.kind)) == Off(t, Other(t.kind))
    ensures Off(t.kids[i], t.kind) ==
            if i == 0 then Off(t, t.kind) else Off(t.kids[i - 1], t.kind) + Size(t.kids[i - 1], t.kind) + 1
  {
    if i > 0 {
      StartNext(t.kids, t.kind, i - 1);
    } else {
      assert Sizes(t.kids, t.kind)[..0] == [];
    }
  }

  // u is t up to offsets.
  ghost predicate Displaced(t: Tree, u: Tree)
    decreases t
  {
    && u.kind == t.kind && u.sx == t.sx && u.sy == t.sy && u.pane == t.pane
    && |u.kids| == |t.kids|
    && forall i :: 0 <= i < |t.kids| ==> Displaced(t.kids[i], u.kids[i])
  }

  lemma {:induction false} FixPlaces(t: Tree, x: int, y: int)
    ensures Placed(Fix(t, x, y)) && Displaced(t, Fix(t, x, y))
    decreases t
  {
    var u := Fix(t, x, y);
    forall i | 0 <= i < |t.kids|
      ensures Placed(u.kids[i]) && Displaced(t.kids[i], u.kids[i])
    {
      FixPlaces(t.kids[i], KidX(t, i, x), KidY(t, i, y));
    }
    forall ty: Axis ensures Sizes(u.kids, ty) == Sizes(t.kids, ty) {
    }
  }

  lemma {:induction false} PlacedIsFixed(t: Tree)
    requires Placed(t)
    ensures FixOffsets(t) == t
    decreases t
  {
    forall i | 0 <= i < |t.kids| ensures FixOffsets(t).kids[i] == t.kids[i] {
      PlacedIsFixed(t.kids[i]);
    }
    assert FixOffsets(t).kids == t.kids;
  }

  // Two placed trees that agree up to offsets and start at the same corner are
  // the same: offsets carry no information of their own.
  lemma {:induction false} PlacementUnique(t: Tree, u: Tree)
    requires Placed(t) && Placed(u) && Displaced(t, u) && u.xoff == t.xoff && u.yoff == t.yoff
    ensures u == t
    decreases t
  {
    forall ty: Axis ensures Sizes(u.kids, ty) == Sizes(t.kids, ty) {
    }
    forall i | 0 <= i < |t.kids| ensures u.kids[i] == t.kids[i] {
      PlacementUnique(t.kids[i], u.kids[i]);
    }
    assert u.kids == t.kids;
  }

  lemma {:induction false} DisplacedShaped(t: Tree, u: Tree)
    requires Shaped(t) && Displaced(t, u)
    ensures Shaped(u)
    decreases t
  {
    forall i | 0 <= i < |t.kids| ensures Shaped(u.kids[i]) {
      DisplacedShaped(t.kids[i], u.kids[i]);
    }
  }

  lemma {:induction false} DisplacedWellFormed(t: Tree, u: Tree)
    requires WellFormed(t) && Displaced(t, u)
    ensures WellFormed(u)
    decreases t
  {
    forall i | 0 <= i < |t.kids| ensures WellFormed(u.kids[i]) {
      DisplacedWellFormed(t.kids[i], u.kids[i]);
    }
    if t.kind != WindowPane {
      assert Sizes(u.kids, t.kind) == Sizes(t.kids, t.kind);
      assert Fills(t);
      assert Fills(u);
    }
  }

  lemma {:induction false} DisplacedCheck(t: Tree, u: Tree, ty: Axis)
    requires Displaced(t, u)
    ensures Check(u, ty) == Check(t, ty)
    decreases t
  {
    forall i | 0 <= i < |t.kids| ensures Check(u.kids[i], ty) == Check(t.kids[i], ty) {
      DisplacedCheck(t.kids[i], u.kids[i], ty);
    }
    assert Checks(u.kids, ty) == Checks(t.kids, ty);
  }

  // ------------------------------------------------------------------
  // Tiling

  datatype Rect = Rect(x: int, y: int, w: int, h: int) {
    predicate Holds(px: int, py: int) {
      x <= px < x + w && y <= py < y + h
    }
  }

  function Cell(t: Tree): Rect {
    Rect(t.xoff, t.yoff, t.sx, t.sy)
  }

  // The line of separators drawn after child i.
  function Separator(t: Tree, i: nat): Rect
    requires i < |t.kids|
  {
    var k := t.kids[i];
    if t.kind == LeftRight then Rect(k.xoff + k.sx, t.yoff, 1, t.sy)
    else Rect(t.xoff, k.yoff + k.sy, t.sx, 1)
  }

  // Every pane's rectangle and every separator, in the order they are met.
  function Regions(t: Tree): seq<Rect>
    decreases t, 1, 0
  {
    if t.kind == WindowPane then [Cell(t)] else KidRegions(t, |t.kids|)
  }

  function KidRegions(t: Tree, m: nat): seq<Rect>
    requires m <= |t.kids|
    decreases t, 0, m
  {
    if m == 0 then []
    else
      KidRegions(t, m - 1) + Regions(t.kids[m - 1])
      + (if m < |t.kids| then [Separator(t, m - 1)] else [])
  }

  function CountAt(rs: seq<Rect>, x: int, y: int): nat {
    if rs == [] then 0
    else CountAt(rs[..|rs| - 1], x, y) + if rs[|rs| - 1].Holds(x, y) then 1 else 0
  }

  lemma {:induction false} CountAppend(a: seq<Rect>, b: seq<Rect>, x: int, y: int)
    ensures CountAt(a + b, x, y) == CountAt(a, x, y) + CountAt(b, x, y)
  {
    if b == [] {
      assert a + b == a;
    } else {
      assert (a + b)[..|a + b| - 1] == a + b[..|b| - 1];
      CountAppend(a, b[..|b| - 1], x, y);
    }
  }

  lemma CountOne(r: Rect, x: int, y: int)
    ensures CountAt([r], x, y) == if r.Holds(x, y) then 1 else 0
  {
    assert [r][..0] == [];
  }

  // The part of a container's rectangle before position `end` along its axis.
  function Before(t: Tree, end: int): Rect {
    if t.kind == LeftRight then Rect(t.xoff, t.yoff, end, t.sy) else Rect(t.xoff, t.yoff, t.sx, end)
  }

  // A layout tiles its rectangle: each point inside is in exactly one pane or
  // on exactly one separator, and nothing lies outside.
  lemma {:induction false} Tiles(t: Tree, x: int, y: int)
    requires WellFormed(t) && Placed(t)
    ensures CountAt(Regions(t), x, y) == if Cell(t).Holds(x, y) then 1 else 0
    decreases t, 1, 0
  {
    if t.kind == WindowPane {
      CountOne(Cell(t), x, y);
    } else {
      KidsTile(t, |t.kids|, x, y);
      StartEnd(t.kids, t.kind);
      assert Before(t, Size(t, t.kind)) == Cell(t);
    }
  }

  lemma {:induction false} KidsTile(t: Tree, m: nat, x: int, y: int)
    requires WellFormed(t) && Placed(t) && t.kind != WindowPane && m <= |t.kids|
    ensures CountAt(KidRegions(t, m), x, y) == if Before(t, Reach(t, m)).Holds(x, y) then 1 else 0
    decreases t, 0, m
  {
    hide Rect.Holds, Reach, Before, Separator, WellFormed, Placed;
    if m == 0 {
      NothingReached(t, x, y);
    } else {
      var i := m - 1;
      var k := t.kids[i];
      KidSound(t, i);
      var sep := if m < |t.kids| then [Separator(t, i)] else [];
      KidsTile(t, i, x, y);
      Tiles(k, x, y);
      CountAppend(KidRegions(t, i), Regions(k), x, y);
      CountAppend(KidRegions(t, i) + Regions(k), sep, x, y);
      if m < |t.kids| {
        CountOne(Separator(t, i), x, y);
      }
      KidJoins(t, i, x, y);
    }
  }

  // How far the first m children, and the separators after them, reach.
  function Reach(t: Tree, m: nat): int
    requires m <= |t.kids| && t.kind != WindowPane
  {
    Start(t.kids, t.kind, m) - if m == |t.kids| then 1 else 0
  }

  lemma NothingReached(t: Tree, x: int, y: int)
    requires WellFormed(t) && t.kind != WindowPane
    ensures !Before(t, Reach(t, 0)).Holds(x, y)
  {
  }

  lemma KidSound(t: Tree, i: nat)
    requires WellFormed(t) && Placed(t) && i < |t.kids|
    ensures WellFormed(t.kids[i]) && Placed(t.kids[i])
  {
  }

  // Child i, and the separator after it if there is one, take up exactly what
  // lies between the reach of the children before it and its own.
  lemma KidJoins(t: Tree, i: nat, x: int, y: int)
    requires WellFormed(t) && Placed(t) && t.kind != WindowPane && i < |t.kids|
    ensures var before, cell, after := Before(t, Reach(t, i)), Cell(t.kids[i]), Before(t, Reach(t, i + 1));
            && !(before.Holds(x, y) && cell.Holds(x, y))
            && if i + 1 < |t.kids| then
                 && !(Separator(t, i).Holds(x, y) && (before.Holds(x, y) || cell.Holds(x, y)))
                 && (after.Holds(x, y) <==>
                     before.Holds(x, y) || cell.Holds(x, y) || Separator(t, i).Holds(x, y))
               else after.Holds(x, y) <==> before.Holds(x, y) || cell.Holds(x, y)
  {
    StartNext(t.kids, t.kind, i);
    StartPositive(t.kids, t.kind, i);
    assert Fills(t);
    assert WellFormed(t.kids[i]);
  }

  lemma {:induction false} StartPositive(ks: seq<Tree>, ty: Axis, i: nat)
    requires i <= |ks| && AllWellFormed(ks)
    ensures Start(ks, ty, i) >= 0
  {
    SumBounds(Sizes(ks, ty)[..i]);
  }
}
