// A window's layout: the operations of LayoutOps and LayoutResize carried out
// in place on its cells.
module LayoutWindow {
  import opened Common
  import opened Sums
  import opened LayoutTree
  import opened LayoutGeometry
  import opened LayoutOps
  import opened LayoutResize
  import opened LayoutCell
  import opened LayoutShape

  // ------------------------------------------------------------------
  // Each operation rewrites the tree at one place

  lemma {:induction false} SplitBesideLocal(t: Tree, q: Path, i: nat, ty: Axis, hint: int)
    requires PaneAt(t, q + [i]) && ValidPath(t, q) && At(t, q).kind == ty
    ensures PaneAt(At(t, q), [i])
    ensures Split(t, q + [i], ty, hint) == PutTree(t, q, Split(At(t, q), [i], ty, hint))
    ensures SplitPath(t, q + [i], ty) == q + [i + 1]
    decreases |q|
  {
    if q == [] {
      assert q + [i] == [i];
    } else {
      assert (q + [i])[1..] == q[1..] + [i];
      SplitBesideLocal(t.kids[q[0]], q[1..], i, ty, hint);
    }
  }

  lemma {:induction false} SplitInsideLocal(t: Tree, q: Path, i: nat, ty: Axis, hint: int)
    requires PaneAt(t, q + [i]) && ValidPath(t, q) && At(t, q).kind != ty
    ensures PaneAt(At(t, q + [i]), [])
    ensures Split(t, q + [i], ty, hint) == PutTree(t, q + [i], Split(At(t, q + [i]), [], ty, hint))
    ensures SplitPath(t, q + [i], ty) == q + [i] + [1]
    decreases |q|
  {
    if q == [] {
      assert q + [i] == [i] && [i][1..] == [];
    } else {
      assert (q + [i])[1..] == q[1..] + [i];
      SplitInsideLocal(t.kids[q[0]], q[1..], i, ty, hint);
    }
  }

  lemma {:induction false} DestroyLocal(t: Tree, q: Path, i: nat)
    requires WellFormed(t) && ValidPath(t, q + [i])
    ensures ValidPath(t, q) && WellFormed(At(t, q)) && ValidPath(At(t, q), [i])
    ensures Destroy(t, q + [i]) == PutTree(t, q, Destroy(At(t, q), [i]))
    decreases |q|
  {
    if q == [] {
      assert q + [i] == [i];
    } else {
      assert (q + [i])[1..] == q[1..] + [i];
      DestroyLocal(t.kids[q[0]], q[1..], i);
    }
  }

  // No container between depth d and the pane runs along ty.
  ghost predicate NoneBelow(t: Tree, p: Path, ty: Axis, d: nat)
    requires ValidPath(t, p) && d <= |p|
  {
    !HasBorder(AtPrefix(t, p, d), p[d..], ty)
  }

  lemma NoneBelowUp(t: Tree, p: Path, ty: Axis, d: nat)
    requires ValidPath(t, p) && 0 < d <= |p| && NoneBelow(t, p, ty, d) && AtPrefix(t, p, d - 1).kind != ty
    ensures NoneBelow(t, p, ty, d - 1)
  {
    PrefixStep(t, p, d - 1);
    assert p[d - 1..][1..] == p[d..];
  }

  lemma {:induction false} ResizeLocal(t: Tree, p: Path, ty: Axis, change: int, d: nat)
    requires WellFormed(t) && ValidPath(t, p) && d < |p|
    requires NoneBelow(t, p, ty, d + 1) && AtPrefix(t, p, d).kind == ty
    ensures var c := AtPrefix(t, p, d);
            && HasBorder(t, p, ty) && WellFormed(c) && p[d] < |c.kids| && |c.kids| >= 2 && AllWellFormed(c.kids)
            && ResizeAt(t, p, ty, change)
               == PutTree(t, p[..d], c.(kids := MoveBorder(c.kids, ty, p[d], change)))
    decreases |p|
  {
    PrefixStep(t, p, d);
    if d == 0 {
      assert AtPrefix(t, p, 1) == AtPrefix(t.kids[p[0]], p[1..], 0);
      assert p[1..][0..] == p[1..];
    } else {
      assert p[..d][0] == p[0] && p[..d][1..] == p[1..][..d - 1];
      assert p[1..][d..] == p[d + 1..];
      ResizeLocal(t.kids[p[0]], p[1..], ty, change, d - 1);
    }
  }

  // ------------------------------------------------------------------

  method IndexOf(cells: seq<LayoutCell>, c: LayoutCell) returns (i: nat)
    requires c in cells
    ensures i < |cells| && cells[i] == c
  {
    i := 0;
    while cells[i] != c
      invariant i < |cells| && c in cells[i..]
      decreases |cells| - i
    {
      i := i + 1;
    }
  }

  lemma CellsDistinct(s: Shape, i: nat, j: nat)
    requires Linked(s) && Disjoint(s) && i < |s.kids| && j < |s.kids| && i != j
    ensures s.cell.cells[i] != s.cell.cells[j]
  {
    KidsApart(s, i, j);
    assert s.kids[i].cell in Footprint(s.kids[i]) && s.kids[j].cell in Footprint(s.kids[j]);
  }

  // A pane's cell has no children.
  lemma PaneIsLast(s: Shape, i: nat)
    requires Linked(s) && Disjoint(s) && i < |s.kids| && WellFormed(TreeOf(s)) && s.kids[i].cell.kind == WindowPane
    ensures s.kids[i].kids == [] && s.kids[i].cell.cells == [] && TreeOf(s.kids[i]).kids == []
    ensures |s.cell.cells| == |s.kids| && s.cell.cells[i] == s.kids[i].cell && s.kids[i].cell.parent == s.cell
    ensures s.kids[i].cell in Footprint(s) && s.kids[i].cell != s.cell && TreeOf(s).kids[i] == TreeOf(s.kids[i])
  {
    KidOf(s, i);
    DisjointKid(s, i);
    assert WellFormed(TreeOf(s).kids[i]);
  }

  lemma {:induction false} WellFormedAt(t: Tree, p: Path)
    requires WellFormed(t) && ValidPath(t, p)
    ensures WellFormed(At(t, p))
    decreases |p|
  {
    if p != [] {
      WellFormedAt(t.kids[p[0]], p[1..]);
    }
  }

  lemma HalfFields(c: Tree, ty: Axis, hint: int)
    ensures OldCell(c, ty, hint).kind == c.kind && OldCell(c, ty, hint).pane == c.pane
    ensures OldCell(c, ty, hint).kids == c.kids
    ensures NewCell(c, ty, hint).kind == WindowPane && NewCell(c, ty, hint).pane == None
    ensures NewCell(c, ty, hint).kids == []
  {
  }

  lemma {:induction false} PutShapeAt(s: Shape, q: Path, u: Shape, r: Path)
    requires ValidShapePath(s, q) && ValidShapePath(u, r)
    ensures ValidShapePath(PutShape(s, q, u), q + r) && ShapeAt(PutShape(s, q, u), q + r) == ShapeAt(u, r)
    decreases |q|
  {
    if q == [] {
      assert q + r == r;
    } else {
      assert (q + r)[1..] == q[1..] + r;
      PutShapeAt(s.kids[q[0]], q[1..], u, r);
    }
  }

  // What a window's layout always satisfies.
  ghost predicate Sound(t: Tree) {
    WellFormed(t) && Placed(t) && t.xoff == 0 && t.yoff == 0 && t.sx <= INT_MAX && t.sy <= INT_MAX
  }

  lemma SoundParts(t: Tree)
    requires Sound(t)
    ensures WellFormed(t) && Placed(t) && t.xoff == 0 && t.yoff == 0 && t.sx <= INT_MAX && t.sy <= INT_MAX
  {
  }

  lemma SplitKeepsSound(t: Tree, p: Path, ty: Axis, hint: int)
    requires Sound(t) && PaneAt(t, p) && RoomToSplit(t, p, ty)
    ensures Sound(Split(t, p, ty, hint))
  {
    hide WellFormed, Placed;
    SplitSound(t, p, ty, hint);
    ReplacesSize(t, Split(t, p, ty, hint));
  }

  lemma PairShape(c: LayoutCell, a: Shape, d: LayoutCell)
    requires a.kids == [] && a.cell.cells == [] && d.cells == [] && c.cells == [a.cell, d]
    requires c != a.cell && c != d && a.cell != d && a.cell.parent == c && d.parent == c
    ensures var u := Shape(c, [a, Shape(d, [])]);
            Linked(u) && Disjoint(u) && Footprint(u) == {c, a.cell, d}
  {
    var u := Shape(c, [a, Shape(d, [])]);
    assert u.kids[0] == a && u.kids[1] == Shape(d, []);
    assert Footprint(a) == {a.cell} && Footprint(Shape(d, [])) == {d};
  }

  // The container above the cell at q + [i], with what is known of it.
  lemma PlaceOf(s: Shape, q: Path, i: nat) returns (sub: Shape)
    requires Linked(s) && Disjoint(s) && Sound(TreeOf(s)) && ValidShapePath(s, q + [i])
    ensures ValidShapePath(s, q) && sub == ShapeAt(s, q) && i < |sub.kids|
    ensures sub.kids[i] == ShapeAt(s, q + [i]) && ShapeAt(s, q + [i]).cell.parent == sub.cell
    ensures Linked(sub) && Disjoint(sub) && Footprint(sub) <= Footprint(s)
    ensures sub.cell in Footprint(sub) && sub.kids[i].cell in Footprint(sub)
    ensures ValidPath(TreeOf(s), q) && At(TreeOf(s), q) == TreeOf(sub) && WellFormed(TreeOf(sub))
    ensures ValidPath(TreeOf(s), q + [i]) && At(TreeOf(s), q + [i]) == TreeOf(sub.kids[i])
  {
    hide Footprint, Disjoint, Linked, WellFormed;
    ExtendPath(s, q, i);
    HolderIsParent(s, q + [i]);
    TreeAtShape(s, q + [i]);
    TreeAtShape(s, q);
    WellFormedAt(TreeOf(s), q);
    sub := ShapeAt(s, q);
    DisjointKid(sub, i);
    assert sub.cell in Footprint(sub) && sub.kids[i].cell in Footprint(sub.kids[i]);
  }

  // The cell at p with what is known of it and of the cell that holds it.
  lemma PaneShape(s: Shape, p: Path) returns (c: Shape)
    requires Linked(s) && Disjoint(s) && Sound(TreeOf(s)) && ValidShapePath(s, p)
    requires ShapeAt(s, p).cell.kind == WindowPane
    ensures c == ShapeAt(s, p) && Linked(c) && Disjoint(c) && c.kids == [] && Footprint(c) == {c.cell}
    ensures ValidPath(TreeOf(s), p) && At(TreeOf(s), p) == TreeOf(c) && c.cell in Footprint(s)
    ensures TreeOf(c).sx == c.cell.sx && TreeOf(c).sy == c.cell.sy
    ensures p == [] ==> c == s
    ensures p != [] ==> HeldAt(s, p)
  {
    hide Linked, Disjoint, WellFormed;
    c := ShapeAt(s, p);
    TreeAtShape(s, p);
    WellFormedAt(TreeOf(s), p);
    assert c.cell in Footprint(c);
    if p != [] {
      HeldAtPath(s, p);
    }
  }

  // The holder of the cell at p is its parent, and holds it only there.
  ghost predicate HeldAt(s: Shape, p: Path)
    requires ValidShapePath(s, p) && p != []
    reads Footprint(s), HolderOf(s, p), ShapeAt(s, p).cell
  {
    var h, i, c := HolderOf(s, p), p[|p| - 1], ShapeAt(s, p).cell;
    && c.parent == h && h in Footprint(s) && h != c && h !in Footprint(ShapeAt(s, p))
    && i < |h.cells| && h.cells[i] == c
    && forall k :: 0 <= k < |h.cells| && k != i ==> h.cells[k] != c
  }

  lemma HeldAtPath(s: Shape, p: Path)
    requires Linked(s) && Disjoint(s) && ValidShapePath(s, p) && p != []
    ensures HeldAt(s, p)
  {
    hide Footprint, Linked, Disjoint;
    var q, i := p[..|p| - 1], p[|p| - 1];
    assert p == q + [i];
    ExtendPath(s, q, i);
    HolderIsParent(s, p);
    HolderWithin(s, p);
    TreeAtShape(s, q);
    var sub := ShapeAt(s, q);
    DisjointKid(sub, i);
    KidOf(sub, i);
    assert sub.kids[i].cell in Footprint(sub.kids[i]);
    forall k | 0 <= k < |sub.cell.cells| && k != i ensures sub.cell.cells[k] != sub.kids[i].cell {
      CellsDistinct(sub, k, i);
    }
  }

  lemma SplitIsInside(s: Shape, p: Path, ty: Axis, hint: int)
    requires Linked(s) && ValidShapePath(s, p) && ShapeAt(s, p).cell.kind == WindowPane
    requires PaneAt(TreeOf(s), p)
    requires ShapeAt(s, p).cell.parent == null || ShapeAt(s, p).cell.parent.kind != ty
    requires s.cell.parent == null
    ensures Split(TreeOf(s), p, ty, hint) == PutTree(TreeOf(s), p, Split(At(TreeOf(s), p), [], ty, hint))
    ensures SplitPath(TreeOf(s), p, ty) == p + [1]
  {
    if p != [] {
      var q, i := p[..|p| - 1], p[|p| - 1];
      assert p == q + [i];
      ExtendPath(s, q, i);
      HolderIsParent(s, p);
      TreeAtShape(s, q);
      SplitInsideLocal(TreeOf(s), q, i, ty, hint);
    }
  }

  twostate lemma OnlyListChanged(s: Shape, new i: nat)
    requires i < |s.kids|
    requires forall c :: c in Footprint(s) ==> old(allocated(c)) && (c != s.cell ==> unchanged(c))
    ensures OthersKept(s, i)
  {
  }

  lemma NothingDisjoint(s: Shape)
    ensures Disjoint(Shape(s.cell, [])) && Footprint(Shape(s.cell, [])) == {s.cell}
    ensures KidsOf(Shape(s.cell, [])) == [] && CellsOf([]) == []
  {
  }

  // The whole of layout_destroy_cell in terms of its two steps.
  lemma DestroySteps(t: Tree, q: Path, i: nat)
    requires WellFormed(t) && ValidPath(t, q + [i]) && ValidPath(t, q)
    ensures WellFormed(At(t, q)) && i < |At(t, q).kids| && |At(t, q).kids| >= 2 && AllWellFormed(At(t, q).kids)
    ensures var c := At(t, q);
            var rs := Without(c.kids, c.kind, i);
            |rs| == |c.kids| - 1 &&
            DestroyRoot(t, q + [i]) ==
              if |rs| > 1 then PutTree(t, q, c.(kids := rs))
              else if q == [] then rs[0].(xoff := 0, yoff := 0)
              else PutTree(t, q, rs[0])
  {
    hide WellFormed, Without;
    DestroyLocal(t, q, i);
    KidsWellFormed(At(t, q));
    WithoutSound(At(t, q), i);
  }

  lemma {:induction false} PutPut(t: Tree, q: Path, u: Tree, v: Tree)
    requires ValidPath(t, q)
    ensures ValidPath(PutTree(t, q, u), q) && At(PutTree(t, q, u), q) == u
    ensures PutTree(PutTree(t, q, u), q, v) == PutTree(t, q, v)
    decreases |q|
  {
    if q != [] {
      PutPut(t.kids[q[0]], q[1..], u, v);
    }
  }

  // In the holder of the container at q, its one child has taken its place.
  twostate lemma HoistedOutside(s: Shape, new q: Path, new to: LayoutCell)
    requires ValidShapePath(s, q) && q != [] && old(HeldAt(s, q))
    requires forall c :: c in Footprint(s) && c !in Footprint(ShapeAt(s, q)) ==>
               old(allocated(c)) && (c != HolderOf(s, q) ==> unchanged(c))
    requires OnlyRelinked(HolderOf(s, q))
    requires HolderOf(s, q).cells == old(HolderOf(s, q).cells)[q[|q| - 1] := to]
    ensures OutsideKept(s, q, to)
  {
  }

  lemma DestroyRootSound(t: Tree, p: Path)
    requires Sound(t) && PaneAt(t, p) && p != []
    ensures WellFormed(t) && WellFormed(DestroyRoot(t, p)) && Sound(Close(t, p))
  {
    hide WellFormed, Placed, Destroy;
    var u := Destroy(t, p);
    DestroySound(t, p);
    CloseSound(t, p);
    if u.xoff != 0 || u.yoff != 0 {
      MovedWellFormed(u, 0, 0);
    }
    DestroyRootCases(t, p);
  }

  lemma DestroyRootCases(t: Tree, p: Path)
    requires WellFormed(t) && ValidPath(t, p) && p != []
    ensures var u := Destroy(t, p); DestroyRoot(t, p) == u || DestroyRoot(t, p) == u.(xoff := 0, yoff := 0)
  {
  }

  function Assign(t: Tree, p: Path, pane: nat): Tree
    requires PaneAt(t, p)
  {
    PutTree(t, p, At(t, p).(pane := Some(pane)))
  }

  lemma {:induction false} PutSame(s: Shape, p: Path)
    requires ValidShapePath(s, p)
    ensures PutShape(s, p, ShapeAt(s, p)) == s
    decreases |p|
  {
    if p != [] {
      PutSame(s.kids[p[0]], p[1..]);
    }
  }

  lemma {:induction false} AssignKeeps(t: Tree, p: Path, pane: nat)
    requires WellFormed(t) && PaneAt(t, p)
    ensures Replaces(t, Assign(t, p, pane)) && SameCorner(t, Assign(t, p, pane))
    ensures Placed(t) ==> Placed(Assign(t, p, pane))
    decreases |p|
  {
    hide WellFormed, Placed, Replaces;
    if p == [] {
      AssignOne(t, pane);
    } else {
      var i := p[0];
      KidsWellFormed(t);
      AssignKeeps(t.kids[i], p[1..], pane);
      var k := Assign(t.kids[i], p[1..], pane);
      ReplaceKid(t, i, k);
      ReplacesSize(t.kids[i], k);
      if Placed(t) {
        KidSound(t, i);
        ReplaceKidPlaced(t, i, k);
      }
    }
  }

  lemma AssignOne(t: Tree, pane: nat)
    requires WellFormed(t) && t.kind == WindowPane
    ensures Replaces(t, t.(pane := Some(pane))) && Placed(t.(pane := Some(pane)))
  {
  }

  lemma AssignSound(t: Tree, p: Path, pane: nat)
    requires Sound(t) && PaneAt(t, p)
    ensures Sound(Assign(t, p, pane))
  {
    hide WellFormed, Placed;
    AssignKeeps(t, p, pane);
    ReplacesSize(t, Assign(t, p, pane));
  }

  // The sizes after a window resize still fit an int. They do whenever the
  // layout fitted the window.
  ghost predicate FitsInt(t: Tree, sx: int, sy: int, newsx: int, newsy: int) {
    t.sx + Following(t, LeftRight, sx, newsx) <= INT_MAX && t.sy + Following(t, TopBottom, sy, newsy) <= INT_MAX
  }

  lemma FittingFitsInt(t: Tree, sx: int, sy: int, newsx: int, newsy: int)
    requires Sound(t) && Fits(t, LeftRight, sx) && Fits(t, TopBottom, sy) && newsx <= INT_MAX && newsy <= INT_MAX
    ensures FitsInt(t, sx, sy, newsx, newsy)
  {
  }

  lemma FollowSound(t: Tree, sx: int, sy: int, newsx: int, newsy: int)
    requires Sound(t) && FitsInt(t, sx, sy, newsx, newsy)
    ensures WellFormed(t) && t.sx <= UINT_MAX && t.sy <= UINT_MAX
    ensures var a := ResizeAxis(t, LeftRight, sx, newsx);
            && WellFormed(a) && a.sy == t.sy && WellFormed(ResizeAxis(a, TopBottom, sy, newsy))
    ensures Sound(ResizeWindow(t, sx, sy, newsx, newsy))
  {
    hide WellFormed, Placed, Adjust, Check, Reshaped;
    var a := ResizeAxis(t, LeftRight, sx, newsx);
    ResizeAxisSound(t, LeftRight, sx, newsx);
    var b := ResizeAxis(a, TopBottom, sy, newsy);
    ResizeAxisSound(a, TopBottom, sy, newsy);
    SteppedFrame(t, a, LeftRight, Following(t, LeftRight, sx, newsx));
    SteppedFrame(a, b, TopBottom, Following(a, TopBottom, sy, newsy));
    assert Following(a, TopBottom, sy, newsy) == Following(t, TopBottom, sy, newsy);
    FixKeeps(b);
  }

  // One round of Pull: size is what it moved, zero when there is no donor.
  ghost predicate Pulled(ks: seq<Tree>, rs: seq<Tree>, ty: Axis, add: nat, order: seq<nat>, needed: nat, size: int)
    requires AllWellFormed(ks) && Orderly(|ks|, add, order)
  {
    var k := FirstDonor(ks, ty, order, 0);
    if k == |order| then size == 0 && rs == ks
    else size == Min(Check(ks[order[k]], ty), needed) && rs == Transfer(ks, ty, add, order[k], size)
  }

  lemma PullRound(t: Tree, rs: seq<Tree>, add: nat, order: seq<nat>, needed: nat, size: int)
    requires WellFormed(t) && t.kind != WindowPane && AllWellFormed(t.kids) && Orderly(|t.kids|, add, order)
    requires needed > 0 && Pulled(t.kids, rs, t.kind, add, order, needed, size)
    ensures |rs| == |t.kids| && WellFormed(t.(kids := rs)) && AllWellFormed(rs) && 0 <= size <= needed
    ensures Pull(t.kids, t.kind, add, order, needed) == Pull(rs, t.kind, add, order, needed - size)
    ensures size == 0 ==> Pull(rs, t.kind, add, order, needed) == rs
  {
    hide WellFormed, Check, Adjust, Sum, Kept, Transfer, Size, Replaces;
    var k := FirstDonor(t.kids, t.kind, order, 0);
    if k < |order| {
      TransferSound(t.kids, t.kind, add, order[k], size);
      KidsReplaced(t, rs);
      ReplacesSize(t, t.(kids := rs));
    }
  }

  lemma PullNothing(ks: seq<Tree>, ty: Axis, add: nat, order: seq<nat>)
    requires AllWellFormed(ks) && Orderly(|ks|, add, order)
    ensures Pull(ks, ty, add, order, 0) == ks
  {
  }

  lemma FirstDonorIs(ks: seq<Tree>, ty: Axis, order: seq<nat>, k: nat)
    requires forall k :: 0 <= k < |order| ==> order[k] < |ks|
    requires k <= |order| && forall l :: 0 <= l < k ==> Check(ks[order[l]], ty) == 0
    requires k < |order| ==> Check(ks[order[k]], ty) > 0
    ensures FirstDonor(ks, ty, order, 0) == k
  {
  }

  lemma NoneInGrowOrder(ks: seq<Tree>, ty: Axis, i: nat)
    requires i < |ks| && forall l :: 0 <= l < |ks| && l != i ==> Check(ks[l], ty) == 0
    ensures FirstDonor(ks, ty, GrowOrder(|ks|, i), 0) == |ks| - 1
  {
    FirstDonorIs(ks, ty, GrowOrder(|ks|, i), |ks| - 1);
  }

  // The search towards the tail and then towards the head finds the first
  // donor of the order.
  lemma FoundInGrowOrder(ks: seq<Tree>, ty: Axis, i: nat, j: nat)
    requires i < |ks| && j < |ks| && j != i && Check(ks[j], ty) > 0
    requires forall l :: i < l < |ks| && (j < i || l < j) ==> Check(ks[l], ty) == 0
    requires forall l :: j < l < i ==> Check(ks[l], ty) == 0
    ensures var order := GrowOrder(|ks|, i);
            var k := FirstDonor(ks, ty, order, 0);
            k < |order| && order[k] == j
  {
    var order := GrowOrder(|ks|, i);
    FirstDonorIs(ks, ty, order, if j > i then j - i - 1 else |ks| - 2 - j);
  }

  lemma NoneInShrinkOrder(ks: seq<Tree>, ty: Axis, i: nat)
    requires i < |ks| && forall l :: 0 <= l <= i ==> Check(ks[l], ty) == 0
    ensures FirstDonor(ks, ty, ShrinkOrder(i), 0) == i + 1
  {
    FirstDonorIs(ks, ty, ShrinkOrder(i), i + 1);
  }

  lemma FoundInShrinkOrder(ks: seq<Tree>, ty: Axis, i: nat, j: nat)
    requires j <= i < |ks| && Check(ks[j], ty) > 0
    requires forall l :: j < l <= i ==> Check(ks[l], ty) == 0
    ensures var order := ShrinkOrder(i);
            var k := FirstDonor(ks, ty, order, 0);
            k < |order| && order[k] == j
  {
    FirstDonorIs(ks, ty, ShrinkOrder(i), i - j);
  }

  lemma CellTree(s: Shape)
    ensures var c := s.cell; TreeOf(s) == Tree(c.kind, c.sx, c.sy, c.xoff, c.yoff, c.wp, KidsOf(s))
  {
  }

  lemma TreeKids(s: Shape)
    ensures TreeOf(s).kids == KidsOf(s) && TreeOf(s).kind == s.cell.kind
  {
  }

  lemma NoneAtPane(t: Tree, p: Path, ty: Axis)
    requires PaneAt(t, p)
    ensures NoneBelow(t, p, ty, |p|)
  {
  }

  lemma RootHasNoParent(s: Shape, q: Path)
    requires Linked(s) && s.cell.parent == null && ValidShapePath(s, q)
    ensures ShapeAt(s, q).cell.parent == null <==> q == []
  {
    if q != [] {
      HolderIsParent(s, q);
    }
  }

  // From the cell at depth d to the cell above it.
  lemma StepUp(s: Shape, p: Path, d: nat)
    requires Linked(s) && 0 < d <= |p| && ValidShapePath(s, p[..d]) && ValidPath(TreeOf(s), p)
    ensures ValidShapePath(s, p[..d - 1]) && ShapeAt(s, p[..d]).cell.parent == ShapeAt(s, p[..d - 1]).cell
    ensures AtPrefix(TreeOf(s), p, d - 1).kind == ShapeAt(s, p[..d - 1]).cell.kind
  {
    assert p[..d] == p[..d - 1] + [p[d - 1]];
    ExtendPath(s, p[..d - 1], p[d - 1]);
    HolderIsParent(s, p[..d]);
    TreeAtShape(s, p[..d - 1]);
  }

  lemma NoBorder(t: Tree, p: Path, ty: Axis)
    requires ValidPath(t, p) && NoneBelow(t, p, ty, 0)
    ensures !HasBorder(t, p, ty)
  {
    assert p[0..] == p;
  }

  lemma ShiftLocal(s: Shape, p: Path, ty: Axis, change: int, d: nat)
    requires Linked(s) && Disjoint(s) && Sound(TreeOf(s)) && ValidPath(TreeOf(s), p) && 0 < d <= |p|
    requires ValidShapePath(s, p[..d - 1]) && NoneBelow(TreeOf(s), p, ty, d)
    requires ShapeAt(s, p[..d - 1]).cell.kind == ty
    ensures WellFormed(TreeOf(s)) && HasBorder(TreeOf(s), p, ty)
    ensures var c := TreeOf(ShapeAt(s, p[..d - 1]));
            && WellFormed(c) && p[d - 1] < |c.kids| && |c.kids| >= 2 && AllWellFormed(c.kids)
            && ValidPath(TreeOf(s), p[..d - 1])
            && Size(c, ty) <= UINT_MAX
            && ResizeAt(TreeOf(s), p, ty, change)
               == PutTree(TreeOf(s), p[..d - 1], c.(kids := MoveBorder(c.kids, ty, p[d - 1], change)))
  {
    hide WellFormed, Linked, Disjoint, Placed;
    TreeAtShape(s, p[..d - 1]);
    ResizeLocal(TreeOf(s), p, ty, change, d - 1);
    WithinRoot(TreeOf(s), p[..d - 1], ty);
  }

  // Every cell is within the root's rectangle.
  lemma {:induction false} WithinRoot(t: Tree, p: Path, ty: Axis)
    requires WellFormed(t) && ValidPath(t, p)
    ensures Size(At(t, p), ty) <= Size(t, ty)
    decreases |p|
  {
    if p != [] {
      CheckBelowSize(t, ty);
      WithinRoot(t.kids[p[0]], p[1..], ty);
    }
  }

  lemma ResizeKeepsSound(t: Tree, p: Path, ty: Axis, change: int)
    requires Sound(t) && ValidPath(t, p)
    ensures WellFormed(t) && WellFormed(ResizeAt(t, p, ty, change))
    ensures Sound(LayoutResize.ResizePane(t, p, ty, change))
  {
    hide WellFormed, Placed, ResizeAt;
    ResizeAtSound(t, p, ty, change);
    var u := ResizeAt(t, p, ty, change);
    ReplacesSize(t, u);
    FixKeeps(u);
  }

  class Window {
    var sx: int
    var sy: int
    var root: LayoutCell?
    ghost var shape: Shape

    ghost predicate Valid()
      reads this, Footprint(shape)
    {
      && root == shape.cell && shape.cell.parent == null
      && Linked(shape) && Disjoint(shape) && Sound(TreeOf(shape))
    }

    ghost function Layout(): Tree
      reads this, Footprint(shape)
    {
      TreeOf(shape)
    }

    // layout_init
    constructor (sx: int, sy: int, pane: nat)
      requires 0 <= sx <= INT_MAX && 0 <= sy <= INT_MAX
      ensures Valid() && this.sx == sx && this.sy == sy
      ensures Layout() == Tree(WindowPane, sx, sy, 0, 0, Some(pane), [])
    {
      var lc := new LayoutCell(null);
      lc.SetSize(sx, sy, 0, 0);
      lc.wp := Some(pane);
      this.sx, this.sy, root, shape := sx, sy, lc, Shape(lc, []);
    }

    // The sizes layout_split_pane gives the two cells.
    static method Halve(lc: LayoutCell, lcnew: LayoutCell, ghost t: Tree, ty: Axis, hint: int)
      requires lc != lcnew && t.sx == lc.sx && t.sy == lc.sy && t.xoff == lc.xoff && t.yoff == lc.yoff
      requires Size(t, ty) >= PANE_MINIMUM * 2 + 1
      modifies lc`sx, lc`sy, lc`xoff, lc`yoff, lcnew`sx, lcnew`sy, lcnew`xoff, lcnew`yoff
      ensures var c := OldCell(t, ty, hint);
              lc.sx == c.sx && lc.sy == c.sy && lc.xoff == c.xoff && lc.yoff == c.yoff
      ensures var c := NewCell(t, ty, hint);
              lcnew.sx == c.sx && lcnew.sy == c.sy && lcnew.xoff == c.xoff && lcnew.yoff == c.yoff
    {
      var sx, sy, xoff, yoff := lc.sx, lc.sy, lc.xoff, lc.yoff;
      var size := if ty == LeftRight then sx else sy;
      var size2;
      if hint < 0 {
        size2 := (size + 1) / 2 - 1;
      } else {
        size2 := hint;
      }
      if size2 < PANE_MINIMUM {
        size2 := PANE_MINIMUM;
      } else if size2 > size - 2 {
        size2 := size - 2;
      }
      var size1 := size - 1 - size2;
      if ty == LeftRight {
        lc.SetSize(size1, sy, xoff, yoff);
        lcnew.SetSize(size2, sy, xoff + lc.sx + 1, yoff);
      } else {
        lc.SetSize(sx, size1, xoff, yoff);
        lcnew.SetSize(sx, size2, xoff, yoff + lc.sy + 1);
      }
    }

    // The pane's container runs along ty: the new cell goes in after it.
    static method LinkBeside(lc: LayoutCell, ghost s: Shape, ghost i: nat, ty: Axis, hint: int)
      returns (lcnew: LayoutCell)
      requires Linked(s) && Disjoint(s) && WellFormed(TreeOf(s)) && s.cell.kind == ty
      requires i < |s.kids| && s.kids[i].cell == lc && lc.kind == WindowPane
      requires (if ty == LeftRight then lc.sx else lc.sy) >= PANE_MINIMUM * 2 + 1
      modifies s.cell`cells, lc`sx, lc`sy, lc`xoff, lc`yoff
      ensures fresh(lcnew)
      ensures PaneAt(old(TreeOf(s)), [i])
      ensures var u := SplicedShape(s, i, [s.kids[i], Shape(lcnew, [])]);
              && Linked(u) && Disjoint(u) && Footprint(u) <= Footprint(s) + {lcnew}
              && TreeOf(u) == Split(old(TreeOf(s)), [i], ty, hint)
    {
      hide Footprint, Disjoint, Linked, Spliced, KidsOf, OldCell, NewCell, WellFormed;
      ghost var t, c := TreeOf(s), TreeOf(s.kids[i]);
      PaneIsLast(s, i);
      HalfFields(c, ty, hint);
      PaneChild(t, [i]);
      DisjointKid(s, i);
      FootprintAllocated(s);
      label start:
      var parent := lc.parent;
      lcnew := new LayoutCell(parent);
      var k := IndexOf(parent.cells, lc);
      if k != i {
        CellsDistinct(s, i, k);
      }
      parent.cells := Spliced(parent.cells, k, [lc, lcnew]);
      Halve(lc, lcnew, c, ty, hint);
      PaneInserted@start(s, i, lcnew);
      assert KidsOf(s.kids[i]) == [] && KidsOf(Shape(lcnew, [])) == [];
      assert TreeOf(s.kids[i]) == OldCell(c, ty, hint) && TreeOf(Shape(lcnew, [])) == NewCell(c, ty, hint);
    }

    // Otherwise a new container takes the pane's place and holds both cells.
    static method LinkInside(lc: LayoutCell, ghost s: Shape, ty: Axis, hint: int)
      returns (lcparent: LayoutCell, lcnew: LayoutCell)
      requires Linked(s) && s.kids == [] && s.cell == lc && lc.kind == WindowPane
      requires (if ty == LeftRight then lc.sx else lc.sy) >= PANE_MINIMUM * 2 + 1
      modifies lc`parent, lc`sx, lc`sy, lc`xoff, lc`yoff
      ensures fresh(lcparent) && fresh(lcnew) && lcparent.parent == old(lc.parent)
      ensures var u := Shape(lcparent, [s, Shape(lcnew, [])]);
              && Linked(u) && Disjoint(u) && Footprint(u) == {lcparent, lc, lcnew}
              && TreeOf(u) == Split(old(TreeOf(s)), [], ty, hint)
    {
      hide OldCell, NewCell, Linked, Disjoint;
      KidCount(s);
      ghost var c := TreeOf(s);
      HalfFields(c, ty, hint);
      lcparent := new LayoutCell(lc.parent);
      lcparent.kind := ty;
      lcparent.SetSize(lc.sx, lc.sy, lc.xoff, lc.yoff);
      lc.parent := lcparent;
      lcnew := new LayoutCell(lcparent);
      lcparent.cells := [lc, lcnew];
      Halve(lc, lcnew, c, ty, hint);
      assert TreeOf(s) == OldCell(c, ty, hint) && TreeOf(Shape(lcnew, [])) == NewCell(c, ty, hint);
      PairTrees(lcparent, s, Shape(lcnew, []));
      PairShape(lcparent, s, lcnew);
    }

    method SplitBeside(lc: LayoutCell, ghost q: Path, ghost i: nat, ty: Axis, hint: int)
      returns (lcnew: LayoutCell)
      requires Valid() && ValidShapePath(shape, q + [i]) && ShapeAt(shape, q + [i]).cell == lc
      requires PaneAt(Layout(), q + [i]) && RoomToSplit(Layout(), q + [i], ty)
      requires lc.kind == WindowPane && lc.parent != null && lc.parent.kind == ty
      modifies this`shape, Footprint(shape)
      ensures Valid() && fresh(Footprint(shape) - old(Footprint(shape))) && fresh(lcnew)
      ensures Layout() == Split(old(Layout()), q + [i], ty, hint)
      ensures SplitPath(old(Layout()), q + [i], ty) == q + [i + 1]
      ensures ValidShapePath(shape, q + [i + 1]) && ShapeAt(shape, q + [i + 1]).cell == lcnew
    {
      hide Footprint, Disjoint, Linked, Sound, Spliced, KidsOf, OutsideKept, OldCell, NewCell, Split, WellFormed,
        TreeOf, PutTree, PutShape, At, SplitPath;
      ghost var t, s := Layout(), shape;
      ghost var sub := PlaceOf(s, q, i);
      CellTree(sub);
      CellTree(sub.kids[i]);
      SplitBesideLocal(t, q, i, ty, hint);
      SplitKeepsSound(t, q + [i], ty, hint);
      FootprintAllocated(s);
      label start:
      lcnew := LinkBeside(lc, sub, i, ty, hint);
      ghost var u := SplicedShape(sub, i, [sub.kids[i], Shape(lcnew, [])]);
      ChangedWithin@start(s, q);
      Relink@start(s, q, u);
      shape := PutShape(s, q, u);
      PutShapeAt(s, q, u, [i + 1]);
      SplicedAt(sub.kids, i, [sub.kids[i], Shape(lcnew, [])], i + 1);
    }

    method SplitInside(lc: LayoutCell, ghost p: Path, ty: Axis, hint: int)
      returns (lcnew: LayoutCell)
      requires Valid() && ValidShapePath(shape, p) && ShapeAt(shape, p).cell == lc
      requires PaneAt(Layout(), p) && RoomToSplit(Layout(), p, ty)
      requires lc.kind == WindowPane && (lc.parent == null || lc.parent.kind != ty)
      modifies this`shape, this`root, Footprint(shape)
      ensures Valid() && fresh(Footprint(shape) - old(Footprint(shape))) && fresh(lcnew)
      ensures Layout() == Split(old(Layout()), p, ty, hint)
      ensures SplitPath(old(Layout()), p, ty) == p + [1]
      ensures ValidShapePath(shape, p + [1]) && ShapeAt(shape, p + [1]).cell == lcnew
    {
      hide Footprint, Disjoint, Linked, Sound, Spliced, KidsOf, OldCell, NewCell, Split, WellFormed,
        PutTree, TreeOf, At, SplitPath, PutShape;
      ghost var t, s := Layout(), shape;
      ghost var c := PaneShape(s, p);
      SplitKeepsSound(t, p, ty, hint);
      SplitIsInside(s, p, ty, hint);
      FootprintAllocated(s);
      label start:
      var holder := lc.parent;
      var lcparent;
      lcparent, lcnew := LinkInside(lc, c, ty, hint);
      if holder == null {
        root := lcparent;
      } else {
        var k := IndexOf(holder.cells, lc);
        holder.cells := holder.cells[k := lcparent];
      }
      ghost var u := Shape(lcparent, [c, Shape(lcnew, [])]);
      Relink@start(s, p, u);
      shape := PutShape(s, p, u);
      PutShapeAt(s, p, u, [1]);
    }

    // layout_split_pane: null when the pane is too small to split.
    method SplitPane(lc: LayoutCell, ghost p: Path, ty: Axis, hint: int) returns (lcnew: LayoutCell?)
      requires Valid() && ValidShapePath(shape, p) && ShapeAt(shape, p).cell == lc && lc.kind == WindowPane
      modifies this`shape, this`root, Footprint(shape)
      ensures Valid() && fresh(Footprint(shape) - old(Footprint(shape)))
      ensures PaneAt(old(Layout()), p)
      ensures lcnew == null <==> !RoomToSplit(old(Layout()), p, ty)
      ensures lcnew == null ==> Layout() == old(Layout())
      ensures lcnew != null ==>
                && fresh(lcnew) && Layout() == Split(old(Layout()), p, ty, hint)
                && ValidShapePath(shape, SplitPath(old(Layout()), p, ty))
                && ShapeAt(shape, SplitPath(old(Layout()), p, ty)).cell == lcnew
      ensures lcnew != null ==>
                var q := SplitPath(old(Layout()), p, ty);
                && q != [] && q[|q| - 1] > 0 && ValidPath(Layout(), q) && ValidPath(Layout(), Prior(q))
                && SplitInTwo(At(old(Layout()), p), ty, hint, At(Layout(), Prior(q)), At(Layout(), q))
    {
      hide Footprint, Disjoint, Linked, Sound, KidsOf, Split, SplitPath, SplitInTwo;
      ghost var c := PaneShape(shape, p);
      if RoomToSplit(Layout(), p, ty) {
        SplitMakes(Layout(), p, ty, hint);
      }
      if (if ty == LeftRight then lc.sx else lc.sy) < PANE_MINIMUM * 2 + 1 {
        return null;
      }
      if lc.parent != null && lc.parent.kind == ty {
        assert p == p[..|p| - 1] + [p[|p| - 1]];
        lcnew := SplitBeside(lc, p[..|p| - 1], p[|p| - 1], ty, hint);
      } else {
        lcnew := SplitInside(lc, p, ty, hint);
      }
    }

    // layout_destroy_cell gives the cell's space to a neighbour,
    static method MergeSpace(lc: LayoutCell, ghost s: Shape, i: nat)
      requires Linked(s) && Disjoint(s) && WellFormed(TreeOf(s)) && s.cell.kind != WindowPane
      requires i < |s.kids| && s.kids[i].cell == lc
      modifies (Footprint(s) - {s.cell})`sx, (Footprint(s) - {s.cell})`sy
      ensures |old(TreeOf(s)).kids| >= 2 && AllWellFormed(old(TreeOf(s)).kids) && Linked(s)
      ensures var ks, h := old(TreeOf(s)).kids, Heir(i);
              && Size(ks[i], old(TreeOf(s)).kind) >= 0
              && KidsOf(s) == ks[h := Adjust(ks[h], old(TreeOf(s)).kind, Size(ks[i], old(TreeOf(s)).kind) + 1)]
    {
      hide Footprint, Disjoint, Linked, Spliced, KidsOf, WellFormed;
      ghost var t, h := TreeOf(s), Heir(i);
      KidsWellFormed(t);
      KidOf(s, i);
      KidOf(s, h);
      KidsWellFormed(t.kids[i]);
      DisjointKid(s, h);
      FootprintAllocated(s);
      label start:
      var parent := lc.parent;
      var other := if i == 0 then parent.cells[1] else parent.cells[i - 1];
      GiveSpace(other, s.kids[h], parent.kind, lc);
      ChildChanged@start(s, h);
    }

    static method GiveSpace(other: LayoutCell, ghost k: Shape, kind: Axis, lc: LayoutCell)
      requires k.cell == other && Linked(k) && Disjoint(k) && WellFormed(TreeOf(k))
      requires (if kind == LeftRight then lc.sx else lc.sy) >= 0
      modifies Footprint(k)`sx, Footprint(k)`sy
      ensures WellFormed(old(TreeOf(k))) && Linked(k)
      ensures TreeOf(k) == Adjust(old(TreeOf(k)), kind, old(if kind == LeftRight then lc.sx else lc.sy) + 1)
    {
      hide Footprint, Disjoint, Linked, WellFormed;
      if kind == LeftRight {
        other.ResizeAdjust(k, LeftRight, lc.sx + 1);
      } else {
        other.ResizeAdjust(k, TopBottom, lc.sy + 1);
      }
    }

    // and then takes the cell out of its container's list.
    static method Unlink(lc: LayoutCell, ghost s: Shape, ghost i: nat)
      requires Linked(s) && Disjoint(s) && WellFormed(TreeOf(s)) && s.cell.kind != WindowPane
      requires i < |s.kids| && s.kids[i].cell == lc
      modifies s.cell`cells, (Footprint(s) - {s.cell})`sx, (Footprint(s) - {s.cell})`sy
      ensures |old(TreeOf(s)).kids| >= 2 && AllWellFormed(old(TreeOf(s)).kids)
      ensures var u := SplicedShape(s, i, []);
              && Linked(u) && Disjoint(u) && Footprint(u) <= Footprint(s)
              && KidsOf(u) == Without(old(TreeOf(s)).kids, old(TreeOf(s)).kind, i)
    {
      hide Footprint, Disjoint, Linked, Spliced, WellFormed, Adjust;
      FootprintAllocated(s);
      KidOf(s, i);
      var parent := lc.parent;
      var k := IndexOf(parent.cells, lc);
      if k != i {
        CellsDistinct(s, i, k);
      }
      MergeSpace(lc, s, k);
      WithoutIs(old(TreeOf(s)).kids, old(TreeOf(s)).kind, i);
      KidOf(s, i);
      FootprintAllocated(s);
      label merged:
      parent.cells := Spliced(parent.cells, k, []);
      NothingDisjoint(s);
      OnlyListChanged@merged(s, i);
      DisjointSplice(s, i, []);
      SpliceTree@merged(s, i, []);
      SpliceLinked@merged(s, i, []);
    }

    // A container left with one child is taken out of the tree.
    static method Hoist(parent: LayoutCell, ghost u: Shape) returns (c: LayoutCell)
      requires Linked(u) && Disjoint(u) && |u.kids| == 1 && u.cell == parent
      modifies parent`cells, u.kids[0].cell`parent
      ensures c == u.kids[0].cell && c.parent == parent.parent
      ensures Linked(u.kids[0]) && TreeOf(u.kids[0]) == old(KidsOf(u))[0]
    {
      DisjointKid(u, 0);
      KidOf(u, 0);
      FootprintAllocated(u);
      label start:
      c := parent.cells[0];
      parent.cells := [];
      c.parent := parent.parent;
      OwnSizeChanged@start(u.kids[0]);
    }

    method UnlinkAt(lc: LayoutCell, ghost q: Path, ghost i: nat)
      requires Valid() && ValidShapePath(shape, q + [i]) && ShapeAt(shape, q + [i]).cell == lc
      modifies this`shape, Footprint(shape)
      ensures root == shape.cell && shape.cell.parent == null && Linked(shape) && Disjoint(shape)
      ensures Footprint(shape) <= old(Footprint(shape))
      ensures ValidPath(old(Layout()), q + [i]) && ValidPath(old(Layout()), q)
      ensures var c := At(old(Layout()), q);
              && i < |c.kids| && |c.kids| >= 2 && AllWellFormed(c.kids) && c.kind != WindowPane
              && Layout() == PutTree(old(Layout()), q, c.(kids := Without(c.kids, c.kind, i)))
      ensures ValidShapePath(old(shape), q) && ValidShapePath(shape, q)
      ensures ShapeAt(shape, q).cell == ShapeAt(old(shape), q).cell == old(lc.parent)
      ensures old(lc.parent) in Footprint(shape)
    {
      hide Footprint, Disjoint, Linked, Sound, Spliced, KidsOf, WellFormed, OutsideKept, Without, PutTree, At;
      ghost var t, s := Layout(), shape;
      SoundParts(t);
      ghost var sub := PlaceOf(s, q, i);
      KidsWellFormed(TreeOf(sub));
      KidOf(sub, i);
      FootprintAllocated(s);
      label start:
      Unlink(lc, sub, i);
      ghost var u := SplicedShape(sub, i, []);
      ChangedWithin@start(s, q);
      Relink@start(s, q, u);
      shape := PutShape(s, q, u);
      assert q + [] == q;
      PutShapeAt(s, q, u, []);
      TreeAtShape(shape, q);
      assert u.cell in Footprint(u);
    }

    method HoistAt(parent: LayoutCell, ghost q: Path)
      requires root == shape.cell && shape.cell.parent == null && Linked(shape) && Disjoint(shape)
      requires ValidShapePath(shape, q) && ShapeAt(shape, q).cell == parent && |parent.cells| == 1
      modifies this`shape, this`root, Footprint(shape)
      ensures root == shape.cell && shape.cell.parent == null && Linked(shape) && Disjoint(shape)
      ensures Footprint(shape) <= old(Footprint(shape))
      ensures ValidPath(old(Layout()), q) && |At(old(Layout()), q).kids| == 1
      ensures var k := At(old(Layout()), q).kids[0];
              Layout() == if q == [] then k.(xoff := 0, yoff := 0) else PutTree(old(Layout()), q, k)
    {
      hide Footprint, Disjoint, Linked, KidsOf, OutsideKept, PutTree, At, TreeOf, PutShape;
      ghost var t, s, u := Layout(), shape, ShapeAt(shape, q);
      TreeAtShape(s, q);
      KidCount(u);
      KidOf(u, 0);
      DisjointKid(u, 0);
      assert u.cell in Footprint(u) && u.kids[0].cell in Footprint(u.kids[0]);
      FootprintAllocated(s);
      if q != [] {
        HeldAtPath(s, q);
      }
      ghost var k := u.kids[0];
      label start:
      var c := Hoist(parent, u);
      if c.parent == null {
        label hoisted:
        CellTree(k);
        c.xoff, c.yoff := 0, 0;
        OwnSizeChanged@hoisted(k);
        CellTree(k);
        root := c;
        shape := k;
      } else {
        var holder := c.parent;
        var at := IndexOf(holder.cells, parent);
        holder.cells := holder.cells[at := c];
        HoistedOutside@start(s, q, c);
        Relink@start(s, q, k);
        shape := PutShape(s, q, k);
      }
    }

    // layout_destroy_cell
    method RemoveCell(lc: LayoutCell, ghost q: Path, ghost i: nat)
      requires Valid() && ValidShapePath(shape, q + [i]) && ShapeAt(shape, q + [i]).cell == lc && lc.parent != null
      modifies this`shape, this`root, Footprint(shape)
      ensures root == shape.cell && shape.cell.parent == null && Linked(shape) && Disjoint(shape)
      ensures Footprint(shape) <= old(Footprint(shape))
      ensures WellFormed(old(Layout())) && ValidPath(old(Layout()), q + [i])
      ensures Layout() == DestroyRoot(old(Layout()), q + [i])
    {
      hide Footprint, Disjoint, Linked, Sound, KidsOf, WellFormed, PutTree, Without, DestroyRoot, At;
      ghost var t := Layout();
      SoundParts(t);
      var parent := lc.parent;
      UnlinkAt(lc, q, i);
      DestroySteps(t, q, i);
      ghost var c := At(t, q);
      ghost var rs := Without(c.kids, c.kind, i);
      PutPut(t, q, c.(kids := rs), if |rs| == 1 then rs[0] else c);
      TreeAtShape(shape, q);
      KidCount(ShapeAt(shape, q));
      if |parent.cells| == 1 {
        HoistAt(parent, q);
      }
    }

    // layout_close_pane; closing the only pane leaves no layout.
    method ClosePane(lc: LayoutCell, ghost p: Path)
      requires Valid() && ValidShapePath(shape, p) && ShapeAt(shape, p).cell == lc && lc.kind == WindowPane
      modifies this`shape, this`root, Footprint(shape)
      ensures WellFormed(old(Layout())) && PaneAt(old(Layout()), p)
      ensures p == [] ==> root == null
      ensures p != [] ==> Valid() && Footprint(shape) <= old(Footprint(shape)) && Layout() == Close(old(Layout()), p)
    {
      hide Footprint, Disjoint, Linked, Sound, KidsOf, WellFormed, PutTree, At, Without, DestroyRoot;
      ghost var t, s := Layout(), shape;
      SoundParts(t);
      ghost var c := PaneShape(s, p);
      if lc.parent == null {
        root := null;
        return;
      }
      ghost var q, i := p[..|p| - 1], p[|p| - 1];
      assert p == q + [i];
      var parent := lc.parent;
      RemoveCell(lc, q, i);
      DestroyRootSound(t, p);
      root.FixChildOffsets(shape);
    }

    // layout_assign_pane: the cell a split made gets its pane.
    method AssignPane(lc: LayoutCell, ghost p: Path, pane: nat)
      requires Valid() && ValidShapePath(shape, p) && ShapeAt(shape, p).cell == lc && lc.kind == WindowPane
      modifies Footprint(shape)
      ensures Valid() && PaneAt(old(Layout()), p) && Layout() == Assign(old(Layout()), p, pane)
    {
      hide Footprint, Disjoint, Linked, Sound, KidsOf, OutsideKept, PutTree, PutShape;
      ghost var t, s := Layout(), shape;
      ghost var c := PaneShape(s, p);
      AssignSound(t, p, pane);
      FootprintAllocated(s);
      label start:
      lc.wp := Some(pane);
      OwnSizeChanged@start(c);
      ChangedWithin@start(s, p);
      Relink@start(s, p, c);
      PutSame(s, p);
    }

    // One direction of layout_resize.
    method Follow(ty: Axis, from: int, to: int)
      requires root == shape.cell && shape.cell.parent == null && Linked(shape) && Disjoint(shape)
      requires WellFormed(Layout()) && Size(Layout(), ty) <= UINT_MAX
      modifies Footprint(shape)`sx, Footprint(shape)`sy
      ensures WellFormed(old(Layout()))
      ensures Linked(shape) && Layout() == ResizeAxis(old(Layout()), ty, from, to)
    {
      hide Footprint, Disjoint, Linked, KidsOf, WellFormed, Check, Adjust;
      FootprintAllocated(shape);
      var change := to - from;
      var limit := root.ResizeCheck(shape, ty);
      if change < 0 && change < -limit {
        change := -limit;
      }
      if limit == 0 {
        var size := if ty == LeftRight then root.sx else root.sy;
        if to <= size {
          change := 0;
        } else {
          change := to - size;
        }
      }
      if change != 0 {
        root.ResizeAdjust(shape, ty, change);
      }
    }

    // layout_resize, after which the window takes its new size
    method Resize(newsx: int, newsy: int)
      requires Valid() && FitsInt(Layout(), sx, sy, newsx, newsy)
      modifies this`sx, this`sy, Footprint(shape)
      ensures Valid() && sx == newsx && sy == newsy && WellFormed(old(Layout()))
      ensures Layout() == ResizeWindow(old(Layout()), old(sx), old(sy), newsx, newsy)
    {
      hide Footprint, Disjoint, Linked, KidsOf, WellFormed, Check, Adjust, ResizeAxis, FitsInt;
      FollowSound(Layout(), sx, sy, newsx, newsy);
      Follow(LeftRight, sx, newsx);
      Follow(TopBottom, sy, newsy);
      root.FixChildOffsets(shape);
      sx, sy := newsx, newsy;
    }

    // Space goes from one child of a container to another.
    static method MoveSpace(ghost s: Shape, cells: seq<LayoutCell>, ty: Axis, add: nat, remove: nat, size: nat)
      requires Linked(s) && Disjoint(s) && WellFormed(TreeOf(s)) && s.cell.kind == ty && cells == s.cell.cells
      requires Size(TreeOf(s), ty) <= UINT_MAX
      requires add < |s.kids| && remove < |s.kids| && add != remove
      requires size <= Check(TreeOf(s.kids[remove]), ty)
      modifies (Footprint(s) - {s.cell})`sx, (Footprint(s) - {s.cell})`sy
      ensures Linked(s) && AllWellFormed(old(KidsOf(s))) && |old(KidsOf(s))| == |s.kids|
      ensures size <= Check(old(KidsOf(s))[remove], ty)
      ensures KidsOf(s) == Transfer(old(KidsOf(s)), ty, add, remove, size)
    {
      hide Footprint, Disjoint, Linked, KidsOf, WellFormed, Check, Adjust;
      ghost var ks := KidsOf(s);
      KidFits(s, ty, add);
      KidFits(s, ty, remove);
      KidsWellFormed(TreeOf(s));
      DisjointKid(s, add);
      DisjointKid(s, remove);
      FootprintAllocated(s);
      label start:
      cells[add].ResizeAdjust(s.kids[add], ty, size);
      ChildChanged@start(s, add);
      KidOf(s, remove);
      FootprintAllocated(s);
      label added:
      cells[remove].ResizeAdjust(s.kids[remove], ty, 0 - size);
      ChildChanged@added(s, remove);
    }

    // The nearest child after `at` with space to give.
    static method TailDonor(cells: seq<LayoutCell>, ghost s: Shape, ty: Axis, at: nat) returns (j: nat, size: int)
      requires Linked(s) && WellFormed(TreeOf(s)) && s.cell.cells == cells && at < |cells|
      requires Size(TreeOf(s), ty) <= UINT_MAX
      ensures |KidsOf(s)| == |cells| && at < j <= |cells|
      ensures forall l :: at < l < j ==> Check(KidsOf(s)[l], ty) == 0
      ensures if j < |cells| then size > 0 && size == Check(KidsOf(s)[j], ty) else size == 0
    {
      hide Footprint, Linked, WellFormed, Check, KidsOf;
      ghost var t, ks := TreeOf(s), KidsOf(s);
      FootprintAllocated(s);
      KidCount(s);
      j, size := at + 1, 0;
      while j < |cells|
        invariant at < j <= |cells| == |ks|
        invariant Linked(s) && TreeOf(s) == t && KidsOf(s) == ks && s.cell.cells == cells
        invariant forall l :: at < l < j ==> Check(ks[l], ty) == 0
        invariant size == 0
      {
        KidFits(s, ty, j);
        size := cells[j].ResizeCheck(s.kids[j], ty);
        KidOf(s, j);
        if size > 0 {
          break;
        }
        j := j + 1;
      }
    }

    // The nearest child before `at` with space to give, or -1.
    static method HeadDonor(cells: seq<LayoutCell>, ghost s: Shape, ty: Axis, at: nat) returns (j: int, size: int)
      requires Linked(s) && WellFormed(TreeOf(s)) && s.cell.cells == cells && at <= |cells|
      requires Size(TreeOf(s), ty) <= UINT_MAX
      ensures |KidsOf(s)| == |cells| && -1 <= j < at
      ensures forall l :: j < l < at ==> Check(KidsOf(s)[l], ty) == 0
      ensures if j >= 0 then size > 0 && size == Check(KidsOf(s)[j], ty) else size == 0
    {
      hide Footprint, Linked, WellFormed, Check, KidsOf;
      ghost var t, ks := TreeOf(s), KidsOf(s);
      FootprintAllocated(s);
      KidCount(s);
      j, size := at - 1, 0;
      while j >= 0
        invariant -1 <= j < at <= |cells| == |ks|
        invariant Linked(s) && TreeOf(s) == t && KidsOf(s) == ks && s.cell.cells == cells
        invariant forall l :: j < l < at ==> Check(ks[l], ty) == 0
        invariant size == 0
      {
        KidFits(s, ty, j);
        size := cells[j].ResizeCheck(s.kids[j], ty);
        KidOf(s, j);
        if size > 0 {
          break;
        }
        j := j - 1;
      }
    }

    // layout_resize_pane_grow
    static method Grow(lc: LayoutCell, ghost s: Shape, ghost i: nat, ty: Axis, needed: nat) returns (size: int)
      requires Linked(s) && Disjoint(s) && WellFormed(TreeOf(s)) && s.cell.kind == ty
      requires Size(TreeOf(s), ty) <= UINT_MAX && i < |s.kids| && s.kids[i].cell == lc
      modifies (Footprint(s) - {s.cell})`sx, (Footprint(s) - {s.cell})`sy
      ensures Linked(s) && AllWellFormed(old(KidsOf(s))) && |old(KidsOf(s))| == |s.kids|
      ensures Pulled(old(KidsOf(s)), KidsOf(s), ty, i, GrowOrder(|s.kids|, i), needed, size)
    {
      hide Footprint, Disjoint, Linked, KidsOf, WellFormed, Check, TreeOf, GrowOrder;
      ghost var t, ks := TreeOf(s), KidsOf(s);
      FootprintAllocated(s);
      KidOf(s, i);
      KidsWellFormed(t);
      TreeKids(s);
      var cells := lc.parent.cells;
      var at := IndexOf(cells, lc);
      if at != i {
        CellsDistinct(s, i, at);
      }
      var remove: int;
      remove, size := TailDonor(cells, s, ty, at);
      if remove == |cells| {
        remove, size := HeadDonor(cells, s, ty, at);
        if remove == -1 {
          NoneInGrowOrder(ks, ty, at);
          return 0;
        }
      }
      FoundInGrowOrder(ks, ty, at, remove);
      if size > needed {
        size := needed;
      }
      KidOf(s, remove);
      MoveSpace(s, cells, ty, at, remove, size);
    }

    // layout_resize_pane_shrink
    static method Shrink(lc: LayoutCell, ghost s: Shape, ghost i: nat, ty: Axis, needed: nat) returns (size: int)
      requires Linked(s) && Disjoint(s) && WellFormed(TreeOf(s)) && s.cell.kind == ty
      requires Size(TreeOf(s), ty) <= UINT_MAX && i < |s.kids| && s.kids[i].cell == lc
      modifies (Footprint(s) - {s.cell})`sx, (Footprint(s) - {s.cell})`sy
      ensures Linked(s) && AllWellFormed(old(KidsOf(s))) && |old(KidsOf(s))| == |s.kids|
      ensures i + 1 < |s.kids| ==>
                Pulled(old(KidsOf(s)), KidsOf(s), ty, i + 1, ShrinkOrder(i), needed, size)
      ensures i + 1 == |s.kids| ==> size == 0 && KidsOf(s) == old(KidsOf(s))
    {
      hide Footprint, Disjoint, Linked, KidsOf, WellFormed, Check, TreeOf, ShrinkOrder, Transfer, FirstDonor;
      ghost var t, ks := TreeOf(s), KidsOf(s);
      FootprintAllocated(s);
      KidOf(s, i);
      KidsWellFormed(t);
      TreeKids(s);
      var cells := lc.parent.cells;
      var at := IndexOf(cells, lc);
      if at != i {
        CellsDistinct(s, i, at);
      }
      var remove;
      remove, size := HeadDonor(cells, s, ty, at + 1);
      if remove == -1 {
        NoneInShrinkOrder(ks, ty, at);
        return 0;
      }
      if at + 1 == |cells| {
        return 0;
      }
      FoundInShrinkOrder(ks, ty, at, remove);
      if size > needed {
        size := needed;
      }
      KidOf(s, remove);
      MoveSpace(s, cells, ty, at + 1, remove, size);
    }

    // Move the border after a child, or before it when it is the last.
    static method ShiftBorder(lc: LayoutCell, ghost s: Shape, ghost i: nat, ty: Axis, change: int)
      requires Linked(s) && Disjoint(s) && WellFormed(TreeOf(s)) && s.cell.kind == ty
      requires Size(TreeOf(s), ty) <= UINT_MAX && i < |s.kids| && s.kids[i].cell == lc
      modifies (Footprint(s) - {s.cell})`sx, (Footprint(s) - {s.cell})`sy
      ensures Linked(s) && AllWellFormed(old(TreeOf(s)).kids) && |old(TreeOf(s)).kids| == |s.kids| >= 2
      ensures KidsOf(s) == MoveBorder(old(TreeOf(s)).kids, ty, i, change)
    {
      hide Footprint, Disjoint, Linked, WellFormed, KidsOf, GrowOrder, ShrinkOrder, Pull, Pulled, Orderly;
      ghost var t, n := TreeOf(s), |s.kids|;
      FootprintAllocated(s);
      KidOf(s, i);
      KidsWellFormed(t);
      var cells := lc.parent.cells;
      var at := IndexOf(cells, lc);
      if at != i {
        CellsDistinct(s, i, at);
      }
      var c := lc;
      if at == |cells| - 1 {
        c := cells[at - 1];
        KidOf(s, at - 1);
      }
      ghost var b, add, order := Border(n, i), Gainer(n, i, change), Donors(n, i, change);
      DonorsOrderly(n, i, change);
      var needed := change;
      while needed != 0
        invariant Linked(s) && s.kids[b].cell == c
        invariant TreeOf(s) == t.(kids := KidsOf(s)) && WellFormed(TreeOf(s)) && |KidsOf(s)| == n
        invariant AllWellFormed(KidsOf(s))
        invariant if change > 0 then 0 <= needed <= change else change <= needed <= 0
        invariant Pull(KidsOf(s), ty, add, order, Magnitude(needed)) == MoveBorder(t.kids, ty, i, change)
        decreases Magnitude(needed)
      {
        ghost var ks := KidsOf(s);
        ghost var left := Magnitude(needed);
        var size;
        if change > 0 {
          size := Grow(c, s, b, ty, needed);
          needed := needed - size;
        } else {
          size := Shrink(c, s, b, ty, -needed);
          needed := needed + size;
        }
        TreeKids(s);
        PullRound(t.(kids := ks), KidsOf(s), add, order, left, size);
        if size == 0 {
          break;
        }
      }
      PullNothing(KidsOf(s), ty, add, order);
    }

    // The nearest cell above the pane whose container runs along ty.
    method FindBorder(lc: LayoutCell, ghost p: Path, ty: Axis) returns (c: LayoutCell, ghost d: nat)
      requires Valid() && ValidShapePath(shape, p) && ShapeAt(shape, p).cell == lc && lc.kind == WindowPane
      ensures ValidPath(Layout(), p) && d <= |p| && NoneBelow(Layout(), p, ty, d)
      ensures ValidShapePath(shape, p[..d]) && c == ShapeAt(shape, p[..d]).cell
      ensures if d == 0 then c.parent == null else c.parent != null && c.parent.kind == ty
    {
      hide Footprint, Disjoint, Linked, Sound, KidsOf, At, NoneBelow;
      ghost var t, s := Layout(), shape;
      ghost var _ := PaneShape(s, p);
      c, d := lc, |p|;
      assert p[..d] == p;
      NoneAtPane(t, p, ty);
      FootprintAllocated(s);
      while c.parent != null && c.parent.kind != ty
        invariant Linked(s) && TreeOf(s) == t && s.cell.parent == null
        invariant d <= |p| && ValidShapePath(s, p[..d]) && c == ShapeAt(s, p[..d]).cell
        invariant NoneBelow(t, p, ty, d)
        decreases d
      {
        RootHasNoParent(s, p[..d]);
        StepUp(s, p, d);
        NoneBelowUp(t, p, ty, d);
        c, d := c.parent, d - 1;
      }
      RootHasNoParent(s, p[..d]);
    }

    // layout_resize_pane
    method ResizePane(lc: LayoutCell, ghost p: Path, ty: Axis, change: int)
      requires Valid() && ValidShapePath(shape, p) && ShapeAt(shape, p).cell == lc && lc.kind == WindowPane
      modifies Footprint(shape)
      ensures WellFormed(old(Layout())) && PaneAt(old(Layout()), p)
      ensures Valid() && Layout() == LayoutResize.ResizePane(old(Layout()), p, ty, change)
    {
      hide Footprint, Disjoint, Linked, Sound, KidsOf, At, NoneBelow, WellFormed, PutTree, PutShape,
        OutsideKept, ResizeAt, FixOffsets;
      ghost var t, s := Layout(), shape;
      SoundParts(t);
      FootprintAllocated(s);
      ghost var _ := PaneShape(s, p);
      var c;
      ghost var d;
      c, d := FindBorder(lc, p, ty);
      if c.parent == null {
        NoBorder(t, p, ty);
        return;
      }
      ResizeKeepsSound(t, p, ty, change);
      MoveOwn(c, p, ty, change, d);
      root.FixChildOffsets(s);
    }

    // The rest of layout_resize_pane, but for the offsets: the border of the
    // cell c found at depth d moves.
    method MoveOwn(c: LayoutCell, ghost p: Path, ty: Axis, change: int, ghost d: nat)
      requires Valid() && ValidPath(Layout(), p) && 0 < d <= |p| && NoneBelow(Layout(), p, ty, d)
      requires ValidShapePath(shape, p[..d]) && c == ShapeAt(shape, p[..d]).cell
      requires c.parent != null && c.parent.kind == ty
      modifies Footprint(shape)
      ensures root == old(root) && shape == old(shape) && sx == old(sx) && sy == old(sy)
      ensures Linked(shape) && Disjoint(shape) && shape.cell == root && root.parent == null
      ensures HasBorder(old(Layout()), p, ty) && TreeOf(shape) == ResizeAt(old(Layout()), p, ty, change)
    {
      hide Footprint, Disjoint, Linked, Sound, KidsOf, At, NoneBelow, WellFormed, PutTree, PutShape,
        OutsideKept, ResizeAt;
      ghost var s := shape;
      FootprintAllocated(s);
      ghost var q, i := p[..d - 1], p[d - 1];
      assert p[..d] == q + [i];
      ghost var sub := PlaceOf(s, q, i);
      ShiftLocal(s, p, ty, change, d);
      label start:
      ShiftBorder(c, sub, i, ty, change);
      ChangedWithin@start(s, q);
      Relink@start(s, q, sub);
      PutSame(s, q);
    }
  }
}
