// Layout cells as linked records updated in place. A ghost Shape names the
// cells below a cell; TreeOf reads off the value they denote.
module LayoutCell {
  import opened Common
  import opened Sums
  import opened LayoutTree
  import opened LayoutGeometry
  import opened LayoutOps
  import opened LayoutResize

  datatype Shape = Shape(cell: LayoutCell, kids: seq<Shape>)

  ghost function Footprint(s: Shape): (r: set<LayoutCell>)
    ensures s.cell in r
  {
    {s.cell} + set i, c | 0 <= i < |s.kids| && c in Footprint(s.kids[i]) :: c
  }

  lemma {:induction false} FootprintAllocated(s: Shape)
    ensures forall c :: c in Footprint(s) ==> allocated(c)
  {
    forall i | 0 <= i < |s.kids| ensures forall c :: c in Footprint(s.kids[i]) ==> allocated(c) {
      FootprintAllocated(s.kids[i]);
    }
  }

  // No cell is reachable along two ways.
  ghost predicate Disjoint(s: Shape) {
    && (forall i :: 0 <= i < |s.kids| ==> s.cell !in Footprint(s.kids[i]) && Disjoint(s.kids[i]))
    && forall i, j :: 0 <= i < j < |s.kids| ==> Footprint(s.kids[i]) !! Footprint(s.kids[j])
  }

  // The child lists and parent pointers below a cell agree with its shape.
  ghost predicate Linked(s: Shape)
    reads Footprint(s)
  {
    && |s.cell.cells| == |s.kids|
    && forall i :: 0 <= i < |s.kids| ==>
         Linked(s.kids[i]) && s.cell.cells[i] == s.kids[i].cell && s.kids[i].cell.parent == s.cell
  }

  ghost function TreeOf(s: Shape): (t: Tree)
    reads Footprint(s)
    decreases s, 1
  {
    var c := s.cell;
    Tree(c.kind, c.sx, c.sy, c.xoff, c.yoff, c.wp, KidsOf(s))
  }

  ghost function KidsOf(s: Shape): (ts: seq<Tree>)
    reads Footprint(s)
    ensures |ts| == |s.kids| && forall i :: 0 <= i < |ts| ==> ts[i] == TreeOf(s.kids[i])
    decreases s, 0
  {
    seq(|s.kids|, i requires 0 <= i < |s.kids| reads Footprint(s) => TreeOf(s.kids[i]))
  }

  lemma KidCount(s: Shape)
    requires Linked(s)
    ensures |s.cell.cells| == |s.kids| == |TreeOf(s).kids|
  {
  }

  lemma KidOf(s: Shape, i: nat)
    requires Linked(s) && i < |s.kids|
    ensures |s.cell.cells| == |s.kids| == |TreeOf(s).kids|
    ensures s.cell.cells[i] == s.kids[i].cell && Linked(s.kids[i]) && s.kids[i].cell.parent == s.cell
    ensures TreeOf(s).kids[i] == TreeOf(s.kids[i]) && Footprint(s.kids[i]) <= Footprint(s)
  {
  }

  // A child's sizes are within its parent's, so they are u_ints as well.
  lemma KidFits(s: Shape, ty: Axis, i: nat)
    requires Linked(s) && i < |s.kids| && WellFormed(TreeOf(s)) && Size(TreeOf(s), ty) <= UINT_MAX
    ensures |s.cell.cells| == |s.kids| == |TreeOf(s).kids|
    ensures s.cell.cells[i] == s.kids[i].cell && Linked(s.kids[i])
    ensures TreeOf(s).kids[i] == TreeOf(s.kids[i]) && WellFormed(TreeOf(s.kids[i]))
    ensures Size(TreeOf(s.kids[i]), ty) <= UINT_MAX && Check(TreeOf(s.kids[i]), ty) <= UINT_MAX
  {
    KidOf(s, i);
    CheckBelowSize(TreeOf(s), ty);
    CheckBelowSize(TreeOf(s.kids[i]), ty);
  }

  // A change inside child i leaves the other children as they were.
  twostate lemma ChildChanged(s: Shape, new i: nat)
    requires i < |s.kids| && Disjoint(s)
    requires forall c :: c in Footprint(s) && c !in Footprint(s.kids[i]) ==> old(allocated(c)) && unchanged(c)
    requires s.kids[i].cell.parent == old(s.kids[i].cell.parent)
    ensures old(Linked(s)) && Linked(s.kids[i]) ==> Linked(s)
    ensures KidsOf(s) == old(KidsOf(s))[i := TreeOf(s.kids[i])]
  {
    assert unchanged(s.cell);
    forall j | 0 <= j < |s.kids| && j != i
      ensures Linked(s.kids[j]) <==> old(Linked(s.kids[j]))
      ensures TreeOf(s.kids[j]) == old(TreeOf(s.kids[j]))
      ensures s.kids[j].cell.parent == old(s.kids[j].cell.parent)
    {
      assert Footprint(s.kids[j]) !! Footprint(s.kids[i]);
    }
  }

  // A change of the cell's own size or offset leaves its children as they were.
  twostate lemma OwnSizeChanged(s: Shape)
    requires Disjoint(s)
    requires forall c :: c in Footprint(s) && c != s.cell ==> old(allocated(c)) && unchanged(c)
    requires s.cell.cells == old(s.cell.cells)
    ensures old(Linked(s)) ==> Linked(s)
    ensures KidsOf(s) == old(KidsOf(s))
  {
    forall j | 0 <= j < |s.kids|
      ensures Linked(s.kids[j]) <==> old(Linked(s.kids[j]))
      ensures TreeOf(s.kids[j]) == old(TreeOf(s.kids[j]))
      ensures s.kids[j].cell.parent == old(s.kids[j].cell.parent)
    {
      DisjointKid(s, j);
    }
  }

  lemma DisjointKid(s: Shape, i: nat)
    requires Disjoint(s) && i < |s.kids|
    ensures Disjoint(s.kids[i]) && s.cell !in Footprint(s.kids[i]) && Footprint(s.kids[i]) <= Footprint(s)
    ensures s.kids[i] < s
  {
  }

  lemma AdjustableKid(t: Tree, ty: Axis, change: int, i: nat)
    requires WellFormed(t) && t.kind != ty && i < |t.kids|
    requires -change <= Check(t, ty) && (change < 0 ==> Size(t, ty) <= UINT_MAX)
    ensures |Adjust(t, ty, change).kids| == |t.kids| && WellFormed(t.kids[i])
    ensures -change <= Check(t.kids[i], ty) && (change < 0 ==> Size(t.kids[i], ty) <= UINT_MAX)
    ensures Adjust(t, ty, change).kids[i] == Adjust(t.kids[i], ty, change)
  {
    CheckAcross(t, ty, i);
    CheckBelowSize(t, ty);
  }

  // While `left` of the change is still to be shared out, starting at child i,
  // the children are such that going on ends where the specification ends.
  ghost predicate Sharing(t: Tree, ty: Axis, change: int, ks: seq<Tree>, left: int, i: nat)
    requires WellFormed(t) && t.kind == ty && -change <= Check(t, ty)
  {
    && |ks| == |t.kids| && i <= |ks| && AllWellFormed(ks) && -left <= Sum(Checks(ks, ty))
    && RoundRobin(ks, ty, left, i) == Adjust(t, ty, change).kids
    && (left < 0 ==> forall j :: 0 <= j < |ks| ==> Size(ks[j], ty) <= UINT_MAX)
  }

  lemma ShareOutStart(t: Tree, ty: Axis, change: int)
    requires WellFormed(t) && t.kind == ty && -change <= Check(t, ty)
    requires change < 0 ==> Size(t, ty) <= UINT_MAX
    ensures Sharing(t, ty, change, t.kids, change, 0)
  {
    CheckAlong(t, ty);
    CheckBelowSize(t, ty);
  }

  lemma AbleInRound(t: Tree, ty: Axis, change: int, ks: seq<Tree>, left: int)
    requires WellFormed(t) && t.kind == ty && -change <= Check(t, ty)
    requires Sharing(t, ty, change, ks, left, 0) && left != 0
    ensures FirstAble(ks, ty, left, 0) < |ks|
  {
    AbleExists(ks, ty, left);
  }

  lemma ShareOutStep(t: Tree, ty: Axis, change: int, ks: seq<Tree>, left: int, i: nat)
    requires WellFormed(t) && t.kind == ty && -change <= Check(t, ty)
    requires Sharing(t, ty, change, ks, left, i) && left != 0 && i < |ks|
    ensures WellFormed(ks[i]) && (left < 0 ==> Size(ks[i], ty) <= UINT_MAX)
    ensures left > 0 ==> Sharing(t, ty, change, ks[i := Adjust(ks[i], ty, 1)], left - 1, i + 1)
    ensures left < 0 && Check(ks[i], ty) > 0 ==>
              Sharing(t, ty, change, ks[i := Adjust(ks[i], ty, -1)], left + 1, i + 1)
    ensures left < 0 && Check(ks[i], ty) == 0 ==> Sharing(t, ty, change, ks, left, i + 1)
  {
    hide WellFormed, Check, Step, Adjust, Stepped;
    if left > 0 || Check(ks[i], ty) > 0 {
      var d := if left > 0 then 1 else -1;
      AdjustOne(ks[i], ty, d);
      StepChild(ks, ty, d, i);
      StepWellFormed(ks[i], ty, d);
      SumBounds(Checks(ks[i := Step(ks[i], ty, d)], ty));
      StepSize(ks[i], ty, d);
    }
  }

  lemma StepSize(k: Tree, ty: Axis, d: int)
    requires d == 1 || d == -1
    ensures Size(Step(k, ty, d), ty) == Size(k, ty) + d
  {
  }

  lemma ShareOutWrap(t: Tree, ty: Axis, change: int, ks: seq<Tree>, left: int, i: nat)
    requires WellFormed(t) && t.kind == ty && -change <= Check(t, ty)
    requires Sharing(t, ty, change, ks, left, i) && (i == |ks| || left == 0)
    ensures Sharing(t, ty, change, ks, left, 0)
  {
    if left != 0 {
      AbleExists(ks, ty, left);
    }
  }

  lemma ShareOutEnd(t: Tree, ty: Axis, change: int, ks: seq<Tree>)
    requires WellFormed(t) && t.kind == ty && -change <= Check(t, ty)
    requires Sharing(t, ty, change, ks, 0, 0)
    ensures ks == Adjust(t, ty, change).kids
  {
  }

  // Only a cell's sizes decide where the cells below it go.
  lemma FixMoved(k: Tree, x: int, y: int)
    ensures FixOffsets(k.(xoff := x, yoff := y)) == Fix(k, x, y)
  {
    hide Start;
    var m := k.(xoff := x, yoff := y);
    forall i | 0 <= i < |k.kids| ensures FixOffsets(m).kids[i] == Fix(k, x, y).kids[i] {
      assert KidX(m, i, x) == KidX(k, i, x) && KidY(m, i, y) == KidY(k, i, y);
    }
  }

  lemma FixedKids(t: Tree)
    ensures var u := FixOffsets(t);
            && |u.kids| == |t.kids| && u == t.(kids := u.kids)
            && forall i :: 0 <= i < |t.kids| ==>
                 u.kids[i] == Fix(t.kids[i], KidX(t, i, t.xoff), KidY(t, i, t.yoff))
  {
  }

  lemma FixPane(k: Tree, x: int, y: int)
    requires WellFormed(k) && k.kind == WindowPane
    ensures Fix(k, x, y) == k.(xoff := x, yoff := y)
  {
  }

  lemma MovedWellFormed(k: Tree, x: int, y: int)
    requires WellFormed(k)
    ensures WellFormed(k.(xoff := x, yoff := y))
  {
    if k.kind != WindowPane {
      assert Fills(k);
      assert Fills(k.(xoff := x, yoff := y));
    }
  }

  lemma CheckPane(t: Tree, ty: Axis)
    ensures t.kind == WindowPane ==>
              Check(t, ty) == if Size(t, ty) > PANE_MINIMUM then Size(t, ty) - PANE_MINIMUM else 0
  {
  }

  lemma ChecksNone(c: seq<int>)
    ensures Sum(c[..0]) == 0 && MinOf(c[..0], UINT_MAX) == UINT_MAX
  {
  }

  class LayoutCell {
    var kind: Kind
    var parent: LayoutCell?
    var sx: int
    var sy: int
    var xoff: int
    var yoff: int
    var wp: Option<nat>
    var cells: seq<LayoutCell>

    // layout_create_cell
    constructor (lcparent: LayoutCell?)
      ensures parent == lcparent && kind == WindowPane && cells == [] && wp == None
      ensures sx == sy == xoff == yoff == UINT_MAX
    {
      kind, parent, cells, wp := WindowPane, lcparent, [], None;
      sx, sy, xoff, yoff := UINT_MAX, UINT_MAX, UINT_MAX, UINT_MAX;
    }

    // layout_set_size
    method SetSize(sx: int, sy: int, xoff: int, yoff: int)
      modifies this`sx, this`sy, this`xoff, this`yoff
      ensures this.sx == sx && this.sy == sy && this.xoff == xoff && this.yoff == yoff
    {
      this.sx, this.sy, this.xoff, this.yoff := sx, sy, xoff, yoff;
    }

    // layout_resize_check
    method ResizeCheck(ghost s: Shape, ty: Axis) returns (available: int)
      requires s.cell == this && Linked(s) && WellFormed(TreeOf(s)) && Size(TreeOf(s), ty) <= UINT_MAX
      ensures available == Check(TreeOf(s), ty)
      decreases s
    {
      hide WellFormed, Footprint, Linked, KidsOf, Checks, Check, Sum, MinOf;
      ghost var t, c := TreeOf(s), Checks(TreeOf(s).kids, ty);
      FootprintAllocated(s);
      KidCount(s);
      CheckPane(t, ty);
      ChecksNone(c);
      if kind == WindowPane {
        available := if ty == LeftRight then sx else sy;
        if available > PANE_MINIMUM {
          available := available - PANE_MINIMUM;
        } else {
          available := 0;
        }
        return;
      }
      if kind == ty {
        available := 0;
        for i := 0 to |cells|
          invariant Linked(s) && TreeOf(s) == t && |cells| == |c| == |s.kids|
          invariant available == Sum(c[..i])
        {
          KidFits(s, ty, i);
          var a := cells[i].ResizeCheck(s.kids[i], ty);
          available := available + a;
          SumPrefix(c, i);
        }
        CheckAlong(t, ty);
      } else {
        var minimum := UINT_MAX;
        for i := 0 to |cells|
          invariant Linked(s) && TreeOf(s) == t && |cells| == |c| == |s.kids|
          invariant minimum == MinOf(c[..i], UINT_MAX)
        {
          KidFits(s, ty, i);
          available := cells[i].ResizeCheck(s.kids[i], ty);
          MinOfPrefix(c, i, UINT_MAX);
          if available < minimum {
            minimum := available;
          }
        }
        available := minimum;
        CheckLeast(t, ty);
      }
      assert c[..|c|] == c;
    }

    // layout_resize_adjust
    method ResizeAdjust(ghost s: Shape, ty: Axis, change: int)
      requires s.cell == this && Linked(s) && Disjoint(s)
      requires WellFormed(TreeOf(s)) && -change <= Check(TreeOf(s), ty)
      requires change < 0 ==> Size(TreeOf(s), ty) <= UINT_MAX
      modifies Footprint(s)`sx, Footprint(s)`sy
      ensures Linked(s) && TreeOf(s) == Adjust(old(TreeOf(s)), ty, change)
      decreases s, 1
    {
      hide WellFormed, Footprint, Linked, Disjoint, KidsOf, Checks, Check;
      ghost var t := TreeOf(s);
      FootprintAllocated(s);
      if ty == LeftRight {
        sx := sx + change;
      } else {
        sy := sy + change;
      }
      OwnSizeChanged(s);
      if kind != ty {
        AdjustAcross(s, t, ty, change);
      } else {
        AdjustAlong(s, t, ty, change);
      }
    }

    // The same change for every child, when they lie across the axis.
    method AdjustAcross(ghost s: Shape, ghost t: Tree, ty: Axis, change: int)
      requires s.cell == this && Linked(s) && Disjoint(s)
      requires WellFormed(t) && t.kind != ty && KidsOf(s) == t.kids
      requires -change <= Check(t, ty) && (change < 0 ==> Size(t, ty) <= UINT_MAX)
      modifies (Footprint(s) - {this})`sx, (Footprint(s) - {this})`sy
      ensures Linked(s) && KidsOf(s) == Adjust(t, ty, change).kids
      decreases s, 0
    {
      hide WellFormed, Footprint, Linked, Disjoint, KidsOf, Checks, Check, TreeOf;
      ghost var ks := Adjust(t, ty, change).kids;
      KidCount(s);
      var i := 0;
      while i < |cells|
        invariant i <= |cells|
        invariant Linked(s) && |cells| == |s.kids| == |t.kids|
        invariant forall j :: 0 <= j < |t.kids| ==> KidsOf(s)[j] == if j < i then ks[j] else t.kids[j]
      {
        KidOf(s, i);
        DisjointKid(s, i);
        AdjustableKid(t, ty, change, i);
        FootprintAllocated(s);
        label before:
        cells[i].ResizeAdjust(s.kids[i], ty, change);
        ChildChanged@before(s, i);
        i := i + 1;
      }
    }

    // One column or row at a time, round the children that can take it.
    method AdjustAlong(ghost s: Shape, ghost t: Tree, ty: Axis, change: int)
      requires s.cell == this && Linked(s) && Disjoint(s)
      requires WellFormed(t) && t.kind == ty && KidsOf(s) == t.kids
      requires -change <= Check(t, ty) && (change < 0 ==> Size(t, ty) <= UINT_MAX)
      modifies (Footprint(s) - {this})`sx, (Footprint(s) - {this})`sy
      ensures Linked(s) && KidsOf(s) == Adjust(t, ty, change).kids
      decreases s, 0
    {
      hide WellFormed, Footprint, Linked, Disjoint, KidsOf, Checks, Check, TreeOf, RoundRobin, Sharing, Adjust;
      var left := change;
      ShareOutStart(t, ty, change);
      KidCount(s);
      while left != 0
        invariant Linked(s) && |cells| == |s.kids| == |t.kids|
        invariant Sharing(t, ty, change, KidsOf(s), left, 0)
        decreases Magnitude(left)
      {
        ghost var ks, all := KidsOf(s), left;
        AbleInRound(t, ty, change, ks, left);
        var i := 0;
        while i < |cells|
          invariant i <= |cells|
          invariant Linked(s) && |cells| == |s.kids| == |t.kids|
          invariant Sharing(t, ty, change, KidsOf(s), left, i)
          invariant if all > 0 then 0 <= left <= all else all <= left <= 0
          invariant left == all ==> KidsOf(s) == ks && FirstAble(ks, ty, all, i) < |ks|
        {
          if left == 0 {
            break;
          }
          KidOf(s, i);
          DisjointKid(s, i);
          FootprintAllocated(s);
          ShareOutStep(t, ty, change, KidsOf(s), left, i);
          if left > 0 {
            label growing:
            cells[i].ResizeAdjust(s.kids[i], ty, 1);
            ChildChanged@growing(s, i);
            left := left - 1;
          } else {
            var available := cells[i].ResizeCheck(s.kids[i], ty);
            if available > 0 {
              label shrinking:
              cells[i].ResizeAdjust(s.kids[i], ty, -1);
              ChildChanged@shrinking(s, i);
              left := left + 1;
            }
          }
          i := i + 1;
        }
        ShareOutWrap(t, ty, change, KidsOf(s), left, i);
      }
      ShareOutEnd(t, ty, change, KidsOf(s));
    }

    // layout_fix_offsets
    method FixChildOffsets(ghost s: Shape)
      requires s.cell == this && Linked(s) && Disjoint(s) && WellFormed(TreeOf(s))
      modifies (Footprint(s) - {this})`xoff, (Footprint(s) - {this})`yoff
      ensures Linked(s) && TreeOf(s) == FixOffsets(old(TreeOf(s)))
      decreases s
    {
      hide WellFormed, Footprint, Linked, Disjoint, KidsOf, Checks, Sum, Fix, FixOffsets, Start;
      ghost var t, u := TreeOf(s), FixOffsets(TreeOf(s));
      FixedKids(t);
      KidCount(s);
      ghost var across := if kind == LeftRight then LeftRight else TopBottom;
      var x, y := xoff, yoff;
      StartZero(t.kids, across);
      var i := 0;
      while i < |cells|
        invariant i <= |cells|
        invariant Linked(s) && |cells| == |s.kids| == |t.kids| == |u.kids|
        invariant if kind == LeftRight then x == xoff + Start(t.kids, across, i) && y == yoff
                  else x == xoff && y == yoff + Start(t.kids, across, i)
        invariant forall j :: 0 <= j < |t.kids| ==> KidsOf(s)[j] == if j < i then u.kids[j] else t.kids[j]
      {
        KidOf(s, i);
        DisjointKid(s, i);
        KidsWellFormed(t);
        StartNext(t.kids, across, i);
        FootprintAllocated(s);
        var child := cells[i];
        label before:
        child.xoff := x;
        child.yoff := y;
        OwnSizeChanged@before(s.kids[i]);
        FixMoved(t.kids[i], x, y);
        if child.kind != WindowPane {
          MovedWellFormed(t.kids[i], x, y);
          child.FixChildOffsets(s.kids[i]);
        } else {
          FixPane(t.kids[i], x, y);
        }
        ChildChanged@before(s, i);
        if kind == LeftRight {
          x := x + child.sx + 1;
        } else {
          y := y + child.sy + 1;
        }
        i := i + 1;
      }
      assert KidsOf(s) == u.kids;
    }
  }
}
