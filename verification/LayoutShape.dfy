// Rewriting part of a linked layout: what the cells denote after the cells
// below one place have been relinked.
module LayoutShape {
  import opened Sums
  import opened LayoutTree
  import opened LayoutOps
  import opened LayoutCell

  predicate ValidShapePath(s: Shape, p: Path)
    decreases |p|
  {
    p == [] || (p[0] < |s.kids| && ValidShapePath(s.kids[p[0]], p[1..]))
  }

  function ShapeAt(s: Shape, p: Path): Shape
    requires ValidShapePath(s, p)
    decreases |p|
  {
    if p == [] then s else ShapeAt(s.kids[p[0]], p[1..])
  }

  // The cell whose child list holds the cell at p.
  function HolderOf(s: Shape, p: Path): LayoutCell
    requires ValidShapePath(s, p) && p != []
    decreases |p|
  {
    if |p| == 1 then s.cell else HolderOf(s.kids[p[0]], p[1..])
  }

  function PutShape(s: Shape, p: Path, u: Shape): Shape
    requires ValidShapePath(s, p)
    decreases |p|
  {
    if p == [] then u else Shape(s.cell, s.kids[p[0] := PutShape(s.kids[p[0]], p[1..], u)])
  }

  function PutTree(t: Tree, p: Path, u: Tree): Tree
    requires ValidPath(t, p)
    decreases |p|
  {
    if p == [] then u else t.(kids := t.kids[p[0] := PutTree(t.kids[p[0]], p[1..], u)])
  }

  lemma {:induction false} TreeAtShape(s: Shape, p: Path)
    requires ValidShapePath(s, p)
    ensures ValidPath(TreeOf(s), p) && At(TreeOf(s), p) == TreeOf(ShapeAt(s, p))
    ensures Footprint(ShapeAt(s, p)) <= Footprint(s)
    ensures Disjoint(s) ==> Disjoint(ShapeAt(s, p))
    ensures Linked(s) ==> Linked(ShapeAt(s, p))
    ensures Disjoint(s) && p != [] ==> s.cell !in Footprint(ShapeAt(s, p))
    decreases |p|
  {
    if p != [] {
      TreeAtShape(s.kids[p[0]], p[1..]);
    }
  }

  // A cell's parent pointer leads to the cell that holds it.
  lemma {:induction false} HolderIsParent(s: Shape, p: Path)
    requires ValidShapePath(s, p) && Linked(s) && p != []
    ensures ShapeAt(s, p).cell.parent == HolderOf(s, p)
    decreases |p|
  {
    if |p| > 1 {
      HolderIsParent(s.kids[p[0]], p[1..]);
    } else {
      assert p[1..] == [];
      assert ShapeAt(s.kids[p[0]], p[1..]) == s.kids[p[0]];
    }
  }

  lemma {:induction false} ExtendPath(s: Shape, q: Path, i: nat)
    requires ValidShapePath(s, q + [i])
    ensures ValidShapePath(s, q) && i < |ShapeAt(s, q).kids|
    ensures ShapeAt(s, q + [i]) == ShapeAt(s, q).kids[i] && HolderOf(s, q + [i]) == ShapeAt(s, q).cell
    decreases |q|
  {
    if q == [] {
      assert (q + [i])[1..] == [];
      assert ShapeAt(s.kids[i], (q + [i])[1..]) == s.kids[i];
    } else {
      assert (q + [i])[1..] == q[1..] + [i];
      ExtendPath(s.kids[q[0]], q[1..], i);
    }
  }

  // Everything but the child list is as it was.
  twostate predicate OnlyRelinked(c: LayoutCell)
    reads c
  {
    && c.kind == old(c.kind) && c.parent == old(c.parent) && c.wp == old(c.wp)
    && c.sx == old(c.sx) && c.sy == old(c.sy) && c.xoff == old(c.xoff) && c.yoff == old(c.yoff)
  }

  // The cells outside the part at p are as they were, except that the holder
  // of that part now holds `to` in its place.
  twostate predicate OutsideKept(s: Shape, new p: Path, new to: LayoutCell)
    requires ValidShapePath(s, p)
    reads Footprint(s)
  {
    forall c :: c in Footprint(s) && c !in Footprint(ShapeAt(s, p)) ==>
      && old(allocated(c))
      && if p != [] && c == HolderOf(s, p) then
           && OnlyRelinked(c)
           && 0 <= p[|p| - 1] < |old(c.cells)| && c.cells == old(c.cells)[p[|p| - 1] := to]
         else unchanged(c)
  }

  // Child i's part of the footprint may be exchanged for cells from elsewhere.
  lemma DisjointReplace(s: Shape, i: nat, k: Shape)
    requires Disjoint(s) && i < |s.kids| && Disjoint(k)
    requires Footprint(k) * Footprint(s) <= Footprint(s.kids[i])
    ensures var r := Shape(s.cell, s.kids[i := k]);
            Disjoint(r) && Footprint(r) <= Footprint(s) + Footprint(k)
  {
    var ks := s.kids[i := k];
    DisjointKid(s, i);
    forall j, l | 0 <= j < l < |ks| ensures Footprint(ks[j]) !! Footprint(ks[l]) {
      DisjointKid(s, j);
      DisjointKid(s, l);
    }
    forall j | 0 <= j < |ks| ensures s.cell !in Footprint(ks[j]) && Disjoint(ks[j]) {
      DisjointKid(s, j);
    }
  }

  // One level of relinking: the cell itself and its other children are kept.
  twostate lemma ReplaceTree(s: Shape, new i: nat, new k: Shape)
    requires Disjoint(s) && i < |s.kids|
    requires OnlyRelinked(s.cell)
    requires forall c :: c in Footprint(s) && c !in Footprint(s.kids[i]) && c != s.cell ==>
               old(allocated(c)) && unchanged(c)
    ensures var r := Shape(s.cell, s.kids[i := k]);
            TreeOf(r) == old(TreeOf(s)).(kids := old(TreeOf(s)).kids[i := TreeOf(k)])
    ensures old(Linked(s)) && Linked(k) && k.cell.parent == s.cell && s.cell.cells == old(s.cell.cells)[i := k.cell]
            ==> Linked(Shape(s.cell, s.kids[i := k]))
  {
    hide Footprint, Disjoint;
    var r := Shape(s.cell, s.kids[i := k]);
    assert OthersKept(s, i);
    forall j | 0 <= j < |s.kids| && j != i
      ensures TreeOf(s.kids[j]) == old(TreeOf(s.kids[j]))
      ensures Linked(s.kids[j]) <==> old(Linked(s.kids[j]))
      ensures s.kids[j].cell.parent == old(s.kids[j].cell.parent)
    {
      OtherKid(s, i, j);
    }
    assert KidsOf(r) == old(KidsOf(s))[i := TreeOf(k)];
  }

  lemma {:induction false} HolderWithin(s: Shape, p: Path)
    requires ValidShapePath(s, p) && p != []
    ensures HolderOf(s, p) in Footprint(s)
    decreases |p|
  {
    if |p| > 1 {
      HolderWithin(s.kids[p[0]], p[1..]);
    }
  }

  // What is kept outside the part at p, seen from child p[0].
  twostate lemma DescendKept(s: Shape, new p: Path, new to: LayoutCell)
    requires ValidShapePath(s, p) && p != [] && Disjoint(s) && OutsideKept(s, p, to)
    ensures var k := s.kids[p[0]];
            && OutsideKept(k, p[1..], to)
            && (forall c :: c in Footprint(s) && c !in Footprint(k) && c != s.cell ==>
                  old(allocated(c)) && unchanged(c))
            && OnlyRelinked(s.cell)
            && if |p| == 1 then p[0] < |old(s.cell.cells)| && s.cell.cells == old(s.cell.cells)[p[0] := to]
               else s.cell.cells == old(s.cell.cells)
  {
    hide Footprint, Disjoint, Linked, TreeOf, KidsOf;
    var k := s.kids[p[0]];
    DisjointKid(s, p[0]);
    TreeAtShape(k, p[1..]);
    assert s.cell in Footprint(s);
    if |p| > 1 {
      HolderWithin(k, p[1..]);
    } else {
      assert p[1..] == [];
    }
  }

  twostate lemma OldKid(s: Shape, new i: nat)
    requires i < |s.kids|
    ensures old(TreeOf(s)).kids[i] == old(TreeOf(s.kids[i])) && |old(TreeOf(s)).kids| == |s.kids|
    ensures old(Linked(s)) ==> old(Linked(s.kids[i])) && |old(s.cell.cells)| == |s.kids|
    ensures old(Linked(s)) ==> old(s.cell.cells)[i] == s.kids[i].cell && old(s.kids[i].cell.parent) == s.cell
  {
  }

  twostate lemma {:induction false} Relink(s: Shape, new p: Path, new u: Shape)
    requires ValidShapePath(s, p) && Disjoint(s) && Disjoint(u)
    requires Footprint(u) * Footprint(s) <= Footprint(ShapeAt(s, p))
    requires OutsideKept(s, p, u.cell)
    requires u.cell.parent == old(ShapeAt(s, p).cell.parent)
    ensures var r := PutShape(s, p, u);
            && Disjoint(r) && Footprint(r) <= Footprint(s) + Footprint(u)
            && r.cell.parent == old(s.cell.parent)
            && if p == [] then r == u else r.cell == s.cell
    ensures old(Linked(s)) && Linked(u) ==> Linked(PutShape(s, p, u))
    ensures ValidPath(old(TreeOf(s)), p) && TreeOf(PutShape(s, p, u)) == PutTree(old(TreeOf(s)), p, TreeOf(u))
    decreases |p|
  {
    hide Footprint, Disjoint, KidsOf, TreeOf;
    if p != [] {
      var i, k := p[0], s.kids[p[0]];
      DisjointKid(s, i);
      DescendKept(s, p, u.cell);
      TreeAtShape(k, p[1..]);
      Relink(k, p[1..], u);
      DisjointReplace(s, i, PutShape(k, p[1..], u));
      ReplaceTree(s, i, PutShape(k, p[1..], u));
      OldKid(s, i);
      assert |p| == 1 ==> PutShape(k, p[1..], u) == u;
    }
  }

  function CellsOf(m: seq<Shape>): (r: seq<LayoutCell>)
    ensures |r| == |m| && forall j :: 0 <= j < |m| ==> r[j] == m[j].cell
  {
    seq(|m|, j requires 0 <= j < |m| => m[j].cell)
  }

  // s with the part below child i replaced by a run of parts.
  function SplicedShape(s: Shape, i: nat, m: seq<Shape>): Shape
    requires i < |s.kids|
  {
    Shape(s.cell, Spliced(s.kids, i, m))
  }

  lemma DisjointSplice(s: Shape, i: nat, m: seq<Shape>)
    requires Disjoint(s) && i < |s.kids| && Disjoint(Shape(s.cell, m))
    requires Footprint(Shape(s.cell, m)) * Footprint(s) <= {s.cell} + Footprint(s.kids[i])
    ensures Disjoint(SplicedShape(s, i, m))
    ensures Footprint(SplicedShape(s, i, m)) <= Footprint(s) + Footprint(Shape(s.cell, m))
  {
    hide Spliced, Linked, TreeOf;
    var n := Shape(s.cell, m);
    var ks := Spliced(s.kids, i, m);
    DisjointKid(s, i);
    forall j, l | 0 <= j < l < |ks| ensures Footprint(ks[j]) !! Footprint(ks[l]) {
      SplicedApart(s, i, m, j, l);
    }
    forall j | 0 <= j < |ks|
      ensures s.cell !in Footprint(ks[j]) && Disjoint(ks[j]) && Footprint(ks[j]) <= Footprint(s) + Footprint(n)
    {
      SplicedAt(s.kids, i, m, j);
      if i <= j < i + |m| {
        DisjointKid(n, j - i);
      } else {
        DisjointKid(s, if j < i then j else j + 1 - |m|);
      }
    }
  }

  lemma KidsApart(s: Shape, j: nat, l: nat)
    requires Disjoint(s) && j < |s.kids| && l < |s.kids| && j != l
    ensures Footprint(s.kids[j]) !! Footprint(s.kids[l])
  {
  }

  lemma SplicedApart(s: Shape, i: nat, m: seq<Shape>, j: nat, l: nat)
    requires Disjoint(s) && i < |s.kids| && Disjoint(Shape(s.cell, m))
    requires Footprint(Shape(s.cell, m)) * Footprint(s) <= {s.cell} + Footprint(s.kids[i])
    requires j < l < |s.kids| + |m| - 1
    ensures Footprint(Spliced(s.kids, i, m)[j]) !! Footprint(Spliced(s.kids, i, m)[l])
  {
    hide Spliced, Footprint, Disjoint;
    var n := Shape(s.cell, m);
    var j', l' := if j < i then j else j + 1 - |m|, if l < i then l else l + 1 - |m|;
    SplicedAt(s.kids, i, m, j);
    SplicedAt(s.kids, i, m, l);
    var jIn, lIn := i <= j < i + |m|, i <= l < i + |m|;
    if jIn && lIn {
      KidsApart(n, j - i, l - i);
    } else if jIn {
      SplicedCross(s, i, m, j - i, l');
    } else if lIn {
      SplicedCross(s, i, m, l - i, j');
    } else {
      KidsApart(s, j', l');
    }
  }

  lemma SplicedCross(s: Shape, i: nat, m: seq<Shape>, a: nat, l: nat)
    requires Disjoint(s) && i < |s.kids| && Disjoint(Shape(s.cell, m)) && a < |m| && l < |s.kids| && l != i
    requires Footprint(Shape(s.cell, m)) * Footprint(s) <= {s.cell} + Footprint(s.kids[i])
    ensures Footprint(m[a]) !! Footprint(s.kids[l])
  {
    hide Footprint, Disjoint;
    DisjointKid(Shape(s.cell, m), a);
    DisjointKid(s, l);
    KidsApart(s, i, l);
    forall c | c in Footprint(m[a]) ensures c !in Footprint(s.kids[l]) {
      if c in Footprint(s) {
        assert c in Footprint(Shape(s.cell, m)) * Footprint(s);
      }
    }
  }

  // Only child i's part and the cell itself may have changed.
  twostate predicate OthersKept(s: Shape, new i: nat)
    requires i < |s.kids|
    reads Footprint(s)
  {
    forall c :: c in Footprint(s) && c !in Footprint(s.kids[i]) && c != s.cell ==> old(allocated(c)) && unchanged(c)
  }

  twostate lemma OtherKid(s: Shape, new i: nat, new j: nat)
    requires Disjoint(s) && i < |s.kids| && j < |s.kids| && j != i && OthersKept(s, i)
    ensures TreeOf(s.kids[j]) == old(TreeOf(s.kids[j]))
    ensures Linked(s.kids[j]) <==> old(Linked(s.kids[j]))
    ensures s.kids[j].cell.parent == old(s.kids[j].cell.parent)
  {
    DisjointKid(s, j);
    KidsApart(s, i, j);
  }

  twostate lemma SpliceTree(s: Shape, new i: nat, new m: seq<Shape>)
    requires Disjoint(s) && i < |s.kids| && OthersKept(s, i)
    ensures KidsOf(SplicedShape(s, i, m)) == Spliced(old(KidsOf(s)), i, KidsOf(Shape(s.cell, m)))
  {
    hide Spliced, Footprint, Disjoint, Linked, OthersKept;
    var r, n := SplicedShape(s, i, m), Shape(s.cell, m);
    forall j | 0 <= j < |r.kids|
      ensures KidsOf(r)[j] == Spliced(old(KidsOf(s)), i, KidsOf(n))[j]
    {
      SplicedAt(s.kids, i, m, j);
      SplicedAt(old(KidsOf(s)), i, KidsOf(n), j);
      if j < i {
        OtherKid(s, i, j);
      } else if j >= i + |m| {
        OtherKid(s, i, j + 1 - |m|);
      }
    }
  }

  twostate lemma SpliceLinked(s: Shape, new i: nat, new m: seq<Shape>)
    requires Disjoint(s) && i < |s.kids| && OthersKept(s, i)
    requires forall j :: 0 <= j < |m| ==> Linked(m[j]) && m[j].cell.parent == s.cell
    requires |old(s.cell.cells)| == |s.kids| && s.cell.cells == Spliced(old(s.cell.cells), i, CellsOf(m))
    ensures old(Linked(s)) ==> Linked(SplicedShape(s, i, m))
  {
    hide Spliced, Footprint, Disjoint, OthersKept;
    var r := SplicedShape(s, i, m);
    if old(Linked(s)) {
      forall j | 0 <= j < |r.kids|
        ensures Linked(r.kids[j]) && s.cell.cells[j] == r.kids[j].cell && r.kids[j].cell.parent == s.cell
      {
        SplicedAt(s.kids, i, m, j);
        SplicedAt(old(s.cell.cells), i, CellsOf(m), j);
        if j < i {
          OtherKid(s, i, j);
        } else if j >= i + |m| {
          OtherKid(s, i, j + 1 - |m|);
        }
      }
    }
  }

  // ------------------------------------------------------------------
  // The two ways a layout is relinked

  // A change within the part at p that leaves its own cell in place.
  twostate lemma ChangedWithin(s: Shape, new p: Path)
    requires ValidShapePath(s, p) && Disjoint(s) && old(Linked(s))
    requires forall c :: c in Footprint(s) && c !in Footprint(ShapeAt(s, p)) ==> old(allocated(c)) && unchanged(c)
    ensures OutsideKept(s, p, ShapeAt(s, p).cell)
  {
    hide Footprint, Disjoint, Linked;
    if p != [] && HolderOf(s, p) !in Footprint(ShapeAt(s, p)) {
      HolderWithin(s, p);
      OldHolderHolds(s, p);
    }
  }

  twostate lemma {:induction false} OldHolderHolds(s: Shape, new p: Path)
    requires ValidShapePath(s, p) && old(Linked(s)) && p != []
    ensures p[|p| - 1] < |old(HolderOf(s, p).cells)|
    ensures old(HolderOf(s, p).cells)[p[|p| - 1]] == ShapeAt(s, p).cell
    decreases |p|
  {
    if |p| > 1 {
      OldHolderHolds(s.kids[p[0]], p[1..]);
    } else {
      assert p[1..] == [];
      assert ShapeAt(s.kids[p[0]], p[1..]) == s.kids[p[0]];
    }
  }

  // A new pane's cell c has been linked in after child i, itself a pane.
  twostate lemma PaneInserted(s: Shape, new i: nat, new c: LayoutCell)
    requires Disjoint(s) && i < |s.kids| && s.kids[i].kids == [] && old(Linked(s)) && OthersKept(s, i)
    requires c !in Footprint(s) && c.cells == [] && c.parent == s.cell
    requires s.kids[i].cell.parent == s.cell && s.kids[i].cell.cells == []
    requires |old(s.cell.cells)| == |s.kids| && s.cell.cells == Spliced(old(s.cell.cells), i, [s.kids[i].cell, c])
    ensures var u := SplicedShape(s, i, [s.kids[i], Shape(c, [])]);
            && Disjoint(u) && Linked(u) && Footprint(u) <= Footprint(s) + {c}
            && KidsOf(u) == Spliced(old(KidsOf(s)), i, [TreeOf(s.kids[i]), TreeOf(Shape(c, []))])
  {
    hide Spliced, Footprint, Disjoint, OthersKept, KidsOf;
    var m := [s.kids[i], Shape(c, [])];
    PairDisjoint(s, i, c);
    DisjointKid(s, i);
    assert s.cell in Footprint(s);
    DisjointSplice(s, i, m);
    SpliceTree(s, i, m);
    PairTrees(s.cell, s.kids[i], Shape(c, []));
    assert CellsOf(m) == [s.kids[i].cell, c];
    PaneLinked(s.kids[i]);
    PaneLinked(Shape(c, []));
    SpliceLinked(s, i, m);
  }

  lemma PaneLinked(k: Shape)
    requires k.kids == [] && k.cell.cells == []
    ensures Linked(k)
  {
  }

  lemma PairTrees(c: LayoutCell, a: Shape, b: Shape)
    ensures KidsOf(Shape(c, [a, b])) == [TreeOf(a), TreeOf(b)]
  {
  }

  lemma AloneDisjoint(k: Shape)
    requires k.kids == []
    ensures Footprint(k) == {k.cell} && Disjoint(k)
  {
  }

  lemma PairFootprint(c: LayoutCell, a: Shape, b: Shape)
    ensures Footprint(Shape(c, [a, b])) == {c} + Footprint(a) + Footprint(b)
  {
    var n := Shape(c, [a, b]);
    assert n.kids[0] == a && n.kids[1] == b;
  }

  lemma PairDisjoint(s: Shape, i: nat, c: LayoutCell)
    requires Disjoint(s) && i < |s.kids| && s.kids[i].kids == [] && c !in Footprint(s)
    ensures var n := Shape(s.cell, [s.kids[i], Shape(c, [])]);
            Disjoint(n) && Footprint(n) == {s.cell, s.kids[i].cell, c}
    ensures Footprint(s.kids[i]) == {s.kids[i].cell}
  {
    hide Footprint;
    DisjointKid(s, i);
    AloneDisjoint(s.kids[i]);
    AloneDisjoint(Shape(c, []));
    PairFootprint(s.cell, s.kids[i], Shape(c, []));
  }
}
