// Fitting a parsed layout to the number of panes there are: surplus cells are
// closed from the bottom right. Sizes in a layout string need not add up.
module LayoutTrim {
  import opened Common
  import opened Sums
  import opened LayoutTree
  import opened LayoutEnds
  import opened LayoutGeometry
  import opened LayoutOps
  import opened LayoutPanes

  // layout_find_bottomright
  function BottomRight(t: Tree): (p: Path)
    requires Branching(t)
    ensures PaneAt(t, p)
    decreases t
  {
    if t.kind == WindowPane then []
    else
      var i := |t.kids| - 1;
      var p := BottomRight(t.kids[i]);
      assert ([i] + p)[1..] == p;
      [i] + p
  }

  // layout_count_cells
  method CountCells(t: Tree) returns (n: nat)
    ensures n == |Panes(t)|
    decreases t
  {
    if t.kind == WindowPane {
      return 1;
    }
    n := 0;
    for i := 0 to |t.kids|
      invariant n == |Flat(PanesEach(t.kids)[..i])|
    {
      var k := CountCells(t.kids[i]);
      n := n + k;
      assert PanesEach(t.kids)[..i + 1][..i] == PanesEach(t.kids)[..i];
    }
    assert PanesEach(t.kids)[..|t.kids|] == PanesEach(t.kids);
  }

  // The bottom right cell holds the last pane.
  lemma {:induction false} BottomRightLast(t: Tree)
    requires Branching(t)
    ensures |Panes(t)| > 0 && PaneIndex(t, BottomRight(t)) == |Panes(t)| - 1
    decreases t
  {
    if t.kind != WindowPane {
      var i := |t.kids| - 1;
      BottomRightLast(t.kids[i]);
      PanesAround(t.kids, i);
      assert PanesEach(t.kids)[i + 1..] == [];
      assert ([i] + BottomRight(t.kids[i]))[1..] == BottomRight(t.kids[i]);
    }
  }

  lemma ManyPanes(t: Tree)
    requires Branching(t) && |Panes(t)| > 1
    ensures BottomRight(t) != []
  {
  }

  lemma DropLast<T>(s: seq<T>)
    requires s != []
    ensures Spliced(s, |s| - 1, []) == s[..|s| - 1]
  {
  }

  // ------------------------------------------------------------------
  // How large anything can become

  // The size a cell would need to have room for all below it, its own if that
  // is more. Where the sizes add up it is the size.
  function Extent(t: Tree, ty: Axis): (n: nat)
    ensures n >= Size(t, ty)
    decreases t
  {
    if t.kind == WindowPane then Max(0, Size(t, ty))
    else if t.kind == ty then
      SumBounds(Extents(t.kids, ty));
      Max(Max(0, Size(t, ty)), Sum(Extents(t.kids, ty)) + |t.kids| - 1)
    else Max(Max(0, Size(t, ty)), MaxOf(Extents(t.kids, ty)))
  }

  function Extents(ks: seq<Tree>, ty: Axis): (r: seq<int>)
    ensures |r| == |ks| && forall i :: 0 <= i < |ks| ==> r[i] >= 0 && r[i] == Extent(ks[i], ty)
    decreases ks
  {
    seq(|ks|, i requires 0 <= i < |ks| => Extent(ks[i], ty))
  }

  // The extent of u is at most d more than that of t.
  ghost predicate Reaches(t: Tree, u: Tree, ty: Axis, d: int) {
    Extent(u, ty) <= Extent(t, ty) + d
  }

  lemma ReachAlong(t: Tree, u: Tree, ty: Axis, d: nat)
    requires t.kind == u.kind == ty && |u.kids| <= |t.kids|
    requires Size(u, ty) <= Size(t, ty) + d
    requires Sum(Extents(u.kids, ty)) + |u.kids| <= Sum(Extents(t.kids, ty)) + |t.kids| + d
    ensures Reaches(t, u, ty, d)
  {
  }

  lemma ReachAcross(t: Tree, u: Tree, ty: Axis, d: nat)
    requires t.kind == u.kind == Other(ty) && Size(u, ty) <= Size(t, ty) + d
    requires forall i :: 0 <= i < |u.kids| ==> Extent(u.kids[i], ty) <= Extent(t, ty) + d
    ensures Reaches(t, u, ty, d)
  {
    MaxOfIsLeast(Extents(u.kids, ty), Extent(t, ty) + d);
  }

  lemma ReachEach(t: Tree, u: Tree, ty: Axis, d: nat)
    requires t.kind == u.kind == Other(ty) && |u.kids| == |t.kids| && Size(u, ty) <= Size(t, ty) + d
    requires forall i :: 0 <= i < |t.kids| ==> Reaches(t.kids[i], u.kids[i], ty, d)
    ensures Reaches(t, u, ty, d)
  {
    hide Reaches, Extent;
    forall i | 0 <= i < |u.kids| ensures Extent(u.kids[i], ty) <= Extent(t, ty) + d {
      ReachesIs(t.kids[i], u.kids[i], ty, d);
      KidExtent(t, i, ty);
    }
    ReachAcross(t, u, ty, d);
  }

  lemma ReachesIs(t: Tree, u: Tree, ty: Axis, d: int)
    ensures Reaches(t, u, ty, d) <==> Extent(u, ty) <= Extent(t, ty) + d
  {
  }

  lemma KidExtent(t: Tree, i: nat, ty: Axis)
    requires i < |t.kids| && t.kind != WindowPane
    ensures Extent(t.kids[i], ty) <= Extent(t, ty)
  {
    hide Extent;
    var e := Extents(t.kids, ty);
    assert e[i] == Extent(t.kids[i], ty);
    SumBounds(e);
    MaxOfBelow(e);
    ContainerExtent(t, ty);
  }

  lemma ContainerExtent(t: Tree, ty: Axis)
    requires t.kind != WindowPane
    ensures var e := Extents(t.kids, ty);
            Extent(t, ty) == Max(Max(0, Size(t, ty)), if t.kind == ty then Sum(e) + |t.kids| - 1 else MaxOf(e))
  {
  }

  lemma {:induction false} MaxOfBelow(s: seq<int>)
    ensures forall i :: 0 <= i < |s| ==> s[i] <= MaxOf(s)
  {
    if s != [] {
      MaxOfBelow(s[..|s| - 1]);
    }
  }

  // Where the sizes add up, nothing needs more than there is.
  lemma {:induction false} WellFormedExtent(t: Tree, ty: Axis)
    requires WellFormed(t)
    ensures Extent(t, ty) == Size(t, ty)
    decreases t
  {
    hide Extent;
    if t.kind == WindowPane {
      PaneExtent(t, ty);
    } else {
      ContainerExtent(t, ty);
      assert Fills(t);
      forall i | 0 <= i < |t.kids| ensures Extent(t.kids[i], ty) == Size(t.kids[i], ty) {
        WellFormedExtent(t.kids[i], ty);
      }
      assert Extents(t.kids, ty) == Sizes(t.kids, ty);
      if t.kind != ty {
        MaxOfIsLeast(Sizes(t.kids, ty), Size(t, ty));
      }
    }
  }

  // And no more can be given up than there is.
  lemma {:induction false} CheckExtent(t: Tree, ty: Axis)
    requires Shaped(t)
    ensures Check(t, ty) <= Extent(t, ty)
    decreases t
  {
    hide Extent;
    if t.kind == WindowPane {
      PaneExtent(t, ty);
    } else {
      ContainerExtent(t, ty);
      forall i | 0 <= i < |t.kids| ensures Check(t.kids[i], ty) <= Extent(t.kids[i], ty) {
        CheckExtent(t.kids[i], ty);
      }
      if t.kind == ty {
        SumPointwise(Checks(t.kids, ty), Extents(t.kids, ty));
      } else {
        CheckAcross(t, ty, 0);
        KidExtent(t, 0, ty);
      }
    }
  }

  lemma PaneExtent(t: Tree, ty: Axis)
    requires t.kind == WindowPane
    ensures Extent(t, ty) == Max(0, Size(t, ty))
  {
  }

  // One child's extent changes, the others' do not.
  lemma ExtentsUpdate(ks: seq<Tree>, i: nat, k: Tree, ty: Axis)
    requires i < |ks|
    ensures Sum(Extents(ks[i := k], ty)) == Sum(Extents(ks, ty)) - Extent(ks[i], ty) + Extent(k, ty)
  {
    hide Extent;
    assert Extents(ks[i := k], ty) == Extents(ks, ty)[i := Extent(k, ty)];
    SumUpdate(Extents(ks, ty), i, Extent(k, ty));
  }

  // A change of ty by d reaches no further than that, and not across.
  ghost predicate Within(t: Tree, u: Tree, ty: Axis, d: int) {
    Reaches(t, u, ty, d) && Reaches(t, u, Other(ty), 0)
  }

  lemma WithinAcross(t: Tree, u: Tree, ty: Axis, d: nat)
    requires t.kind == u.kind == Other(ty) && |u.kids| == |t.kids|
    requires Size(u, ty) == Size(t, ty) + d && Size(u, Other(ty)) == Size(t, Other(ty))
    requires forall i :: 0 <= i < |t.kids| ==> Within(t.kids[i], u.kids[i], ty, d)
    ensures Within(t, u, ty, d)
  {
    hide Extent, Reaches;
    ReachEach(t, u, ty, d);
    forall i | 0 <= i < |u.kids| ensures Extent(u.kids[i], Other(ty)) <= Extent(t.kids[i], Other(ty)) {
      ReachesIs(t.kids[i], u.kids[i], Other(ty), 0);
    }
    SumPointwise(Extents(u.kids, Other(ty)), Extents(t.kids, Other(ty)));
    ReachAlong(t, u, Other(ty), 0);
  }

  lemma WithinAlong(t: Tree, u: Tree, ty: Axis, d: nat)
    requires t.kind == u.kind == ty && |u.kids| == |t.kids|
    requires Size(u, ty) == Size(t, ty) + d && Size(u, Other(ty)) == Size(t, Other(ty))
    requires Sum(Extents(u.kids, ty)) <= Sum(Extents(t.kids, ty)) + d
    requires forall i :: 0 <= i < |t.kids| ==> Reaches(t.kids[i], u.kids[i], Other(ty), 0)
    ensures Within(t, u, ty, d)
  {
    hide Extent;
    ReachAlong(t, u, ty, d);
    ReachEach(t, u, Other(ty), 0);
  }

  lemma {:induction false} StepExtent(t: Tree, ty: Axis)
    requires Branching(t)
    ensures Within(t, Step(t, ty, 1), ty, 1)
    decreases t
  {
    hide Extent;
    var u := Step(t, ty, 1);
    if t.kind == WindowPane {
      PaneExtent(t, ty);
      PaneExtent(u, ty);
      PaneExtent(t, Other(ty));
      PaneExtent(u, Other(ty));
    } else if t.kind == ty {
      StepExtent(t.kids[0], ty);
      ExtentsUpdate(t.kids, 0, u.kids[0], ty);
      WithinAlong(t, u, ty, 1);
    } else {
      forall i | 0 <= i < |t.kids| ensures Within(t.kids[i], u.kids[i], ty, 1) {
        StepExtent(t.kids[i], ty);
      }
      WithinAcross(t, u, ty, 1);
    }
  }

  // What a change that grows makes of a tree that branches.
  lemma SteppedBranching(t: Tree, u: Tree, ty: Axis, d: nat)
    requires Branching(t) && Stepped(t, u, ty, d)
    ensures Branching(u) && Size(u, ty) == Size(t, ty) + d && Size(u, Other(ty)) == Size(t, Other(ty))
  {
    hide Branching, WellFormed, Shaped, Check, Reshaped, Uses;
  }

  lemma {:induction false} RoundRobinExtent(ks: seq<Tree>, ty: Axis, change: nat, i: nat)
    requires ks != [] && i <= |ks| && AllBranching(ks) && 0 <= Sum(Checks(ks, ty))
    ensures var rs := RoundRobin(ks, ty, change, i);
            && |rs| == |ks|
            && Sum(Extents(rs, ty)) <= Sum(Extents(ks, ty)) + change
            && forall j :: 0 <= j < |ks| ==> Reaches(ks[j], rs[j], Other(ty), 0)
    decreases change, if i == |ks| then 1 else 0
  {
    hide Step, Branching, Shaped, Extent, Stepped, Sum, Check, FirstAble;
    if change == 0 {
    } else if i == |ks| {
      RoundRobinExtent(ks, ty, change, 0);
    } else {
      var k := Step(ks[i], ty, 1);
      StepCorrect(ks[i], ty, 1);
      SteppedBranching(ks[i], k, ty, 1);
      StepExtent(ks[i], ty);
      ExtentsUpdate(ks, i, k, ty);
      SumBounds(Checks(ks[i := k], ty));
      RoundRobinExtent(ks[i := k], ty, change - 1, i + 1);
    }
  }

  lemma {:induction false} AdjustExtent(t: Tree, ty: Axis, change: nat)
    requires Branching(t)
    ensures Within(t, Adjust(t, ty, change), ty, change)
    decreases t
  {
    hide Extent, RoundRobin, Within, Reaches, Check;
    var u := Adjust(t, ty, change);
    if t.kind == WindowPane {
      PaneWithin(t, u, ty, change);
    } else if t.kind == ty {
      SumBounds(Checks(t.kids, ty));
      RoundRobinExtent(t.kids, ty, change, 0);
      WithinAlong(t, u, ty, change);
    } else {
      forall i | 0 <= i < |t.kids| ensures Within(t.kids[i], u.kids[i], ty, change) {
        AdjustExtent(t.kids[i], ty, change);
      }
      WithinAcross(t, u, ty, change);
    }
  }

  lemma PaneWithin(t: Tree, u: Tree, ty: Axis, d: nat)
    requires t.kind == u.kind == WindowPane
    requires Size(u, ty) == Size(t, ty) + d && Size(u, Other(ty)) == Size(t, Other(ty))
    ensures Within(t, u, ty, d)
  {
  }

  // ------------------------------------------------------------------
  // Destroying a cell

  lemma WithoutKids(ks: seq<Tree>, ty: Axis, i: nat)
    requires i < |ks| && Heir(i) < |ks| && AllBranching(ks)
    ensures var rs := Without(ks, ty, i);
            && |rs| == |ks| - 1 && AllBranching(rs)
            && Sum(Extents(rs, ty)) <= Sum(Extents(ks, ty)) + 1
            && forall j :: 0 <= j < |rs| ==> Reaches(ks[Skip(i, j)], rs[j], Other(ty), 0)
  {
    hide Branching, Shaped, Extent, Adjust, Spliced, Reaches, Stepped, Sum, Check;
    KidsBranching(ks[i]);
    var h, g := Heir(i), Size(ks[i], ty) + 1;
    var k := Adjust(ks[h], ty, g);
    AdjustCorrect(ks[h], ty, g);
    SteppedBranching(ks[h], k, ty, g);
    AdjustExtent(ks[h], ty, g);
    ReachesIs(ks[h], k, ty, g);
    ExtentsUpdate(ks, h, k, ty);
    RemovedExtents(ks[h := k], i, ty);
    RemovedKids(ks, h, k, i, Other(ty));
  }

  lemma RemovedKids(ks: seq<Tree>, h: nat, k: Tree, i: nat, ty: Axis)
    requires i < |ks| && h < |ks| && h != i && AllBranching(ks) && Branching(k) && Reaches(ks[h], k, ty, 0)
    ensures var rs := Spliced(ks[h := k], i, []);
            AllBranching(rs) && forall j :: 0 <= j < |rs| ==> Reaches(ks[Skip(i, j)], rs[j], ty, 0)
  {
    hide Branching, Extent, Spliced, Reaches;
    var rs := Spliced(ks[h := k], i, []);
    forall j | 0 <= j < |rs| ensures Branching(rs[j]) && Reaches(ks[Skip(i, j)], rs[j], ty, 0) {
      SplicedAt(ks[h := k], i, [], j);
      var m := Skip(i, j);
      ReachesIs(ks[m], ks[m], ty, 0);
    }
  }

  lemma RemovedExtents(ks: seq<Tree>, i: nat, ty: Axis)
    requires i < |ks|
    ensures Sum(Extents(Spliced(ks, i, []), ty)) == Sum(Extents(ks, ty)) - Extent(ks[i], ty)
  {
    hide Extent, Spliced;
    forall j | 0 <= j < |ks| - 1
      ensures Extents(Spliced(ks, i, []), ty)[j] == Spliced(Extents(ks, ty), i, [])[j]
    {
      SplicedAt(ks, i, [], j);
      SplicedAt(Extents(ks, ty), i, [], j);
    }
    assert Extents(Spliced(ks, i, []), ty) == Spliced(Extents(ks, ty), i, []);
    SumSpliced(Extents(ks, ty), i, []);
  }

  // What destroying a cell keeps, whether or not the sizes add up: containers
  // keep two children, and nothing needs more room than before.
  lemma {:induction false} DestroyBranching(t: Tree, p: Path)
    requires Branching(t) && ValidPath(t, p) && p != []
    ensures Branching(Destroy(t, p)) && forall ty :: Reaches(t, Destroy(t, p), ty, 0)
    decreases |p|
  {
    hide Branching, Extent, Without, Reaches;
    KidsBranching(t);
    var i := p[0];
    if |p| == 1 {
      WithoutKids(t.kids, t.kind, i);
      CollapseBranching(t, t.(kids := Without(t.kids, t.kind, i)), i);
    } else {
      DestroyBranching(t.kids[i], p[1..]);
      PutKidBranching(t, i, Destroy(t.kids[i], p[1..]));
    }
  }

  lemma PutKidBranching(t: Tree, i: nat, k: Tree)
    requires Branching(t) && i < |t.kids| && t.kind != WindowPane
    requires Branching(k) && forall ty :: Reaches(t.kids[i], k, ty, 0)
    ensures var u := t.(kids := t.kids[i := k]); Branching(u) && forall ty :: Reaches(t, u, ty, 0)
  {
    hide Extent, Reaches;
    var u := t.(kids := t.kids[i := k]);
    forall ty ensures Reaches(t, u, ty, 0) {
      ReachesIs(t.kids[i], k, ty, 0);
      forall j | 0 <= j < |t.kids| ensures Reaches(t.kids[j], u.kids[j], ty, 0) {
        ReachesIs(t.kids[j], t.kids[j], ty, 0);
      }
      if t.kind == ty {
        ExtentsUpdate(t.kids, i, k, ty);
        ReachAlong(t, u, ty, 0);
      } else {
        ReachEach(t, u, ty, 0);
      }
    }
  }

  lemma CollapseBranching(t: Tree, u: Tree, i: nat)
    requires Branching(t) && i < |t.kids| && u == t.(kids := u.kids) && |u.kids| == |t.kids| - 1 > 0
    requires AllBranching(u.kids) && t.kind != WindowPane
    requires Sum(Extents(u.kids, t.kind)) <= Sum(Extents(t.kids, t.kind)) + 1
    requires forall j :: 0 <= j < |u.kids| ==>
               Reaches(t.kids[Skip(i, j)], u.kids[j], Other(t.kind), 0)
    ensures Branching(Collapse(u)) && forall ty :: Reaches(t, Collapse(u), ty, 0)
  {
    hide Extent, Reaches;
    forall ty ensures Reaches(t, Collapse(u), ty, 0) {
      if t.kind == ty {
        ReachAlong(t, u, ty, 0);
      } else {
        forall j | 0 <= j < |u.kids| ensures Extent(u.kids[j], ty) <= Extent(t, ty) {
          var m := Skip(i, j);
          ReachesIs(t.kids[m], u.kids[j], ty, 0);
          KidExtent(t, m, ty);
        }
        ReachAcross(t, u, ty, 0);
      }
      ReachesIs(t, u, ty, 0);
      KidExtent(u, 0, ty);
      ReachesIs(t, Collapse(u), ty, 0);
    }
  }

  // The cell destroyed is no larger than the extent.
  lemma {:induction false} AtExtent(t: Tree, p: Path, ty: Axis)
    requires Branching(t) && ValidPath(t, p)
    ensures Size(At(t, p), ty) <= Extent(At(t, p), ty) <= Extent(t, ty)
    decreases |p|
  {
    hide Extent;
    if p != [] {
      KidExtent(t, p[0], ty);
      AtExtent(t.kids[p[0]], p[1..], ty);
    }
  }

  // What layout_destroy_cell gives to the heir of cell c: a u_int passed as an
  // int.
  function Handed(c: Tree, ty: Axis): int {
    Signed(Size(c, ty) + 1)
  }

  // That is the cell's size and its separator just when the size is below
  // INT_MAX. From there on it is nothing, or is taken from the heir; and when
  // the heir cannot afford it, layout_resize_adjust never ends.
  lemma HandedExactly(c: Tree, heir: Tree, ty: Axis)
    requires Shaped(heir) && 0 <= Size(c, ty) <= UINT_MAX
    ensures Handed(c, ty) == Size(c, ty) + 1 <==> Size(c, ty) < INT_MAX
    ensures Size(c, ty) >= INT_MAX ==> Handed(c, ty) == Size(c, ty) + 1 - U32 <= 0
    ensures AdjustEnds(heir, ty, Handed(c, ty)) <==> Affords(heir, ty, Handed(c, ty))
    ensures Size(c, ty) < INT_MAX ==> AdjustEnds(heir, ty, Handed(c, ty))
  {
    hide Shaped, AdjustEnds, Affords, Check;
    EndsExactly(heir, ty, Handed(c, ty));
  }

  // ------------------------------------------------------------------
  // The loop of layout_parse

  // Closing the bottom right cell of a layout with more than one.
  lemma TrimStep(t: Tree)
    requires Branching(t) && |Panes(t)| > 1
    ensures BottomRight(t) != []
    ensures var u := DestroyRoot(t, BottomRight(t));
            && Branching(u) && Panes(u) == Panes(t)[..|Panes(t)| - 1]
            && (forall ty :: Reaches(t, u, ty, 0))
            && (WellFormed(t) ==> WellFormed(u) && u.sx == t.sx && u.sy == t.sy)
  {
    hide Branching, WellFormed, Panes, PaneIndex, Destroy, Displaced, Spliced, Extent, Reaches;
    var p := BottomRight(t);
    ManyPanes(t);
    var u := DestroyRoot(t, p);
    BottomRightLast(t);
    DestroyBranching(t, p);
    DestroyPanes(t, p);
    DropLast(Panes(t));
    DisplacedRefl(Destroy(t, p));
    CornerDisplaced(Destroy(t, p), u);
    DisplacedPanes(Destroy(t, p), u);
    DisplacedBranching(Destroy(t, p), u);
    DisplacedExtent(Destroy(t, p), u);
    forall ty ensures Reaches(t, u, ty, 0) {
      ReachesIs(t, Destroy(t, p), ty, 0);
      ReachesIs(t, u, ty, 0);
    }
    if WellFormed(t) {
      DestroySound(t, p);
      DisplacedWellFormed(Destroy(t, p), u);
    }
  }

  lemma {:induction false} DisplacedBranching(t: Tree, u: Tree)
    requires Branching(t) && Displaced(t, u)
    ensures Branching(u)
    decreases t
  {
    forall i | 0 <= i < |t.kids| ensures Branching(u.kids[i]) {
      DisplacedBranching(t.kids[i], u.kids[i]);
    }
  }

  lemma {:induction false} DisplacedExtent(t: Tree, u: Tree)
    requires Displaced(t, u)
    ensures forall ty :: Extent(u, ty) == Extent(t, ty)
    decreases t
  {
    forall i | 0 <= i < |t.kids| ensures forall ty :: Extent(u.kids[i], ty) == Extent(t.kids[i], ty) {
      DisplacedExtent(t.kids[i], u.kids[i]);
    }
    forall ty ensures Extent(u, ty) == Extent(t, ty) {
      assert Extents(u.kids, ty) == Extents(t.kids, ty);
    }
  }

  // There are cells enough, and those past the first n can be closed.
  ghost predicate Trimmable(t: Tree, n: nat) {
    0 < n <= |Panes(t)| && (n < |Panes(t)| ==> Branching(t))
  }

  // The layout without the cells past the first n.
  function Trimmed(t: Tree, n: nat): Tree
    requires Trimmable(t, n)
    decreases |Panes(t)|
  {
    if |Panes(t)| == n then t else TrimStep(t); Trimmed(DestroyRoot(t, BottomRight(t)), n)
  }

  // It has the first n panes, and is as sound as the layout was.
  lemma {:induction false} TrimmedSound(t: Tree, n: nat)
    requires Trimmable(t, n)
    ensures var u := Trimmed(t, n);
            && Panes(u) == Panes(t)[..n]
            && (Shaped(t) ==> Shaped(u)) && (Branching(t) ==> Branching(u))
            && (t.sx >= 0 && t.sy >= 0 ==> u.sx >= 0 && u.sy >= 0)
            && (WellFormed(t) ==> WellFormed(u) && u.sx == t.sx && u.sy == t.sy)
            && forall ty :: Extent(u, ty) <= Extent(t, ty)
    decreases |Panes(t)|
  {
    hide WellFormed, Branching, Shaped, Panes, DestroyRoot, BottomRight, Extent, Reaches;
    if |Panes(t)| > n {
      TrimStep(t);
      var v := DestroyRoot(t, BottomRight(t));
      TrimmedSound(v, n);
      forall ty ensures Extent(Trimmed(t, n), ty) <= Extent(t, ty) {
        ReachesIs(t, v, ty, 0);
      }
    }
  }

  // Cells that can be closed: each has a neighbour to go to, and a size that
  // can be handed to it.
  ghost predicate Closable(t: Tree)
    ensures Closable(t) ==> Branching(t)
  {
    Branching(t) && forall ty :: Extent(t, ty) < INT_MAX
  }

  lemma ClosableStep(t: Tree)
    requires Closable(t) && |Panes(t)| > 1
    ensures BottomRight(t) != [] && Closable(DestroyRoot(t, BottomRight(t)))
    ensures forall ty :: var c := At(t, BottomRight(t)); Handed(c, ty) == Size(c, ty) + 1
  {
    hide Branching, Panes, BottomRight, DestroyRoot, Extent, Reaches;
    TrimStep(t);
    forall ty
      ensures Extent(DestroyRoot(t, BottomRight(t)), ty) < INT_MAX
      ensures var c := At(t, BottomRight(t)); Handed(c, ty) == Size(c, ty) + 1
    {
      ReachesIs(t, DestroyRoot(t, BottomRight(t)), ty, 0);
      AtExtent(t, BottomRight(t), ty);
      AtBranching(t, BottomRight(t));
    }
  }

  lemma {:induction false} AtBranching(t: Tree, p: Path)
    requires Branching(t) && ValidPath(t, p)
    ensures Branching(At(t, p)) && forall ty :: Size(At(t, p), ty) >= 0
    decreases |p|
  {
    if p != [] {
      AtBranching(t.kids[p[0]], p[1..]);
    }
  }

  // The loop of layout_parse that makes the number of cells that of panes: it
  // fails exactly when there are too few cells. The sizes need not add up.
  method Trim(t: Tree, npanes: nat) returns (r: Option<Tree>)
    requires npanes > 0 && (npanes < |Panes(t)| ==> Closable(t))
    ensures r == if npanes > |Panes(t)| then None else Some(Trimmed(t, npanes))
  {
    hide WellFormed, Branching, Panes, DestroyRoot, BottomRight, Extent, Closable;
    var lc := t;
    while true
      invariant npanes < |Panes(lc)| ==> Closable(lc)
      invariant npanes > |Panes(lc)| <==> npanes > |Panes(t)|
      invariant npanes <= |Panes(t)| ==> Trimmed(lc, npanes) == Trimmed(t, npanes)
      decreases |Panes(lc)|
    {
      var ncells := CountCells(lc);
      if npanes > ncells {
        return None;
      }
      if npanes == ncells {
        break;
      }
      TrimStep(lc);
      ClosableStep(lc);
      lc := DestroyRoot(lc, BottomRight(lc));
    }
    r := Some(lc);
  }
}
