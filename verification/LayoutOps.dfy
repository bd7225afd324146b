// The operations that rewrite a layout: splitting and closing a pane, moving
// a border, and following a change of the window's size.
module LayoutOps {
  import opened Common
  import opened Sums
  import opened LayoutTree
  import opened LayoutGeometry

  // ------------------------------------------------------------------
  // Cells are named by the child to take at each step down from the root.

  type Path = seq<nat>

  predicate ValidPath(t: Tree, p: Path)
    decreases |p|
  {
    p == [] || (p[0] < |t.kids| && ValidPath(t.kids[p[0]], p[1..]))
  }

  function At(t: Tree, p: Path): Tree
    requires ValidPath(t, p)
    decreases |p|
  {
    if p == [] then t else At(t.kids[p[0]], p[1..])
  }

  predicate PaneAt(t: Tree, p: Path) {
    ValidPath(t, p) && At(t, p).kind == WindowPane
  }

  lemma AtChild(t: Tree, p: Path)
    requires ValidPath(t, p) && |p| == 1
    ensures p[0] < |t.kids| && At(t, p) == t.kids[p[0]]
  {
    assert p[1..] == [];
  }

  lemma PaneChild(t: Tree, p: Path)
    requires |p| == 1 && p[0] < |t.kids| && t.kids[p[0]].kind == WindowPane
    ensures PaneAt(t, p)
  {
    assert p[1..] == [];
    assert ValidPath(t.kids[p[0]], p[1..]);
  }

  // The cell at depth d of a path.
  ghost function AtPrefix(t: Tree, p: Path, d: nat): (u: Tree)
    requires ValidPath(t, p) && d <= |p|
    ensures ValidPath(t, p[..d]) && u == At(t, p[..d]) && ValidPath(u, p[d..])
    decreases |p|
  {
    if d == 0 then
      assert p[..0] == [] && p[0..] == p; t
    else
      assert p[..d][0] == p[0] && p[..d][1..] == p[1..][..d - 1] && p[1..][d - 1..] == p[d..];
      AtPrefix(t.kids[p[0]], p[1..], d - 1)
  }

  lemma {:induction false} PrefixStep(t: Tree, p: Path, d: nat)
    requires ValidPath(t, p) && d < |p|
    ensures p[d] < |AtPrefix(t, p, d).kids| && AtPrefix(t, p, d + 1) == AtPrefix(t, p, d).kids[p[d]]
    decreases d
  {
    if d > 0 {
      PrefixStep(t.kids[p[0]], p[1..], d - 1);
    } else {
      assert AtPrefix(t.kids[p[0]], p[1..], 0) == t.kids[p[0]];
    }
  }

  // ------------------------------------------------------------------
  // layout_split_pane

  predicate RoomToSplit(t: Tree, p: Path, ty: Axis)
    requires ValidPath(t, p)
  {
    Size(At(t, p), ty) >= PANE_MINIMUM * 2 + 1
  }

  // The size the new cell gets; a negative hint asks for half.
  function SecondSize(size: int, hint: int): int {
    var s := if hint < 0 then (size + 1) / 2 - 1 else hint;
    if s < PANE_MINIMUM then PANE_MINIMUM
    else if s > size - 2 then size - 2
    else s
  }

  function FirstSize(size: int, hint: int): int {
    size - 1 - SecondSize(size, hint)
  }

  function OldCell(c: Tree, ty: Axis, hint: int): Tree {
    if ty == LeftRight then c.(sx := FirstSize(c.sx, hint)) else c.(sy := FirstSize(c.sy, hint))
  }

  // The new cell has no pane until layout_assign_pane gives it one.
  function NewCell(c: Tree, ty: Axis, hint: int): Tree {
    var first := OldCell(c, ty, hint);
    if ty == LeftRight then
      Tree(WindowPane, SecondSize(c.sx, hint), c.sy, c.xoff + first.sx + 1, c.yoff, None, [])
    else
      Tree(WindowPane, c.sx, SecondSize(c.sy, hint), c.xoff, c.yoff + first.sy + 1, None, [])
  }

  // The layout after splitting the pane at p: into its container when that
  // runs the same way, otherwise inside a new container in the pane's place.
  function Split(t: Tree, p: Path, ty: Axis, hint: int): Tree
    requires PaneAt(t, p)
    decreases |p|
  {
    if p == [] then
      Tree(ty, t.sx, t.sy, t.xoff, t.yoff, None, [OldCell(t, ty, hint), NewCell(t, ty, hint)])
    else
      var i, c := p[0], t.kids[p[0]];
      if |p| == 1 && t.kind == ty then
        t.(kids := Spliced(t.kids, i, [OldCell(c, ty, hint), NewCell(c, ty, hint)]))
      else
        t.(kids := t.kids[i := Split(c, p[1..], ty, hint)])
  }

  // Where the new cell is.
  function SplitPath(t: Tree, p: Path, ty: Axis): Path
    requires ValidPath(t, p)
    decreases |p|
  {
    if p == [] then [1]
    else if |p| == 1 && t.kind == ty then [p[0] + 1]
    else [p[0]] + SplitPath(t.kids[p[0]], p[1..], ty)
  }

  // ------------------------------------------------------------------
  // layout_destroy_cell and layout_close_pane

  function Heir(i: nat): nat {
    if i == 0 then 1 else i - 1
  }

  // The children without child i, its space and separator given to its heir.
  function Without(ks: seq<Tree>, ty: Axis, i: nat): seq<Tree>
    requires i < |ks| && Heir(i) < |ks| && AllBranching(ks)
  {
    assert Branching(ks[i]);
    var h := Heir(i);
    var ks' := ks[h := Adjust(ks[h], ty, Size(ks[i], ty) + 1)];
    Spliced(ks', i, [])
  }

  // Child j of those left, counted with child i.
  function Skip(i: nat, j: nat): nat {
    if j < i then j else j + 1
  }

  // A container left with one child gives its place up to it.
  function Collapse(t: Tree): Tree {
    if |t.kids| == 1 then t.kids[0] else t
  }

  function Destroy(t: Tree, p: Path): Tree
    requires Branching(t) && ValidPath(t, p) && p != []
    decreases |p|
  {
    var i := p[0];
    if |p| == 1 then
      Collapse(t.(kids := Without(t.kids, t.kind, i)))
    else
      t.(kids := t.kids[i := Destroy(t.kids[i], p[1..])])
  }

  // The new root, when the old one gave up its place, moves to the corner.
  function DestroyRoot(t: Tree, p: Path): Tree
    requires Branching(t) && ValidPath(t, p) && p != []
  {
    var u := Destroy(t, p);
    if |p| == 1 && |t.kids| == 2 then u.(xoff := 0, yoff := 0) else u
  }

  function Close(t: Tree, p: Path): Tree
    requires Branching(t) && PaneAt(t, p) && p != []
  {
    FixOffsets(DestroyRoot(t, p))
  }

  // ------------------------------------------------------------------
  // What splitting and closing keep

  // u can stand where t does: same rectangle, and no more space to give up.
  ghost predicate Replaces(t: Tree, u: Tree) {
    && WellFormed(u) && u.sx == t.sx && u.sy == t.sy
    && Check(u, LeftRight) <= Check(t, LeftRight) && Check(u, TopBottom) <= Check(t, TopBottom)
  }

  ghost predicate SameCorner(t: Tree, u: Tree) {
    u.xoff == t.xoff && u.yoff == t.yoff
  }

  lemma MinOfMonotone(a: seq<int>, b: seq<int>)
    requires a != [] && |b| == |a|
    requires forall i :: 0 <= i < |a| ==> b[i] <= a[i]
    ensures MinOf(b, UINT_MAX) <= MinOf(a, UINT_MAX)
  {
    MinOfIsLeast(a, UINT_MAX);
    MinOfIsLeast(b, UINT_MAX);
    var i :| 0 <= i < |a| && a[i] == MinOf(a, UINT_MAX);
  }

  lemma CheckMonotone(t: Tree, u: Tree, ty: Axis)
    requires t.kind != WindowPane && u.kind == t.kind && |u.kids| == |t.kids| > 0
    requires forall i :: 0 <= i < |t.kids| ==> Check(u.kids[i], ty) <= Check(t.kids[i], ty)
    ensures Check(u, ty) <= Check(t, ty)
  {
    SumPointwise(Checks(u.kids, ty), Checks(t.kids, ty));
    MinOfMonotone(Checks(t.kids, ty), Checks(u.kids, ty));
  }

  lemma ReplaceKid(t: Tree, i: nat, k: Tree)
    requires WellFormed(t) && i < |t.kids| && Replaces(t.kids[i], k)
    ensures Replaces(t, t.(kids := t.kids[i := k]))
  {
    hide WellFormed, Check;
    KidsWellFormed(t);
    var u := t.(kids := t.kids[i := k]);
    ReplaceKidWellFormed(t, i, k);
    CheckMonotone(t, u, LeftRight);
    CheckMonotone(t, u, TopBottom);
  }

  lemma ReplaceKidWellFormed(t: Tree, i: nat, k: Tree)
    requires WellFormed(t) && i < |t.kids| && WellFormed(k) && k.sx == t.kids[i].sx && k.sy == t.kids[i].sy
    ensures WellFormed(t.(kids := t.kids[i := k]))
  {
    var u := t.(kids := t.kids[i := k]);
    assert Sizes(u.kids, t.kind) == Sizes(t.kids, t.kind);
    assert Fills(t);
    assert Fills(u);
  }

  lemma ReplaceKidPlaced(t: Tree, i: nat, k: Tree)
    requires Placed(t) && i < |t.kids| && Placed(k) && SameCorner(t.kids[i], k)
    requires k.sx == t.kids[i].sx && k.sy == t.kids[i].sy
    ensures Placed(t.(kids := t.kids[i := k]))
  {
    var u := t.(kids := t.kids[i := k]);
    forall ty: Axis ensures Sizes(u.kids, ty) == Sizes(t.kids, ty) {
    }
  }

  ghost predicate HoldsTwo(size: int) {
    exists a: int, b: int :: MakeUp(a, b, size)
  }

  predicate MakeUp(a: int, b: int, size: int) {
    PANE_MINIMUM <= a && PANE_MINIMUM <= b && a + 1 + b == size
  }

  // There is room to split a pane just when two of the minimum, and a separator
  // between them, fit in it.
  lemma RoomExactly(t: Tree, p: Path, ty: Axis)
    requires ValidPath(t, p)
    ensures RoomToSplit(t, p, ty) <==> HoldsTwo(Size(At(t, p), ty))
  {
    var size := Size(At(t, p), ty);
    if RoomToSplit(t, p, ty) {
      assert MakeUp(PANE_MINIMUM, size - 1 - PANE_MINIMUM, size);
    }
  }

  // What a split gives the two parts of a size: the separator between them takes
  // one. Without a hint they are halves; a hint is the size of the second, as
  // far as the minimum and one for the first allow.
  ghost predicate Shared(size: int, hint: int, first: int, second: int) {
    && first + 1 + second == size
    && (hint < 0 ==> 0 <= first - second <= 1)
    && (0 <= hint < PANE_MINIMUM ==> second == PANE_MINIMUM)
    && (PANE_MINIMUM <= hint <= size - 2 ==> second == hint)
    && (hint > size - 2 ==> first == 1)
  }

  // The default split leaves both at least the minimum, a hint at least one.
  lemma SplitSizes(size: int, hint: int)
    requires size >= PANE_MINIMUM * 2 + 1
    ensures Shared(size, hint, FirstSize(size, hint), SecondSize(size, hint))
    ensures SecondSize(size, hint) >= PANE_MINIMUM && FirstSize(size, hint) >= 1
    ensures hint < 0 ==> FirstSize(size, hint) >= PANE_MINIMUM
    ensures FirstSize(size, hint) < PANE_MINIMUM <==> hint >= size - 2
  {
  }

  // ------------------------------------------------------------------
  // Splitting

  lemma SplicedMeasures(ks: seq<Tree>, i: nat, m: seq<Tree>, ty: Axis)
    requires i < |ks|
    ensures Sizes(Spliced(ks, i, m), ty) == Spliced(Sizes(ks, ty), i, Sizes(m, ty))
    ensures Checks(Spliced(ks, i, m), ty) == Spliced(Checks(ks, ty), i, Checks(m, ty))
  {
    hide Spliced, Check;
    var rs := Spliced(ks, i, m);
    forall j | 0 <= j < |rs|
      ensures Sizes(rs, ty)[j] == Spliced(Sizes(ks, ty), i, Sizes(m, ty))[j]
      ensures Checks(rs, ty)[j] == Spliced(Checks(ks, ty), i, Checks(m, ty))[j]
    {
      SplicedAt(ks, i, m, j);
      SplicedAt(Sizes(ks, ty), i, Sizes(m, ty), j);
      SplicedAt(Checks(ks, ty), i, Checks(m, ty), j);
    }
  }

  lemma SpliceSums(ks: seq<Tree>, i: nat, m: seq<Tree>, ty: Axis)
    requires i < |ks|
    ensures Sum(Sizes(Spliced(ks, i, m), ty)) == Sum(Sizes(ks, ty)) - Size(ks[i], ty) + Sum(Sizes(m, ty))
    ensures Sum(Checks(Spliced(ks, i, m), ty)) == Sum(Checks(ks, ty)) - Check(ks[i], ty) + Sum(Checks(m, ty))
  {
    hide Spliced, Check;
    SplicedMeasures(ks, i, m, ty);
    SumSpliced(Sizes(ks, ty), i, Sizes(m, ty));
    SumSpliced(Checks(ks, ty), i, Checks(m, ty));
  }

  lemma SumTwo(a: int, b: int)
    ensures Sum([a, b]) == a + b
  {
    assert [a, b] == [a] + [b] && [a, b][..1] == [a];
    assert Sum([a]) == Sum([a][..0]) + a;
  }

  function Halves(c: Tree, ty: Axis, hint: int): seq<Tree> {
    [OldCell(c, ty, hint), NewCell(c, ty, hint)]
  }

  lemma HalvesSound(c: Tree, ty: Axis, hint: int)
    requires WellFormed(c) && c.kind == WindowPane && Size(c, ty) >= PANE_MINIMUM * 2 + 1
    ensures AllWellFormed(Halves(c, ty, hint))
    ensures Sum(Sizes(Halves(c, ty, hint), ty)) + 1 == Size(c, ty)
    ensures Sum(Checks(Halves(c, ty, hint), ty)) <= Check(c, ty)
    ensures forall k :: 0 <= k < 2 ==> var h := Halves(c, ty, hint)[k];
              Size(h, Other(ty)) == Size(c, Other(ty)) && Check(h, Other(ty)) == Check(c, Other(ty))
  {
    SplitSizes(Size(c, ty), hint);
    var a, b := OldCell(c, ty, hint), NewCell(c, ty, hint);
    SumTwo(Size(a, ty), Size(b, ty));
    assert Sizes(Halves(c, ty, hint), ty) == [Size(a, ty), Size(b, ty)];
    SumTwo(Check(a, ty), Check(b, ty));
    assert Checks(Halves(c, ty, hint), ty) == [Check(a, ty), Check(b, ty)];
  }

  lemma SplitRootSound(c: Tree, ty: Axis, hint: int)
    requires WellFormed(c) && c.kind == WindowPane && Size(c, ty) >= PANE_MINIMUM * 2 + 1
    ensures Replaces(c, Split(c, [], ty, hint)) && Placed(Split(c, [], ty, hint))
  {
    hide WellFormed, Check, Sum, Placed, OldCell, NewCell;
    var u := Split(c, [], ty, hint);
    HalvesSound(c, ty, hint);
    KidsWellFormed(c);
    assert u.kids == Halves(c, ty, hint);
    assert Fills(u);
    WellFormedIntro(u);
    CheckAlong(u, ty);
    CheckAcross(u, Other(ty), 0);
    HalvesPlaced(c, ty, hint);
  }

  lemma HalvesPlaced(c: Tree, ty: Axis, hint: int)
    requires c.kind == WindowPane && c.kids == []
    ensures Placed(Split(c, [], ty, hint))
  {
    var u := Split(c, [], ty, hint);
    StartNext(u.kids, ty, 0);
    assert Sizes(u.kids, ty)[..0] == [];
  }

  lemma SplitBesideSound(t: Tree, i: nat, hint: int)
    requires WellFormed(t) && t.kind != WindowPane && i < |t.kids|
    requires t.kids[i].kind == WindowPane && Size(t.kids[i], t.kind) >= PANE_MINIMUM * 2 + 1
    ensures Replaces(t, t.(kids := Spliced(t.kids, i, Halves(t.kids[i], t.kind, hint))))
  {
    var m := Halves(t.kids[i], t.kind, hint);
    var u := t.(kids := Spliced(t.kids, i, m));
    HalvesSound(t.kids[i], t.kind, hint);
    SpliceSums(t.kids, i, m, t.kind);
    SplitBesideFills(t, i, m, u);
    CheckAlong(t, t.kind);
    CheckAlong(u, t.kind);
    SpliceMin(t, i, m, u, Other(t.kind));
  }

  lemma SplitBesideFills(t: Tree, i: nat, m: seq<Tree>, u: Tree)
    requires WellFormed(t) && t.kind != WindowPane && i < |t.kids| && |m| == 2 && AllWellFormed(m)
    requires u == t.(kids := Spliced(t.kids, i, m))
    requires Sum(Sizes(u.kids, t.kind)) + 1 == Sum(Sizes(t.kids, t.kind))
    requires forall k :: 0 <= k < 2 ==> Size(m[k], Other(t.kind)) == Size(t.kids[i], Other(t.kind))
    ensures WellFormed(u)
  {
    hide Spliced, WellFormed, Sum;
    KidsFill(t);
    KidsWellFormed(t);
    forall j | 0 <= j < |u.kids|
      ensures WellFormed(u.kids[j]) && Size(u.kids[j], Other(t.kind)) == Size(t, Other(t.kind))
    {
      SplicedAt(t.kids, i, m, j);
    }
    assert Fills(u);
    WellFormedIntro(u);
  }

  lemma SpliceMin(t: Tree, i: nat, m: seq<Tree>, u: Tree, ty: Axis)
    requires t.kind != WindowPane && t.kind != ty && i < |t.kids| && m != []
    requires u == t.(kids := Spliced(t.kids, i, m))
    requires forall k :: 0 <= k < |m| ==> Check(m[k], ty) == Check(t.kids[i], ty)
    ensures Check(u, ty) <= Check(t, ty)
  {
    hide *;
    var a, b := Checks(t.kids, ty), Checks(m, ty);
    SplicedMeasures(t.kids, i, m, ty);
    CheckLeast(t, ty);
    CheckLeast(u, ty);
    assert Checks(u.kids, ty) == Spliced(a, i, b);
    MinOfSpliced(a, i, b);
  }

  lemma MinOfSpliced(a: seq<int>, i: nat, m: seq<int>)
    requires i < |a| && m != []
    requires forall k :: 0 <= k < |m| ==> m[k] == a[i]
    ensures MinOf(Spliced(a, i, m), UINT_MAX) <= MinOf(a, UINT_MAX)
  {
    hide Spliced, MinOf;
    MinOfIsLeast(a, UINT_MAX);
    MinOfIsLeast(Spliced(a, i, m), UINT_MAX);
    var j :| 0 <= j < |a| && a[j] == MinOf(a, UINT_MAX);
    SplicedAt(a, i, m, if j <= i then j else j + |m| - 1);
  }

  lemma StartZero(ks: seq<Tree>, ty: Axis)
    ensures Start(ks, ty, 0) == 0
  {
  }

  lemma {:induction false} SpliceStart(ks: seq<Tree>, i: nat, m: seq<Tree>, ty: Axis, j: nat)
    requires i < |ks| && |m| == 2 && Size(m[0], ty) + 1 + Size(m[1], ty) == Size(ks[i], ty)
    requires j <= |ks| + 1
    ensures Start(Spliced(ks, i, m), ty, j) ==
            if j <= i then Start(ks, ty, j)
            else if j == i + 1 then Start(ks, ty, i) + Size(m[0], ty) + 1
            else Start(ks, ty, j - 1)
  {
    hide Spliced, Sum;
    var rs := Spliced(ks, i, m);
    if j == 0 {
      StartZero(rs, ty);
      StartZero(ks, ty);
    } else {
      SplicedAt(ks, i, m, j - 1);
      SpliceStart(ks, i, m, ty, j - 1);
      StartNext(rs, ty, j - 1);
      if j <= i {
        StartNext(ks, ty, j - 1);
      } else if j > i + 2 {
        StartNext(ks, ty, j - 2);
      } else if j == i + 2 {
        StartNext(ks, ty, i);
      }
    }
  }

  lemma SplitBesidePlaced(t: Tree, i: nat, hint: int)
    requires Placed(t) && t.kind != WindowPane && i < |t.kids|
    requires t.kids[i].kind == WindowPane && WellFormed(t.kids[i])
    requires Size(t.kids[i], t.kind) >= PANE_MINIMUM * 2 + 1
    ensures Placed(t.(kids := Spliced(t.kids, i, Halves(t.kids[i], t.kind, hint))))
  {
    var m := Halves(t.kids[i], t.kind, hint);
    var u := t.(kids := Spliced(t.kids, i, m));
    SplitSizes(Size(t.kids[i], t.kind), hint);
    forall j | 0 <= j < |u.kids|
      ensures u.kids[j].xoff == KidX(u, j, u.xoff) && u.kids[j].yoff == KidY(u, j, u.yoff) && Placed(u.kids[j])
    {
      SpliceStart(t.kids, i, m, t.kind, j);
      if j != i && j != i + 1 {
        assert u.kids[j] == t.kids[if j < i then j else j - 1];
      }
    }
  }

  // Splitting keeps the rectangle, the tiling and the placement of every cell,
  // and never creates space that a resize could take.
  lemma {:induction false} SplitSound(t: Tree, p: Path, ty: Axis, hint: int)
    requires WellFormed(t) && PaneAt(t, p) && RoomToSplit(t, p, ty)
    ensures Replaces(t, Split(t, p, ty, hint)) && SameCorner(t, Split(t, p, ty, hint))
    ensures Placed(t) ==> Placed(Split(t, p, ty, hint))
    decreases |p|
  {
    hide WellFormed, Placed, Replaces;
    if p == [] {
      SplitRootSound(t, ty, hint);
    } else {
      var i := p[0];
      KidsWellFormed(t);
      if |p| == 1 && t.kind == ty {
        AtChild(t, p);
        SplitBesideSound(t, i, hint);
        if Placed(t) {
          SplitBesidePlaced(t, i, hint);
        }
      } else {
        SplitSound(t.kids[i], p[1..], ty, hint);
        var k := Split(t.kids[i], p[1..], ty, hint);
        ReplaceKid(t, i, k);
        ReplacesSize(t.kids[i], k);
        if Placed(t) {
          KidSound(t, i);
          ReplaceKidPlaced(t, i, k);
        }
      }
    }
  }

  lemma ReplacesSize(t: Tree, u: Tree)
    requires Replaces(t, u)
    ensures WellFormed(u) && u.sx == t.sx && u.sy == t.sy
  {
  }

  // ------------------------------------------------------------------
  // Closing

  lemma WithoutIs(ks: seq<Tree>, ty: Axis, i: nat)
    requires i < |ks| && Heir(i) < |ks| && AllWellFormed(ks)
    ensures Size(ks[i], ty) >= 0 && -(Size(ks[i], ty) + 1) <= Check(ks[Heir(i)], ty)
    ensures Without(ks, ty, i) ==
            Spliced(ks[Heir(i) := Adjust(ks[Heir(i)], ty, Size(ks[i], ty) + 1)], i, [])
  {
    hide Check, Adjust, Spliced;
    assert WellFormed(ks[i]);
  }

  lemma WithoutSound(t: Tree, i: nat)
    requires WellFormed(t) && t.kind != WindowPane && i < |t.kids|
    ensures var rs := Without(t.kids, t.kind, i);
            && |rs| == |t.kids| - 1 && AllWellFormed(rs)
            && Sum(Sizes(rs, t.kind)) + |rs| - 1 == Size(t, t.kind)
            && forall j :: 0 <= j < |rs| ==> Size(rs[j], Other(t.kind)) == Size(t, Other(t.kind))
  {
    hide Reshaped, Check, Spliced, Sizes, Adjust, WellFormed, Without;
    var ks, ty, h := t.kids, t.kind, Heir(i);
    KidsWellFormed(t);
    KidsWellFormed(ks[i]);
    var k := Adjust(ks[h], ty, Size(ks[i], ty) + 1);
    WithoutIs(ks, ty, i);
    KidsFill(t);
    AdjustCorrect(ks[h], ty, Size(ks[i], ty) + 1);
    RemoveSound(ks, ty, h, k, i, Size(t, Other(ty)));
  }

  lemma RemoveSound(ks: seq<Tree>, ty: Axis, h: nat, k: Tree, i: nat, across: int)
    requires h < |ks| && i < |ks| && h != i && AllWellFormed(ks) && WellFormed(k)
    requires Size(k, ty) == Size(ks[h], ty) + Size(ks[i], ty) + 1 && Size(k, Other(ty)) == across
    requires forall j :: 0 <= j < |ks| ==> Size(ks[j], Other(ty)) == across
    ensures var rs := Spliced(ks[h := k], i, []);
            && |rs| == |ks| - 1 && AllWellFormed(rs)
            && Sum(Sizes(rs, ty)) == Sum(Sizes(ks, ty)) + 1
            && forall j :: 0 <= j < |rs| ==> Size(rs[j], Other(ty)) == across
  {
    hide WellFormed, Branching, Shaped, Spliced, Check;
    var ks' := ks[h := k];
    assert Sizes(ks', ty) == Sizes(ks, ty)[h := Size(k, ty)];
    SumUpdate(Sizes(ks, ty), h, Size(k, ty));
    SpliceSums(ks', i, [], ty);
    assert Sizes([], ty) == [];
    forall j | 0 <= j < |ks| - 1
      ensures var r := Spliced(ks', i, [])[j]; WellFormed(r) && Size(r, Other(ty)) == across
    {
      SplicedAt(ks', i, [], j);
    }
  }

  lemma CollapseSound(t: Tree, u: Tree)
    requires WellFormed(t) && t.kind != WindowPane && u == t.(kids := u.kids) && u.kids != []
    requires AllWellFormed(u.kids)
    requires Sum(Sizes(u.kids, t.kind)) + |u.kids| - 1 == Size(t, t.kind)
    requires forall j :: 0 <= j < |u.kids| ==> Size(u.kids[j], Other(t.kind)) == Size(t, Other(t.kind))
    ensures WellFormed(Collapse(u)) && Collapse(u).sx == t.sx && Collapse(u).sy == t.sy
  {
    if |u.kids| == 1 {
      assert Sizes(u.kids, t.kind)[..0] == [];
    } else {
      assert Fills(u);
    }
  }

  lemma {:induction false} DestroySound(t: Tree, p: Path)
    requires WellFormed(t) && ValidPath(t, p) && p != []
    ensures WellFormed(Destroy(t, p)) && Destroy(t, p).sx == t.sx && Destroy(t, p).sy == t.sy
    decreases |p|
  {
    hide WellFormed;
    var i := p[0];
    KidsWellFormed(t);
    if |p| == 1 {
      WithoutSound(t, i);
      CollapseSound(t, t.(kids := Without(t.kids, t.kind, i)));
    } else {
      DestroySound(t.kids[i], p[1..]);
      ReplaceKidWellFormed(t, i, Destroy(t.kids[i], p[1..]));
    }
  }

  // What the destroyed cell had, and its separator, goes to the cell before it,
  // or after it where it was the first; the others of the container are as they
  // were, and one left alone takes the container's place.
  ghost predicate HandedOn(c: Tree, i: nat, d: Tree)
    requires i < |c.kids| && 2 <= |c.kids| && c.kind != WindowPane
  {
    var ks, ty := c.kids, c.kind;
    var heir := ks[if i == 0 then 1 else i - 1];
    var at := if i == 0 then 0 else i - 1;
    && (|ks| > 2 ==>
          && d == c.(kids := d.kids) && |d.kids| == |ks| - 1
          && forall j :: 0 <= j < |d.kids| && j != at ==> d.kids[j] == ks[if j < i then j else j + 1])
    && var k := if |ks| == 2 then d else d.kids[at];
       && Reshaped(heir, k, ty) && Size(k, ty) == Size(heir, ty) + Size(ks[i], ty) + 1
       && Size(k, Other(ty)) == Size(heir, Other(ty))
  }

  lemma WithoutHandsOn(c: Tree, i: nat)
    requires Branching(c) && i < |c.kids| && c.kind != WindowPane
    ensures HandedOn(c, i, Collapse(c.(kids := Without(c.kids, c.kind, i))))
  {
    hide Branching, Shaped, WellFormed, Spliced, Adjust, Reshaped, Check, Keeps;
    KidsBranching(c);
    KidsBranching(c.kids[i]);
    var ks, ty, h := c.kids, c.kind, Heir(i);
    var k := Adjust(ks[h], ty, Size(ks[i], ty) + 1);
    AdjustCorrect(ks[h], ty, Size(ks[i], ty) + 1);
    var rs := Without(ks, ty, i);
    forall j | 0 <= j < |rs| ensures rs[j] == ks[h := k][if j < i then j else j + 1] {
      SplicedAt(ks[h := k], i, [], j);
    }
  }

  // That is all that destroying a cell does.
  lemma {:induction false} DestroyGives(t: Tree, p: Path)
    requires Branching(t) && ValidPath(t, p) && p != []
    ensures var c, i := p[..|p| - 1], p[|p| - 1];
            && ValidPath(t, c) && ValidPath(Destroy(t, p), c)
            && At(t, c).kind != WindowPane && i < |At(t, c).kids| && 2 <= |At(t, c).kids|
            && HandedOn(At(t, c), i, At(Destroy(t, p), c))
    decreases |p|
  {
    hide Branching, HandedOn, Without, Collapse;
    KidsBranching(t);
    var i := p[0];
    if |p| == 1 {
      assert p[..0] == [];
      WithoutHandsOn(t, i);
    } else {
      DestroyGives(t.kids[i], p[1..]);
      assert p[..|p| - 1][1..] == p[1..][..|p| - 2];
    }
  }

  lemma {:induction false} DestroyElsewhere(t: Tree, p: Path, r: Path)
    requires Branching(t) && ValidPath(t, p) && p != [] && ValidPath(t, r)
    requires !(p[..|p| - 1] <= r) && !(r <= p[..|p| - 1])
    ensures ValidPath(Destroy(t, p), r) && At(Destroy(t, p), r) == At(t, r)
    decreases |p|
  {
    hide Branching, Without, Collapse;
    KidsBranching(t);
    if |p| > 1 && r[0] == p[0] {
      assert p[..|p| - 1] == [p[0]] + p[1..][..|p| - 2] && r == [r[0]] + r[1..];
      DestroyElsewhere(t.kids[p[0]], p[1..], r[1..]);
    }
  }

  // Closing a pane keeps the window's rectangle tiled.
  lemma CloseSound(t: Tree, p: Path)
    requires WellFormed(t) && PaneAt(t, p) && p != [] && t.xoff == 0 && t.yoff == 0
    ensures var u := Close(t, p);
            WellFormed(u) && Placed(u) && u.sx == t.sx && u.sy == t.sy && u.xoff == 0 && u.yoff == 0
  {
    var u := DestroyRoot(t, p);
    DestroySound(t, p);
    FixPlaces(u, u.xoff, u.yoff);
    DisplacedRefl(Destroy(t, p));
    assert Displaced(Destroy(t, p), u);
    DisplacedWellFormed(Destroy(t, p), u);
    DisplacedWellFormed(u, Close(t, p));
    DestroyCorner(t, p);
  }

  lemma {:induction false} DisplacedRefl(t: Tree)
    ensures Displaced(t, t)
    decreases t
  {
    forall i | 0 <= i < |t.kids| ensures Displaced(t.kids[i], t.kids[i]) {
      DisplacedRefl(t.kids[i]);
    }
  }

  lemma DestroyCorner(t: Tree, p: Path)
    requires WellFormed(t) && ValidPath(t, p) && p != [] && t.xoff == 0 && t.yoff == 0
    ensures DestroyRoot(t, p).xoff == 0 && DestroyRoot(t, p).yoff == 0
  {
    hide WellFormed;
    KidsWellFormed(t);
    if |p| == 1 {
      WithoutSound(t, p[0]);
    }
  }

  lemma {:induction false} SplitPathSound(t: Tree, p: Path, ty: Axis, hint: int)
    requires PaneAt(t, p)
    ensures SplitPath(t, p, ty) != [] && PaneAt(Split(t, p, ty, hint), SplitPath(t, p, ty))
    decreases |p|
  {
    if p == [] {
      PaneChild(Split(t, p, ty, hint), [1]);
    } else if |p| == 1 && t.kind == ty {
      AtChild(t, p);
      SplicedAt(t.kids, p[0], Halves(t.kids[p[0]], ty, hint), p[0] + 1);
      PaneChild(Split(t, p, ty, hint), [p[0] + 1]);
    } else {
      SplitPathSound(t.kids[p[0]], p[1..], ty, hint);
    }
  }

  // The cell just before another in their container.
  function Prior(q: Path): Path
    requires q != [] && q[|q| - 1] > 0
  {
    q[..|q| - 1] + [q[|q| - 1] - 1]
  }

  // Where the cell at r is once a new one has come in at q, beside p or below
  // it: one further on where it is in that container and not before q.
  function Shifted(p: Path, q: Path, r: Path): Path {
    if 0 < |q| == |p| && |q| <= |r| && r[..|q| - 1] == q[..|q| - 1] && r[|q| - 1] >= q[|q| - 1]
    then r[|q| - 1 := r[|q| - 1] + 1] else r
  }

  // The two cells that a split makes of pane c.
  ghost predicate SplitInTwo(c: Tree, ty: Axis, hint: int, a: Tree, b: Tree) {
    && a.kind == b.kind == WindowPane && a.pane == c.pane && b.pane == None && a.kids == c.kids && b.kids == []
    && Shared(Size(c, ty), hint, Size(a, ty), Size(b, ty))
    && Size(a, Other(ty)) == Size(b, Other(ty)) == Size(c, Other(ty))
    && a.xoff == c.xoff && b.xoff == c.xoff + (if ty == LeftRight then a.sx + 1 else 0)
    && a.yoff == c.yoff && b.yoff == c.yoff + (if ty == LeftRight then 0 else a.sy + 1)
  }

  lemma TailPath(i: nat, p: Path)
    ensures ([i] + p)[1..] == p
    ensures p != [] ==> ([i] + p)[..|p|] == [i] + p[..|p| - 1]
    ensures p != [] && p[|p| - 1] > 0 ==> Prior([i] + p) == [i] + Prior(p)
  {
  }

  lemma HalvesShare(c: Tree, ty: Axis, hint: int)
    requires c.kind == WindowPane && Size(c, ty) >= PANE_MINIMUM * 2 + 1
    ensures SplitInTwo(c, ty, hint, OldCell(c, ty, hint), NewCell(c, ty, hint))
  {
    SplitSizes(Size(c, ty), hint);
  }

  // The new cell is in the pane's container if that runs the same way, and
  // otherwise in a new one in the pane's place.
  lemma {:induction false} SplitPathIs(t: Tree, p: Path, ty: Axis)
    requires ValidPath(t, p)
    ensures p != [] ==> ValidPath(t, p[..|p| - 1])
    ensures SplitPath(t, p, ty) == if p != [] && At(t, p[..|p| - 1]).kind == ty
                                   then p[..|p| - 1] + [p[|p| - 1] + 1] else p + [1]
    decreases |p|
  {
    if |p| == 1 {
      assert p[..0] == [];
      if t.kind != ty {
        assert p == [p[0]] + p[1..] && p[1..] == [];
      }
    } else if p != [] {
      SplitPathIs(t.kids[p[0]], p[1..], ty);
      assert p == [p[0]] + p[1..] && p[..|p| - 1] == [p[0]] + p[1..][..|p| - 2];
      assert p[..|p| - 1][1..] == p[1..][..|p| - 2];
    }
  }

  // It comes after the pane, and the two share what that had.
  lemma {:induction false} SplitMakes(t: Tree, p: Path, ty: Axis, hint: int)
    requires PaneAt(t, p) && RoomToSplit(t, p, ty)
    ensures var u, q := Split(t, p, ty, hint), SplitPath(t, p, ty);
            && q != [] && q[|q| - 1] > 0 && ValidPath(u, q) && ValidPath(u, Prior(q))
            && SplitInTwo(At(t, p), ty, hint, At(u, Prior(q)), At(u, q))
    decreases |p|
  {
    hide SplitInTwo, OldCell, NewCell;
    HalvesShare(At(t, p), ty, hint);
    var u := Split(t, p, ty, hint);
    if p == [] {
      AtChild(u, [1]);
      AtChild(u, [0]);
    } else if |p| == 1 && t.kind == ty {
      SplitBesideMakes(t, p, hint);
    } else {
      var k := t.kids[p[0]];
      SplitMakes(k, p[1..], ty, hint);
      TailPath(p[0], SplitPath(k, p[1..], ty));
    }
  }

  lemma SplitBesideMakes(t: Tree, p: Path, hint: int)
    requires |p| == 1 && PaneAt(t, p) && t.kind != WindowPane
    ensures var u, i := Split(t, p, t.kind, hint), p[0];
            && ValidPath(u, [i]) && At(u, [i]) == OldCell(At(t, p), t.kind, hint)
            && ValidPath(u, [i + 1]) && At(u, [i + 1]) == NewCell(At(t, p), t.kind, hint)
    ensures Prior([p[0] + 1]) == [p[0]]
  {
    hide OldCell, NewCell;
    AtChild(t, p);
    var u, m := Split(t, p, t.kind, hint), Halves(t.kids[p[0]], t.kind, hint);
    SplicedAt(t.kids, p[0], m, p[0]);
    SplicedAt(t.kids, p[0], m, p[0] + 1);
    AtChild(u, [p[0]]);
    AtChild(u, [p[0] + 1]);
  }

  // Every cell that is not above or below the pane is as it was.
  lemma {:induction false} SplitElsewhere(t: Tree, p: Path, ty: Axis, hint: int, r: Path)
    requires PaneAt(t, p) && ValidPath(t, r) && !(r <= p) && !(p <= r)
    ensures var u, v := Split(t, p, ty, hint), Shifted(p, SplitPath(t, p, ty), r);
            ValidPath(u, v) && At(u, v) == At(t, r)
    decreases |p|
  {
    hide OldCell, NewCell, Shifted, Split, SplitPath, At, ValidPath;
    RootPath(t);
    assert r == [r[0]] + r[1..] && p == [p[0]] + p[1..];
    BelowPath(t, r[0], r[1..]);
    BelowPath(t, p[0], p[1..]);
    if |p| == 1 && t.kind == ty {
      SplitBesideElsewhere(t, p, hint, r);
    } else {
      var k, u := t.kids[p[0]], Split(t, p, ty, hint);
      SplitBelow(t, p, ty, hint);
      SplitPathIs(k, p[1..], ty);
      if r[0] == p[0] {
        SplitElsewhere(k, p[1..], ty, hint, r[1..]);
        ShiftedTail(p, SplitPath(k, p[1..], ty), r);
        BelowPath(u, p[0], Shifted(p[1..], SplitPath(k, p[1..], ty), r[1..]));
      } else {
        ShiftedNot(p, SplitPath(t, p, ty), r);
        BelowPath(u, r[0], r[1..]);
      }
    }
  }

  lemma RootPath(t: Tree)
    ensures ValidPath(t, []) && At(t, []) == t
  {
  }

  lemma BelowPath(t: Tree, i: nat, p: Path)
    ensures ValidPath(t, [i] + p) <==> i < |t.kids| && ValidPath(t.kids[i], p)
    ensures ValidPath(t, [i] + p) ==> At(t, [i] + p) == At(t.kids[i], p)
  {
    assert ([i] + p)[1..] == p;
  }

  lemma SplitBelow(t: Tree, p: Path, ty: Axis, hint: int)
    requires PaneAt(t, p) && p != [] && !(|p| == 1 && t.kind == ty)
    ensures p[0] < |t.kids| && PaneAt(t.kids[p[0]], p[1..])
    ensures Split(t, p, ty, hint) == t.(kids := t.kids[p[0] := Split(t.kids[p[0]], p[1..], ty, hint)])
    ensures SplitPath(t, p, ty) == [p[0]] + SplitPath(t.kids[p[0]], p[1..], ty)
  {
  }

  lemma SplitBesideElsewhere(t: Tree, p: Path, hint: int, r: Path)
    requires |p| == 1 && PaneAt(t, p) && t.kind != WindowPane && ValidPath(t, r) && r != [] && r[0] != p[0]
    ensures var u, v := Split(t, p, t.kind, hint), Shifted(p, SplitPath(t, p, t.kind), r);
            ValidPath(u, v) && At(u, v) == At(t, r)
  {
    hide OldCell, NewCell;
    var q := SplitPath(t, p, t.kind);
    var v := Shifted(p, q, r);
    assert q[..0] == r[..0];
    SplicedAt(t.kids, p[0], Halves(t.kids[p[0]], t.kind, hint), v[0]);
    assert v[1..] == r[1..];
  }

  lemma ShiftedNot(p: Path, q: Path, r: Path)
    requires |q| > 1 && r != [] && r[0] != q[0]
    ensures Shifted(p, q, r) == r
  {
    if |q| <= |r| {
      assert r[..|q| - 1][0] != q[..|q| - 1][0];
    }
  }

  lemma ShiftedTail(p: Path, q: Path, r: Path)
    requires p != [] && r != [] && r[0] == p[0] && (|q| == |p| || (|p| > 1 && |q| == |p| - 1)) && q != []
    ensures Shifted(p, [p[0]] + q, r) == [p[0]] + Shifted(p[1..], q, r[1..])
  {
    var m := |q|;
    assert ([p[0]] + q)[..m] == [p[0]] + q[..m - 1];
    assert r == [p[0]] + r[1..];
    if m <= |r| {
      assert r[..m] == [p[0]] + r[1..][..m - 1];
      if r[..m] == ([p[0]] + q)[..m] {
        assert r[1..][..m - 1] == r[..m][1..] == ([p[0]] + q)[..m][1..] == q[..m - 1];
      }
    }
  }

  // The containers above it keep all but their children, and get at most one more.
  lemma {:induction false} SplitAbove(t: Tree, p: Path, ty: Axis, hint: int, r: Path)
    requires PaneAt(t, p) && r < p
    ensures ValidPath(t, r)
    ensures var u := Split(t, p, ty, hint);
            && ValidPath(u, r) && At(u, r) == At(t, r).(kids := At(u, r).kids)
            && |At(u, r).kids| == |At(t, r).kids| + if |r| + 1 == |p| && At(t, r).kind == ty then 1 else 0
    decreases |p|
  {
    hide OldCell, NewCell;
    if r != [] {
      assert r[0] == p[0] && r[1..] < p[1..];
      SplitAbove(t.kids[p[0]], p[1..], ty, hint, r[1..]);
    }
  }

  // Splitting a pane and closing the new one leaves the tree as it was, cell
  // for cell, whether or not the split made a new container.
  lemma {:induction false} DestroyUndoesSplit(t: Tree, p: Path, ty: Axis, hint: int)
    requires WellFormed(t) && PaneAt(t, p) && RoomToSplit(t, p, ty)
    ensures var u, q := Split(t, p, ty, hint), SplitPath(t, p, ty);
            WellFormed(u) && PaneAt(u, q) && q != [] && Destroy(u, q) == t
    decreases |p|
  {
    hide WellFormed, Replaces, Placed, Check, Sum;
    SplitSound(t, p, ty, hint);
    SplitPathSound(t, p, ty, hint);
    var u := Split(t, p, ty, hint);
    ReplacesSize(t, u);
    KidsWellFormed(t);
    if p == [] {
      DestroyHalf(u, 1, t, ty, hint);
    } else if |p| == 1 && t.kind == ty {
      DestroyUndoesSplitBeside(t, p, hint);
    } else {
      DestroyUndoesSplit(t.kids[p[0]], p[1..], ty, hint);
    }
  }

  lemma DestroyUndoesSplitBeside(t: Tree, p: Path, hint: int)
    requires WellFormed(t) && |p| == 1 && PaneAt(t, p) && t.kind != WindowPane && RoomToSplit(t, p, t.kind)
    requires WellFormed(Split(t, p, t.kind, hint))
    ensures ValidPath(Split(t, p, t.kind, hint), [p[0] + 1])
    ensures Destroy(Split(t, p, t.kind, hint), [p[0] + 1]) == t
  {
    hide WellFormed, Check, Spliced;
    var i := p[0];
    var u := Split(t, p, t.kind, hint);
    AtChild(t, p);
    KidsWellFormed(t);
    SplicedAt(t.kids, i, Halves(t.kids[i], t.kind, hint), i);
    SplicedAt(t.kids, i, Halves(t.kids[i], t.kind, hint), i + 1);
    DestroyHalf(u, i + 1, t.kids[i], t.kind, hint);
    KidsWellFormed(u);
    assert Without(u.kids, t.kind, i + 1) == t.kids by {
      forall j | 0 <= j < |t.kids| ensures (u.kids[..i] + [t.kids[i]] + u.kids[i + 2..])[j] == t.kids[j] {
        SplicedAt(t.kids, i, Halves(t.kids[i], t.kind, hint), if j < i then j else j + 1);
      }
    }
    PaneChild(u, [i + 1]);
  }

  // Removing the second half of c gives c back in place of both halves.
  lemma DestroyHalf(u: Tree, i: nat, c: Tree, ty: Axis, hint: int)
    requires WellFormed(u) && u.kind == ty && 1 <= i < |u.kids|
    requires WellFormed(c) && c.kind == WindowPane && Size(c, ty) >= PANE_MINIMUM * 2 + 1
    requires u.kids[i - 1] == OldCell(c, ty, hint) && u.kids[i] == NewCell(c, ty, hint)
    ensures Without(u.kids, ty, i) == u.kids[..i - 1] + [c] + u.kids[i + 1..]
  {
    hide WellFormed, Adjust, OldCell, NewCell;
    KidsWellFormed(u);
    GrownHalf(c, ty, hint);
  }

  lemma GrownHalf(c: Tree, ty: Axis, hint: int)
    requires WellFormed(c) && c.kind == WindowPane && Size(c, ty) >= PANE_MINIMUM * 2 + 1
    ensures Branching(OldCell(c, ty, hint)) && Size(NewCell(c, ty, hint), ty) >= 0
    ensures Adjust(OldCell(c, ty, hint), ty, Size(NewCell(c, ty, hint), ty) + 1) == c
  {
    SplitSizes(Size(c, ty), hint);
    assert Adjust(OldCell(c, ty, hint), ty, Size(NewCell(c, ty, hint), ty) + 1).kids == c.kids;
  }

  lemma CloseUndoesSplit(t: Tree, p: Path, ty: Axis, hint: int)
    requires WellFormed(t) && Placed(t) && t.xoff == 0 && t.yoff == 0
    requires PaneAt(t, p) && RoomToSplit(t, p, ty)
    ensures var u, q := Split(t, p, ty, hint), SplitPath(t, p, ty);
            WellFormed(u) && PaneAt(u, q) && q != [] && Close(u, q) == t
  {
    DestroyUndoesSplit(t, p, ty, hint);
    PlacedIsFixed(t);
  }
}
