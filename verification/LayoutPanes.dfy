// The panes of a layout in order: no operation loses, repeats or reorders one.
module LayoutPanes {
  import opened Common
  import opened Sums
  import opened LayoutTree
  import opened LayoutGeometry
  import opened LayoutOps
  import opened LayoutResize
  import opened LayoutWindow
  import opened LayoutRuns

  function Flat<T>(ss: seq<seq<T>>): seq<T> {
    if ss == [] then [] else Flat(ss[..|ss| - 1]) + ss[|ss| - 1]
  }

  lemma FlatLast<T>(ss: seq<seq<T>>, s: seq<T>)
    ensures Flat(ss + [s]) == Flat(ss) + s
  {
    assert (ss + [s])[..|ss|] == ss;
  }

  lemma {:induction false} FlatAppend<T>(a: seq<seq<T>>, b: seq<seq<T>>)
    ensures Flat(a + b) == Flat(a) + Flat(b)
    decreases |b|
  {
    hide Flat;
    FlatNone<T>();
    if b == [] {
      assert a + b == a;
    } else {
      var c, s := b[..|b| - 1], b[|b| - 1];
      assert b == c + [s] && a + b == (a + c) + [s];
      FlatAppend(a, c);
      FlatLast(c, s);
      FlatLast(a + c, s);
    }
  }

  lemma FlatSpliced<T>(ss: seq<seq<T>>, i: nat, m: seq<seq<T>>)
    requires i < |ss|
    ensures Flat(Spliced(ss, i, m)) == Flat(ss[..i]) + Flat(m) + Flat(ss[i + 1..])
  {
    FlatAppend(ss[..i] + m, ss[i + 1..]);
    FlatAppend(ss[..i], m);
  }

  // Replacing element j of the middle one of three runs.
  lemma SplicedWithin<T>(a: seq<T>, b: seq<T>, c: seq<T>, j: nat, m: seq<T>)
    requires j < |b|
    ensures a + Spliced(b, j, m) + c == Spliced(a + b + c, |a| + j, m)
  {
    var s := a + b + c;
    assert s[..|a| + j] == a + b[..j] && s[|a| + j + 1..] == b[j + 1..] + c;
  }

  function Panes(t: Tree): seq<Option<nat>>
    decreases t
  {
    if t.kind == WindowPane then [t.pane] else Flat(PanesEach(t.kids))
  }

  function PanesEach(ks: seq<Tree>): (r: seq<seq<Option<nat>>>)
    ensures |r| == |ks| && forall i :: 0 <= i < |ks| ==> r[i] == Panes(ks[i])
    decreases ks
  {
    seq(|ks|, i requires 0 <= i < |ks| => Panes(ks[i]))
  }

  // The position among the panes of the first pane at or below p.
  function PaneIndex(t: Tree, p: Path): nat
    requires ValidPath(t, p)
    decreases |p|
  {
    if p == [] then 0 else |Flat(PanesEach(t.kids)[..p[0]])| + PaneIndex(t.kids[p[0]], p[1..])
  }

  lemma PanesSpliced(ks: seq<Tree>, i: nat, m: seq<Tree>)
    requires i < |ks|
    ensures var e := PanesEach(ks);
            Flat(PanesEach(Spliced(ks, i, m))) == Flat(e[..i]) + Flat(PanesEach(m)) + Flat(e[i + 1..])
  {
    hide Spliced, Panes;
    forall j | 0 <= j < |ks| + |m| - 1
      ensures PanesEach(Spliced(ks, i, m))[j] == Spliced(PanesEach(ks), i, PanesEach(m))[j]
    {
      SplicedAt(ks, i, m, j);
      SplicedAt(PanesEach(ks), i, PanesEach(m), j);
    }
    assert PanesEach(Spliced(ks, i, m)) == Spliced(PanesEach(ks), i, PanesEach(m));
    FlatSpliced(PanesEach(ks), i, PanesEach(m));
  }

  lemma FlatOne<T>(s: seq<T>)
    ensures Flat([s]) == s
  {
    assert [s][..0] == [];
    assert Flat([s]) == Flat<T>([]) + s;
  }

  lemma PanesAround(ks: seq<Tree>, i: nat)
    requires i < |ks|
    ensures var e := PanesEach(ks); Flat(e) == Flat(e[..i]) + Panes(ks[i]) + Flat(e[i + 1..])
  {
    hide Panes, Spliced, Flat;
    var e := PanesEach(ks);
    SplicedIsUpdate(e, i, e[i]);
    assert e[i := e[i]] == e;
    FlatSpliced(e, i, [e[i]]);
    FlatOne(e[i]);
  }

  lemma PanesWhole(t: Tree)
    requires t.kind != WindowPane
    ensures Panes(t) == Flat(PanesEach(t.kids))
  {
  }

  // Changing the run of panes below child i changes the container's there.
  lemma PanesOfChild(t: Tree, i: nat, m: seq<Tree>, j: nat, change: seq<Option<nat>>)
    requires t.kind != WindowPane && i < |t.kids| && j < |Panes(t.kids[i])|
    requires Flat(PanesEach(m)) == Spliced(Panes(t.kids[i]), j, change)
    ensures var k := |Flat(PanesEach(t.kids)[..i])| + j;
            && k < |Panes(t)| && Panes(t)[k] == Panes(t.kids[i])[j]
            && Flat(PanesEach(Spliced(t.kids, i, m))) == Spliced(Panes(t), k, change)
  {
    hide *;
    var e := PanesEach(t.kids);
    PanesWhole(t);
    PanesAround(t.kids, i);
    PanesSpliced(t.kids, i, m);
    SplicedWithin(Flat(e[..i]), Panes(t.kids[i]), Flat(e[i + 1..]), j, change);
  }

  lemma PanesOfKid(t: Tree, i: nat, k: Tree, j: nat, change: seq<Option<nat>>)
    requires t.kind != WindowPane && i < |t.kids| && j < |Panes(t.kids[i])|
    requires Panes(k) == Spliced(Panes(t.kids[i]), j, change)
    ensures var at := |Flat(PanesEach(t.kids)[..i])| + j;
            && at < |Panes(t)| && Panes(t)[at] == Panes(t.kids[i])[j]
            && Panes(t.(kids := t.kids[i := k])) == Spliced(Panes(t), at, change)
  {
    hide Spliced;
    assert PanesEach([k]) == [Panes(k)];
    FlatOne(Panes(k));
    PanesOfChild(t, i, [k], j, change);
    SplicedIsUpdate(t.kids, i, k);
  }

  lemma SplicedIsUpdate<T>(s: seq<T>, i: nat, x: T)
    requires i < |s|
    ensures Spliced(s, i, [x]) == s[i := x]
  {
  }

  lemma {:induction false} PaneIndexed(t: Tree, p: Path)
    requires WellFormed(t) && PaneAt(t, p)
    ensures PaneIndex(t, p) < |Panes(t)| && Panes(t)[PaneIndex(t, p)] == At(t, p).pane
    decreases |p|
  {
    hide WellFormed, Flat;
    if p != [] {
      KidsWellFormed(t);
      PaneIndexed(t.kids[p[0]], p[1..]);
      PanesAround(t.kids, p[0]);
    }
  }

  lemma SplitPanesBeside(t: Tree, p: Path, hint: int)
    requires WellFormed(t) && PaneAt(t, p) && |p| == 1 && t.kind != WindowPane
    ensures PaneIndex(t, p) < |Panes(t)|
    ensures Panes(Split(t, p, t.kind, hint)) == Spliced(Panes(t), PaneIndex(t, p), [At(t, p).pane, None])
  {
    hide Spliced, WellFormed, Flat;
    var i := p[0];
    AtChild(t, p);
    assert p[1..] == [] && PaneIndex(t.kids[i], p[1..]) == 0;
    HalvesPanes(t.kids[i], t.kind, hint);
    SplicedSingle(t.kids[i].pane, [t.kids[i].pane, None]);
    PanesOfChild(t, i, Halves(t.kids[i], t.kind, hint), 0, [t.kids[i].pane, None]);
  }

  // A split puts the new cell right after the pane that is split.
  lemma {:induction false} SplitPanes(t: Tree, p: Path, ty: Axis, hint: int)
    requires WellFormed(t) && PaneAt(t, p)
    ensures PaneIndex(t, p) < |Panes(t)|
    ensures Panes(Split(t, p, ty, hint)) == Spliced(Panes(t), PaneIndex(t, p), [At(t, p).pane, None])
    decreases |p|
  {
    hide Spliced, WellFormed, Flat;
    KidsWellFormed(t);
    if p == [] {
      HalvesPanes(t, ty, hint);
      SplicedSingle(t.pane, [t.pane, None]);
    } else if |p| == 1 && t.kind == ty {
      SplitPanesBeside(t, p, hint);
    } else {
      SplitPanes(t.kids[p[0]], p[1..], ty, hint);
      PanesOfKid(t, p[0], Split(t.kids[p[0]], p[1..], ty, hint), PaneIndex(t.kids[p[0]], p[1..]),
                 [At(t, p).pane, None]);
    }
  }

  lemma SplicedSingle<T>(x: T, m: seq<T>)
    ensures Spliced([x], 0, m) == m
  {
  }

  lemma HalvesPanes(c: Tree, ty: Axis, hint: int)
    requires c.kind == WindowPane
    ensures Flat(PanesEach(Halves(c, ty, hint))) == [c.pane, None]
  {
    var e := PanesEach(Halves(c, ty, hint));
    assert e == [[c.pane]] + [[None]];
    FlatAppend([[c.pane]], [[None]]);
    FlatOne([c.pane]);
    FlatOne<Option<nat>>([None]);
  }

  lemma {:induction false} ReshapedPanes(t: Tree, u: Tree, ty: Axis)
    requires Reshaped(t, u, ty)
    ensures Panes(u) == Panes(t)
    decreases t
  {
    forall i | 0 <= i < |t.kids| ensures Panes(u.kids[i]) == Panes(t.kids[i]) {
      ReshapedPanes(t.kids[i], u.kids[i], ty);
    }
    assert PanesEach(u.kids) == PanesEach(t.kids);
  }

  lemma {:induction false} DisplacedPanes(t: Tree, u: Tree)
    requires Displaced(t, u)
    ensures Panes(u) == Panes(t)
    decreases t
  {
    forall i | 0 <= i < |t.kids| ensures Panes(u.kids[i]) == Panes(t.kids[i]) {
      DisplacedPanes(t.kids[i], u.kids[i]);
    }
    assert PanesEach(u.kids) == PanesEach(t.kids);
  }

  // A close takes out the pane that is closed.
  lemma {:induction false} DestroyPanes(t: Tree, p: Path)
    requires Branching(t) && PaneAt(t, p) && p != []
    ensures PaneIndex(t, p) < |Panes(t)|
    ensures Panes(Destroy(t, p)) == Spliced(Panes(t), PaneIndex(t, p), [])
    decreases |p|
  {
    hide Spliced, Branching, Shaped, Without, Collapse, Flat;
    KidsBranching(t);
    if |p| == 1 {
      AtChild(t, p);
      assert p[1..] == [] && PaneIndex(t.kids[p[0]], p[1..]) == 0;
      WithoutPanes(t, p[0]);
    } else {
      DestroyPanes(t.kids[p[0]], p[1..]);
      PanesOfKid(t, p[0], Destroy(t.kids[p[0]], p[1..]), PaneIndex(t.kids[p[0]], p[1..]), []);
    }
  }

  lemma WithoutPanes(t: Tree, i: nat)
    requires Branching(t) && i < |t.kids| && |t.kids| >= 2 && t.kids[i].kind == WindowPane
    requires AllBranching(t.kids) && t.kind != WindowPane
    ensures |Flat(PanesEach(t.kids)[..i])| < |Panes(t)|
    ensures Panes(Collapse(t.(kids := Without(t.kids, t.kind, i))))
            == Spliced(Panes(t), |Flat(PanesEach(t.kids)[..i])|, [])
  {
    hide Spliced, Branching, Adjust, Flat, Collapse, Panes;
    var h, size := Heir(i), Size(t.kids[i], t.kind) + 1;
    KidsBranching(t.kids[i]);
    var k := Adjust(t.kids[h], t.kind, size);
    AdjustPanes(t.kids[h], t.kind, size);
    var ks := t.kids[h := k];
    assert PanesEach(ks) == PanesEach(t.kids);
    PanesWhole(t);
    PanesWhole(t.(kids := ks));
    DropPane(t.(kids := ks), i);
    CollapsePanes(t.(kids := Without(t.kids, t.kind, i)));
  }

  lemma AdjustPanes(t: Tree, ty: Axis, change: int)
    requires Shaped(t) && -change <= Check(t, ty)
    ensures Panes(Adjust(t, ty, change)) == Panes(t)
  {
    hide Shaped, WellFormed, Branching, Check, Adjust, Reshaped, Panes;
    AdjustCorrect(t, ty, change);
    ReshapedPanes(t, Adjust(t, ty, change), ty);
  }

  lemma DropPane(t: Tree, i: nat)
    requires t.kind != WindowPane && i < |t.kids| && t.kids[i].kind == WindowPane
    ensures |Flat(PanesEach(t.kids)[..i])| < |Panes(t)|
    ensures Flat(PanesEach(Spliced(t.kids, i, []))) == Spliced(Panes(t), |Flat(PanesEach(t.kids)[..i])|, [])
  {
    hide Spliced, Flat;
    SplicedSingle(t.kids[i].pane, []);
    FlatNone<Option<nat>>();
    assert PanesEach([]) == [];
    PanesOfChild(t, i, [], 0, []);
  }

  lemma FlatNone<T>()
    ensures Flat<T>([]) == []
  {
  }

  lemma CollapsePanes(t: Tree)
    requires t.kind != WindowPane
    ensures Panes(Collapse(t)) == Flat(PanesEach(t.kids))
  {
    if |t.kids| == 1 {
      assert PanesEach(t.kids) == [Panes(t.kids[0])];
      FlatOne(Panes(t.kids[0]));
    }
  }

  lemma {:induction false} AssignPanes(t: Tree, p: Path, pane: nat)
    requires WellFormed(t) && PaneAt(t, p)
    ensures PaneIndex(t, p) < |Panes(t)|
    ensures Panes(Assign(t, p, pane)) == Panes(t)[PaneIndex(t, p) := Some(pane)]
    decreases |p|
  {
    hide Spliced, WellFormed;
    KidsWellFormed(t);
    if p != [] {
      var j := PaneIndex(t.kids[p[0]], p[1..]);
      AssignPanes(t.kids[p[0]], p[1..], pane);
      SplicedIsUpdate(Panes(t.kids[p[0]]), j, Some(pane));
      PanesOfKid(t, p[0], Assign(t.kids[p[0]], p[1..], pane), j, [Some(pane)]);
      SplicedIsUpdate(Panes(t), PaneIndex(t, p), Some(pane));
    }
  }

  lemma {:induction false} SplitPathIndex(t: Tree, p: Path, ty: Axis, hint: int)
    requires WellFormed(t) && PaneAt(t, p) && PaneAt(Split(t, p, ty, hint), SplitPath(t, p, ty))
    ensures PaneIndex(Split(t, p, ty, hint), SplitPath(t, p, ty)) == PaneIndex(t, p) + 1
    decreases |p|
  {
    hide Spliced, WellFormed, OldCell, NewCell, Flat;
    KidsWellFormed(t);
    if p == [] {
      HalfBefore([], t, [], ty, hint);
      assert [] + Halves(t, ty, hint) + [] == Split(t, p, ty, hint).kids;
      FlatNone<Option<nat>>();
      assert PanesEach([]) == [];
      IndexAt(Split(t, p, ty, hint), 1);
    } else if |p| == 1 && t.kind == ty {
      AtChild(t, p);
      assert p == [p[0]];
      SplitPathBeside(t, p[0], hint);
    } else {
      var k := Split(t.kids[p[0]], p[1..], ty, hint);
      assert SplitPath(t, p, ty)[1..] == SplitPath(t.kids[p[0]], p[1..], ty);
      SplitPathIndex(t.kids[p[0]], p[1..], ty, hint);
      assert PanesEach(t.kids[p[0] := k])[..p[0]] == PanesEach(t.kids)[..p[0]];
    }
  }

  lemma SplitPathBeside(t: Tree, i: nat, hint: int)
    requires t.kind != WindowPane && i < |t.kids| && t.kids[i].kind == WindowPane
    requires PaneAt(t, [i]) && ValidPath(Split(t, [i], t.kind, hint), [i + 1])
    ensures PaneIndex(Split(t, [i], t.kind, hint), [i + 1]) == PaneIndex(t, [i]) + 1
  {
    hide Spliced, OldCell, NewCell, Flat, PanesEach, PaneIndex, ValidPath;
    var m := Halves(t.kids[i], t.kind, hint);
    var u := Split(t, [i], t.kind, hint);
    assert u == t.(kids := Spliced(t.kids, i, m));
    SplicedIs(t.kids, i, m);
    HalfBefore(t.kids[..i], t.kids[i], t.kids[i + 1..], t.kind, hint);
    IndexAt(t, i);
    IndexAt(u, i + 1);
    PanesPrefix(t.kids, i);
  }

  lemma SplicedIs<T>(s: seq<T>, i: nat, m: seq<T>)
    requires i < |s|
    ensures Spliced(s, i, m) == s[..i] + m + s[i + 1..]
  {
  }

  lemma IndexAt(t: Tree, i: nat)
    requires i < |t.kids|
    ensures PaneIndex(t, [i]) == |Flat(PanesEach(t.kids)[..i])|
  {
    assert [i][1..] == [] && PaneIndex(t.kids[i], [i][1..]) == 0;
  }

  lemma PanesPrefix(ks: seq<Tree>, i: nat)
    requires i <= |ks|
    ensures PanesEach(ks)[..i] == PanesEach(ks[..i])
  {
  }

  // The new half is one pane further on than the old one was.
  lemma HalfBefore(a: seq<Tree>, c: Tree, b: seq<Tree>, ty: Axis, hint: int)
    requires c.kind == WindowPane
    ensures |Flat(PanesEach(a + Halves(c, ty, hint) + b)[..|a| + 1])| == |Flat(PanesEach(a))| + 1
  {
    hide OldCell, NewCell;
    var ks := a + Halves(c, ty, hint) + b;
    HalfFields(c, ty, hint);
    assert PanesEach(ks)[..|a| + 1] == PanesEach(a) + [[c.pane]];
    FlatAppend(PanesEach(a), [[c.pane]]);
    FlatOne([c.pane]);
  }

  lemma SplitOpPanes(t: Tree, p: Path, ty: Axis, hint: int, pane: nat)
    requires WellFormed(t) && PaneAt(t, p) && RoomToSplit(t, p, ty)
    ensures PaneAt(Split(t, p, ty, hint), SplitPath(t, p, ty)) && PaneIndex(t, p) < |Panes(t)|
    ensures Panes(Assign(Split(t, p, ty, hint), SplitPath(t, p, ty), pane))
            == Spliced(Panes(t), PaneIndex(t, p), [At(t, p).pane, Some(pane)])
  {
    hide WellFormed, Panes, PaneIndex, Split, SplitPath, Assign, At, Replaces;
    SplitPathSound(t, p, ty, hint);
    SplitSound(t, p, ty, hint);
    ReplacesSize(t, Split(t, p, ty, hint));
    SplitPanes(t, p, ty, hint);
    SplitPathIndex(t, p, ty, hint);
    AssignPanes(Split(t, p, ty, hint), SplitPath(t, p, ty), pane);
  }

  lemma ClosePanes(t: Tree, p: Path)
    requires Branching(t) && PaneAt(t, p) && p != []
    ensures PaneIndex(t, p) < |Panes(t)| && Panes(Close(t, p)) == Spliced(Panes(t), PaneIndex(t, p), [])
  {
    hide Branching, Panes, PaneIndex, Destroy, Displaced, Fix, Placed, Spliced;
    DestroyPanes(t, p);
    DisplacedRefl(Destroy(t, p));
    CornerDisplaced(Destroy(t, p), DestroyRoot(t, p));
    DisplacedPanes(Destroy(t, p), DestroyRoot(t, p));
    FixPlaces(DestroyRoot(t, p), DestroyRoot(t, p).xoff, DestroyRoot(t, p).yoff);
    DisplacedPanes(DestroyRoot(t, p), Close(t, p));
  }

  lemma CornerDisplaced(t: Tree, u: Tree)
    requires u == t || u == t.(xoff := 0, yoff := 0)
    requires Displaced(t, t)
    ensures Displaced(t, u)
  {
  }

  lemma FixPanes(t: Tree)
    ensures Panes(FixOffsets(t)) == Panes(t)
  {
    FixPlaces(t, t.xoff, t.yoff);
    DisplacedPanes(t, FixOffsets(t));
  }

  lemma MovePanes(t: Tree, p: Path, ty: Axis, change: int)
    requires WellFormed(t) && PaneAt(t, p)
    ensures Panes(ResizePane(t, p, ty, change)) == Panes(t)
  {
    hide WellFormed, Panes, FixOffsets, ResizeAt, Reshaped;
    ResizeAtSound(t, p, ty, change);
    ReshapedPanes(t, ResizeAt(t, p, ty, change), ty);
    FixPanes(ResizeAt(t, p, ty, change));
  }

  lemma ResizePanes(t: Tree, sx: int, sy: int, newsx: int, newsy: int)
    requires Shaped(t)
    ensures Panes(ResizeWindow(t, sx, sy, newsx, newsy)) == Panes(t)
  {
    hide Shaped, WellFormed, Branching, Panes, FixOffsets, ResizeAxis, Reshaped, Following;
    var a := ResizeAxis(t, LeftRight, sx, newsx);
    ResizeAxisSound(t, LeftRight, sx, newsx);
    ReshapedPanes(t, a, LeftRight);
    var b := ResizeAxis(a, TopBottom, sy, newsy);
    ResizeAxisSound(a, TopBottom, sy, newsy);
    ReshapedPanes(a, b, TopBottom);
    FixPanes(b);
  }

  // What each operation does to the panes and their order: a split adds the
  // new pane after the one split, a close removes the one closed, and nothing
  // else changes them.
  lemma ApplyPanes(w: State, op: Op)
    requires Tiled(w) && Legal(w, op)
    ensures var before, after := Panes(w.layout), Panes(Apply(w, op).layout);
            match op
            case SplitPane(p, ty, hint, pane) =>
              PaneIndex(w.layout, p) < |before| &&
              after == if RoomToSplit(w.layout, p, ty) then
                         Spliced(before, PaneIndex(w.layout, p), [before[PaneIndex(w.layout, p)], Some(pane)])
                       else before
            case ClosePane(p) =>
              PaneIndex(w.layout, p) < |before| && after == Spliced(before, PaneIndex(w.layout, p), [])
            case MovePane(_, _, _) => after == before
            case ResizeTo(_, _) => after == before
  {
    hide WellFormed, Placed, Panes, PaneIndex, Split, SplitPath, Assign, Close, ResizePane, ResizeWindow, Spliced;
    match op
    case SplitPane(p, ty, hint, pane) =>
      PaneIndexed(w.layout, p);
      if RoomToSplit(w.layout, p, ty) {
        SplitOpPanes(w.layout, p, ty, hint, pane);
      }
    case ClosePane(p) => ClosePanes(w.layout, p);
    case MovePane(p, ty, change) => MovePanes(w.layout, p, ty, change);
    case ResizeTo(sx, sy) => ResizePanes(w.layout, w.sx, w.sy, sx, sy);
  }

  // ------------------------------------------------------------------
  // Runs

  ghost predicate EachOnce(ps: seq<Option<nat>>) {
    && (forall i :: 0 <= i < |ps| ==> ps[i].Some?)
    && forall i, j :: 0 <= i < j < |ps| ==> ps[i] != ps[j]
  }

  // The cells hold exactly these panes, each in one cell, and none is empty.
  ghost predicate Holds(ps: seq<Option<nat>>, held: set<nat>) {
    EachOnce(ps) && forall x: nat :: Some(x) in ps <==> x in held
  }

  lemma HoldsMore(ps: seq<Option<nat>>, held: set<nat>, i: nat, x: nat)
    requires Holds(ps, held) && i < |ps| && x !in held
    ensures Holds(Spliced(ps, i, [ps[i], Some(x)]), held + {x})
  {
    var rs := Spliced(ps, i, [ps[i], Some(x)]);
    assert rs == ps[..i + 1] + [Some(x)] + ps[i + 1..];
    assert Some(x) !in ps;
    forall y: nat ensures Some(y) in rs <==> y in held + {x} {
      assert ps == ps[..i + 1] + ps[i + 1..];
    }
  }

  lemma HoldsLess(ps: seq<Option<nat>>, held: set<nat>, i: nat)
    requires Holds(ps, held) && i < |ps|
    ensures ps[i].Some? && Holds(Spliced(ps, i, []), held - {ps[i].value})
  {
    hide Spliced;
    var rs := Spliced(ps, i, []);
    forall j | 0 <= j < |rs| ensures rs[j] == ps[Skip(i, j)] {
      SplicedAt(ps, i, [], j);
    }
    forall y: nat ensures Some(y) in rs <==> y in held - {ps[i].value} {
      if k :| 0 <= k < |ps| && ps[k] == Some(y) && k != i {
        assert rs[if k < i then k else k - 1] == Some(y);
      }
    }
  }

  // The panes there are after an operation.
  ghost function HeldNext(w: State, op: Op, held: set<nat>): set<nat>
    requires Legal(w, op)
  {
    match op
    case SplitPane(p, ty, _, pane) => if RoomToSplit(w.layout, p, ty) then held + {pane} else held
    case ClosePane(p) => if At(w.layout, p).pane.Some? then held - {At(w.layout, p).pane.value} else held
    case _ => held
  }

  lemma ApplyHolds(w: State, op: Op, held: set<nat>)
    requires Tiled(w) && Legal(w, op) && Holds(Panes(w.layout), held)
    requires op.SplitPane? ==> op.pane !in held
    ensures Holds(Panes(Apply(w, op).layout), HeldNext(w, op, held))
  {
    hide WellFormed, Placed, Panes, PaneIndex, Apply, Spliced, Holds, RoomToSplit;
    ApplyPanes(w, op);
    match op
    case SplitPane(p, ty, _, pane) => HoldsMore(Panes(w.layout), held, PaneIndex(w.layout, p), pane);
    case ClosePane(p) =>
      PaneIndexed(w.layout, p);
      HoldsLess(Panes(w.layout), held, PaneIndex(w.layout, p));
    case _ =>
  }

  // No split of the run brings in a pane that there is already.
  ghost predicate FreshPanes(w: State, ops: seq<Op>, held: set<nat>)
    decreases |ops|
  {
    ops != [] && Tiled(w) && Legal(w, ops[0]) ==>
      && (ops[0].SplitPane? ==> ops[0].pane !in held)
      && FreshPanes(Apply(w, ops[0]), ops[1..], HeldNext(w, ops[0], held))
  }

  ghost function HeldAfter(w: State, ops: seq<Op>, held: set<nat>): set<nat>
    decreases |ops|
  {
    if ops != [] && Tiled(w) && Legal(w, ops[0]) then
      HeldAfter(Apply(w, ops[0]), ops[1..], HeldNext(w, ops[0], held))
    else held
  }

  lemma {:induction false} RunHolds(w: State, ops: seq<Op>, w': State, held: set<nat>)
    requires Tiled(w) && Holds(Panes(w.layout), held) && Runs(w, ops, w') && FreshPanes(w, ops, held)
    ensures Holds(Panes(w'.layout), HeldAfter(w, ops, held))
    decreases |ops|
  {
    hide Tiled, Legal, Apply, Panes, Holds, HeldNext;
    if ops != [] {
      ApplyTiled(w, ops[0]);
      ApplyHolds(w, ops[0], held);
      RunHolds(Apply(w, ops[0]), ops[1..], w', HeldNext(w, ops[0], held));
    }
  }

  // Over any run from a new window no pane is lost and none is in two cells:
  // the cells hold the first pane and those split in, but for those closed.
  lemma ReachableHolds(sx: nat, sy: nat, pane: nat, ops: seq<Op>, w: State)
    requires Runs(Init(sx, sy, pane), ops, w) && FreshPanes(Init(sx, sy, pane), ops, {pane})
    ensures Holds(Panes(w.layout), HeldAfter(Init(sx, sy, pane), ops, {pane}))
  {
    assert Panes(Init(sx, sy, pane).layout) == [Some(pane)];
    RunHolds(Init(sx, sy, pane), ops, w, {pane});
  }
}
