// layout_parse: a window takes the layout a string describes, with its panes put
// into the cells in order.
module LayoutAssign {
  import opened Common
  import opened LayoutTree
  import opened LayoutEnds
  import opened LayoutGeometry
  import opened LayoutOps
  import opened LayoutResize
  import opened LayoutPanes
  import opened LayoutTrim
  import opened LayoutCustom

  // layout_assign: each cell in order takes the next pane of the list, which
  // is passed on from cell to cell.
  function AssignFrom(t: Tree, panes: seq<nat>): Tree
    requires |panes| >= |Panes(t)|
    decreases t, 1
  {
    if t.kind == WindowPane then t.(pane := Some(panes[0]))
    else t.(kids := AssignKids(t.kids, panes))
  }

  function AssignKids(ks: seq<Tree>, panes: seq<nat>): seq<Tree>
    requires |panes| >= |Flat(PanesEach(ks))|
    decreases ks, 0
  {
    if ks == [] then []
    else
      PanesAround(ks, 0);
      PanesTail(ks);
      [AssignFrom(ks[0], panes)] + AssignKids(ks[1..], panes[|Panes(ks[0])|..])
  }

  lemma PanesTail(ks: seq<Tree>)
    requires ks != []
    ensures Flat(PanesEach(ks)) == Panes(ks[0]) + Flat(PanesEach(ks[1..]))
  {
    hide Panes;
    PanesAround(ks, 0);
    FlatNone<Option<nat>>();
    assert PanesEach(ks)[..0] == [] && PanesEach(ks)[1..] == PanesEach(ks[1..]);
  }

  function Somes(panes: seq<nat>): (r: seq<Option<nat>>)
    ensures |r| == |panes| && forall i :: 0 <= i < |panes| ==> r[i] == Some(panes[i])
  {
    seq(|panes|, i requires 0 <= i < |panes| => Some(panes[i]))
  }

  // The cells end up holding the panes in the order of the list, and nothing
  // but who holds what has changed.
  lemma {:induction false} AssignInOrder(t: Tree, panes: seq<nat>)
    requires |panes| >= |Panes(t)|
    ensures Panes(AssignFrom(t, panes)) == Somes(panes[..|Panes(t)|])
    ensures Bare(AssignFrom(t, panes)) == Bare(t)
    decreases t, 1
  {
    if t.kind == WindowPane {
      assert Somes(panes[..1]) == [Some(panes[0])];
    } else {
      AssignKidsInOrder(t.kids, panes);
      BareKids(t);
      BareKids(AssignFrom(t, panes));
    }
  }

  lemma {:induction false} AssignKidsInOrder(ks: seq<Tree>, panes: seq<nat>)
    requires |panes| >= |Flat(PanesEach(ks))|
    ensures Flat(PanesEach(AssignKids(ks, panes))) == Somes(panes[..|Flat(PanesEach(ks))|])
    ensures BareAll(AssignKids(ks, panes)) == BareAll(ks)
    decreases ks, 0
  {
    hide Panes, PanesEach, Somes, AssignFrom, Bare;
    if ks == [] {
      assert AssignKids(ks, panes) == [] && PanesEach(ks) == [];
      FlatNone<Option<nat>>();
      assert panes[..0] == [] && Somes(panes[..0]) == [];
    } else {
      PanesTail(ks);
      var n, m := |Panes(ks[0])|, |Flat(PanesEach(ks[1..]))|;
      var r := AssignKids(ks, panes);
      AssignInOrder(ks[0], panes);
      AssignKidsInOrder(ks[1..], panes[n..]);
      assert r[0] == AssignFrom(ks[0], panes) && r[1..] == AssignKids(ks[1..], panes[n..]);
      PanesTail(r);
      SomesSplit(panes, n, m);
      BareTail(ks);
      BareTail(r);
    }
  }

  lemma SomesSplit(panes: seq<nat>, n: nat, m: nat)
    requires n + m <= |panes|
    ensures Somes(panes[..n + m]) == Somes(panes[..n]) + Somes(panes[n..][..m])
  {
  }

  lemma BareTail(ks: seq<Tree>)
    requires ks != []
    ensures BareAll(ks) == [Bare(ks[0])] + BareAll(ks[1..])
  {
    hide Bare;
    assert ks == [ks[0]] + ks[1..];
  }

  // ------------------------------------------------------------------
  // layout_parse

  lemma {:induction false} AssignWellFormed(t: Tree, panes: seq<nat>)
    requires WellFormed(t) && |panes| >= |Panes(t)|
    ensures var u := AssignFrom(t, panes); WellFormed(u) && u == t.(pane := u.pane, kids := u.kids)
    decreases t, 1
  {
    hide Panes;
    if t.kind != WindowPane {
      PanesWhole(t);
      AssignKidsWellFormed(t.kids, panes);
      var u := AssignFrom(t, panes);
      assert Sizes(u.kids, t.kind) == Sizes(t.kids, t.kind);
      assert Fills(t);
      assert Fills(u);
    }
  }

  lemma {:induction false} AssignKidsWellFormed(ks: seq<Tree>, panes: seq<nat>)
    requires AllWellFormed(ks) && |panes| >= |Flat(PanesEach(ks))|
    ensures var rs := AssignKids(ks, panes);
            && |rs| == |ks| && AllWellFormed(rs)
            && forall i, ty :: 0 <= i < |ks| ==> Size(rs[i], ty) == Size(ks[i], ty)
    decreases ks, 0
  {
    hide Panes, PanesEach, AssignFrom, WellFormed;
    if ks != [] {
      PanesTail(ks);
      AssignWellFormed(ks[0], panes);
      AssignKidsWellFormed(ks[1..], panes[|Panes(ks[0])|..]);
    }
  }

  // Panes have no part in whether cells are linked as they should be, or in how
  // much room they need.
  lemma {:induction false} BareShape(t: Tree)
    ensures Shaped(Bare(t)) <==> Shaped(t)
    ensures Branching(Bare(t)) <==> Branching(t)
    ensures forall ty :: Extent(Bare(t), ty) == Extent(t, ty)
    decreases t
  {
    hide WellFormed;
    forall i | 0 <= i < |t.kids|
      ensures Shaped(Bare(t).kids[i]) <==> Shaped(t.kids[i])
      ensures Branching(Bare(t).kids[i]) <==> Branching(t.kids[i])
      ensures forall ty :: Extent(Bare(t).kids[i], ty) == Extent(t.kids[i], ty)
    {
      BareShape(t.kids[i]);
    }
    forall ty ensures Extent(Bare(t), ty) == Extent(t, ty) {
      assert Extents(Bare(t).kids, ty) == Extents(t.kids, ty);
    }
  }

  lemma AssignShape(t: Tree, panes: seq<nat>)
    requires |panes| >= |Panes(t)|
    ensures var u := AssignFrom(t, panes);
            && (Shaped(u) <==> Shaped(t)) && u.sx == t.sx && u.sy == t.sy
            && forall ty :: Extent(u, ty) == Extent(t, ty)
  {
    hide *;
    AssignInOrder(t, panes);
    BareCell(t);
    BareCell(AssignFrom(t, panes));
    BareShape(t);
    BareShape(AssignFrom(t, panes));
  }

  // What layout_parse makes of a layout that has cells enough, before it is
  // fitted to the window.
  function Laid(t: Tree, panes: seq<nat>): Tree
    requires Trimmable(t, |panes|)
  {
    TrimmedSound(t, |panes|);
    FixOffsets(AssignFrom(Trimmed(t, |panes|), panes))
  }

  lemma LaidSound(t: Tree, panes: seq<nat>)
    requires Trimmable(t, |panes|)
    ensures var u := Laid(t, panes);
            && Panes(u) == Somes(panes) && Placed(u) && (Shaped(t) ==> Shaped(u))
            && (t.sx >= 0 && t.sy >= 0 ==> u.sx >= 0 && u.sy >= 0)
            && (WellFormed(t) ==> WellFormed(u) && u.sx == t.sx && u.sy == t.sy)
            && forall ty :: Extent(u, ty) <= Extent(t, ty)
  {
    hide WellFormed, Branching, Shaped, Placed, Panes, Trimmed, FixOffsets, AssignFrom, Bare, Check, Extent;
    TrimmedSound(t, |panes|);
    var u := Trimmed(t, |panes|);
    AssignInOrder(u, panes);
    assert panes[..|panes|] == panes;
    AssignShape(u, panes);
    var v := AssignFrom(u, panes);
    FixPanes(v);
    FixShape(v);
    if WellFormed(t) {
      AssignWellFormed(u, panes);
      FixKeeps(v);
    }
  }

  lemma FixShape(t: Tree)
    ensures var u := FixOffsets(t);
            && Placed(u) && (Shaped(t) ==> Shaped(u)) && u.sx == t.sx && u.sy == t.sy
            && forall ty :: Extent(u, ty) == Extent(t, ty)
  {
    hide Shaped, Placed, Extent, Displaced;
    FixPlaces(t, t.xoff, t.yoff);
    DisplacedExtent(t, FixOffsets(t));
    if Shaped(t) {
      DisplacedShaped(t, FixOffsets(t));
    }
  }

  // layout_parse up to where the layout is fitted to the window. It fails just
  // when the string is not a layout or has too few cells. The sizes in it need
  // not add up; where cells are closed they have to be such as can be handed on.
  method LayOut(layout: string, panes: seq<nat>) returns (r: Option<Tree>)
    requires panes != []
    requires var t := ReadDump(CString(layout)); t.Some? && |panes| < |Panes(t.value)| ==> Closable(t.value)
    ensures match ReadDump(CString(layout))
            case None => r == None
            case Some(t) =>
              if |panes| > |Panes(t)| then r == None
              else
                && Trimmable(t, |panes|) && r == Some(Laid(t, panes))
                && Panes(r.value) == Somes(panes) && Placed(r.value)
  {
    hide Branching, Panes, Placed, Trimmed, FixOffsets, AssignFrom, ReadDump, CString, Closable;
    r := Parse(layout);
    if r.None? {
      return;
    }
    var t := r.value;
    r := Trim(t, |panes|);
    if r.None? {
      return;
    }
    TrimmedSound(t, |panes|);
    LaidSound(t, panes);
    r := Some(FixOffsets(AssignFrom(r.value, panes)));
  }

  // The layout is fitted to the window from its own size.
  function Arranged(t: Tree, panes: seq<nat>, sx: int, sy: int): Tree
    requires Shaped(t) && Trimmable(t, |panes|)
  {
    LaidSound(t, panes);
    var u := Laid(t, panes);
    ResizeWindow(u, u.sx, u.sy, sx, sy)
  }

  lemma ArrangedSound(t: Tree, panes: seq<nat>, sx: int, sy: int)
    requires Shaped(t) && Trimmable(t, |panes|)
    ensures var v := Arranged(t, panes, sx, sy);
            && Panes(v) == Somes(panes) && Placed(v) && (WellFormed(t) ==> WellFormed(v))
            && Fits(v, LeftRight, sx) && Fits(v, TopBottom, sy)
  {
    hide WellFormed, Branching, Shaped, Placed, Panes, Laid, ResizeWindow, Check, Extent, Trimmable;
    LaidSound(t, panes);
    var u := Laid(t, panes);
    ResizeWindowSound(u, u.sx, u.sy, sx, sy);
    ResizePanes(u, u.sx, u.sy, sx, sy);
  }

  // layout_resize takes the space there is, and differences of sizes, for ints.
  ghost predicate FollowsInInt(t: Tree, ty: Axis, from: int, to: int) {
    && Check(t, ty) <= INT_MAX && Signed(to - from) == to - from && Signed(to - Size(t, ty)) == to - Size(t, ty)
    && Signed(Following(t, ty, from, to)) == Following(t, ty, from, to)
  }

  // So they are, where nothing needs more room than INT_MAX.
  lemma ArrangedInInt(t: Tree, panes: seq<nat>, sx: int, sy: int)
    requires Shaped(t) && Trimmable(t, |panes|) && t.sx >= 0 && t.sy >= 0 && forall ty :: Extent(t, ty) <= INT_MAX
    requires 0 <= sx <= INT_MAX && 0 <= sy <= INT_MAX
    ensures var u := Laid(t, panes);
            && Shaped(u) && FollowsInInt(u, LeftRight, u.sx, sx)
            && FollowsInInt(ResizeAxis(u, LeftRight, u.sx, sx), TopBottom, u.sy, sy)
  {
    hide WellFormed, Branching, Shaped, Placed, Panes, Laid, Check, Extent, Trimmable, Adjust, Signed;
    LaidSound(t, panes);
    var u := Laid(t, panes);
    forall ty: Axis ensures Check(u, ty) <= INT_MAX && Size(u, ty) <= INT_MAX {
      CheckExtent(u, ty);
    }
    ResizeAxisSound(u, LeftRight, u.sx, sx);
    SteppedFrame(u, ResizeAxis(u, LeftRight, u.sx, sx), LeftRight, Following(u, LeftRight, u.sx, sx));
    FollowInInt(u, LeftRight, u.sx, sx);
    FollowInInt(ResizeAxis(u, LeftRight, u.sx, sx), TopBottom, u.sy, sy);
  }

  lemma FollowInInt(t: Tree, ty: Axis, from: int, to: int)
    requires 0 <= from == Size(t, ty) <= INT_MAX && 0 <= to <= INT_MAX && Check(t, ty) <= INT_MAX
    ensures FollowsInInt(t, ty, from, to)
  {
    hide Check, Signed;
    SignedIs(to - from);
    SignedIs(Following(t, ty, from, to));
  }

  // All of it: the window takes the layout of the string, with its panes in
  // order, placed, and fitting the window; tiled, where the sizes of the string
  // add up.
  method ParseLayout(layout: string, panes: seq<nat>, sx: int, sy: int) returns (r: Option<Tree>)
    requires panes != [] && 0 <= sx <= INT_MAX && 0 <= sy <= INT_MAX
    requires var t := ReadDump(CString(layout));
             && (t.Some? && |panes| < |Panes(t.value)| ==> Closable(t.value))
             && (t.Some? && |panes| == |Panes(t.value)| ==> forall ty :: Extent(t.value, ty) <= INT_MAX)
    ensures match ReadDump(CString(layout))
            case None => r == None
            case Some(t) =>
              if |panes| > |Panes(t)| then r == None
              else
                && Shaped(t) && Trimmable(t, |panes|) && r == Some(Arranged(t, panes, sx, sy))
                && Panes(r.value) == Somes(panes) && Placed(r.value)
                && Fits(r.value, LeftRight, sx) && Fits(r.value, TopBottom, sy)
                && (WellFormed(t) ==> WellFormed(r.value))
  {
    hide WellFormed, Branching, Shaped, Placed, Panes, Laid, Fits, ResizeWindow, ReadDump, CString, Extent;
    r := LayOut(layout, panes);
    if r.None? {
      return;
    }

    ghost var t := ReadDump(CString(layout)).value;
    ReadShaped(CString(layout));
    LaidSound(t, panes);
    ArrangedSound(t, panes, sx, sy);
    ArrangedInInt(t, panes, sx, sy);
    var lc := r.value;
    r := Some(ResizeWindow(lc, lc.sx, lc.sy, sx, sy));
  }

  lemma ReadShaped(s: string)
    requires ReadDump(s).Some?
    ensures var t := ReadDump(s).value; Shaped(t) && t.sx >= 0 && t.sy >= 0
  {
    hide ReadDump, Shaped;
    ParseStable(s);
    PrintableShaped(ReadDump(s).value);
  }

  lemma {:induction false} PrintableShaped(t: Tree)
    requires Printable(t)
    ensures Shaped(t)
    decreases t
  {
    forall i | 0 <= i < |t.kids| ensures Shaped(t.kids[i]) {
      PrintableShaped(t.kids[i]);
    }
  }

  // ------------------------------------------------------------------
  // Dumping and parsing

  lemma BareCell(t: Tree)
    ensures var u := Bare(t);
            u.kind == t.kind && u.sx == t.sx && u.sy == t.sy && u.pane == None && u.kids == BareAll(t.kids)
  {
    BareKids(t);
  }

  lemma {:induction false} BareWellFormed(t: Tree)
    requires WellFormed(t)
    ensures WellFormed(Bare(t)) && |Panes(Bare(t))| == |Panes(t)|
    decreases t
  {
    hide Bare, Flat, Fills;
    BareCell(t);
    forall i | 0 <= i < |t.kids|
      ensures WellFormed(Bare(t.kids[i])) && |Panes(Bare(t.kids[i]))| == |Panes(t.kids[i])|
    {
      BareWellFormed(t.kids[i]);
    }
    if t.kind != WindowPane {
      BareFills(t);
      FlatLength(PanesEach(BareAll(t.kids)), PanesEach(t.kids));
    }
  }

  lemma BareFills(t: Tree)
    requires t.kind != WindowPane && Fills(t)
    ensures Fills(Bare(t))
  {
    hide Bare;
    BareCell(t);
    forall i | 0 <= i < |t.kids| ensures forall ty :: Size(Bare(t).kids[i], ty) == Size(t.kids[i], ty) {
      BareCell(t.kids[i]);
    }
    assert Sizes(Bare(t).kids, t.kind) == Sizes(t.kids, t.kind);
  }

  lemma {:induction false} FlatLength<T>(a: seq<seq<T>>, b: seq<seq<T>>)
    requires |a| == |b| && forall i :: 0 <= i < |a| ==> |a[i]| == |b[i]|
    ensures |Flat(a)| == |Flat(b)|
  {
    if a != [] {
      FlatLength(a[..|a| - 1], b[..|b| - 1]);
    }
  }

  // Giving the panes back to a layout that has lost them.
  lemma {:induction false} AssignRestores(t: Tree, panes: seq<nat>)
    requires WellFormed(t) && |panes| >= |Panes(t)| == |Panes(Bare(t))| && Panes(t) == Somes(panes[..|Panes(t)|])
    ensures AssignFrom(Bare(t), panes) == t
    decreases t, 1
  {
    hide Flat, PanesEach, Fills;
    if t.kind == WindowPane {
      assert Bare(t).kids == t.kids;
      assert t.pane == Panes(t)[0];
    } else {
      BareKids(t);
      AssignKidsRestore(t.kids, panes);
    }
  }

  lemma {:induction false} AssignKidsRestore(ks: seq<Tree>, panes: seq<nat>)
    requires AllWellFormed(ks) && |panes| >= |Flat(PanesEach(ks))| == |Flat(PanesEach(BareAll(ks)))|
    requires Flat(PanesEach(ks)) == Somes(panes[..|Flat(PanesEach(ks))|])
    ensures AssignKids(BareAll(ks), panes) == ks
    decreases ks, 0
  {
    hide Panes, PanesEach, Somes, AssignFrom, Bare, WellFormed;
    if ks != [] {
      PanesTail(ks);
      BareTail(ks);
      PanesTail(BareAll(ks));
      BareWellFormed(ks[0]);
      var n, m := |Panes(ks[0])|, |Flat(PanesEach(ks[1..]))|;
      SomesSplit(panes, n, m);
      SplitEqual(Panes(ks[0]), Flat(PanesEach(ks[1..])), Somes(panes[..n]), Somes(panes[n..][..m]));
      AssignRestores(ks[0], panes);
      AssignKidsRestore(ks[1..], panes[n..]);
      assert BareAll(ks)[1..] == BareAll(ks[1..]);
    }
  }

  lemma SplitEqual<T>(a: seq<T>, b: seq<T>, c: seq<T>, d: seq<T>)
    requires a + b == c + d && |a| == |c|
    ensures a == c && b == d
  {
    assert a == (a + b)[..|a|] && b == (a + b)[|a|..];
  }

  // A window whose layout fits gets that very layout back from its own dump.
  lemma DumpRestores(t: Tree, panes: seq<nat>, sx: int, sy: int)
    requires WellFormed(t) && Placed(t) && Printable(t) && Panes(t) == Somes(panes)
    requires Fits(t, LeftRight, sx) && Fits(t, TopBottom, sy)
    ensures ReadDump(CString(Dumped(Text(t)))) == Some(Bare(t))
    ensures WellFormed(Bare(t)) && 0 < |panes| == |Panes(Bare(t))| && Arranged(Bare(t), panes, sx, sy) == t
  {
    hide WellFormed, Branching, Placed, Panes, Bare, AssignFrom, Check, Printable, Text, ReadDump, CString, Dumped;
    DumpedIsCString(t);
    DumpReads(t);
    BareWellFormed(t);
    BottomRightLast(t);
    AssignRestoresAll(t, panes);
    PlacedIsFixed(t);
    assert Laid(Bare(t), panes) == t;
    FittedStays(t, sx, sy);
  }

  lemma AssignRestoresAll(t: Tree, panes: seq<nat>)
    requires WellFormed(t) && Panes(t) == Somes(panes) && |Panes(Bare(t))| == |panes|
    ensures AssignFrom(Bare(t), panes) == t
  {
    assert panes[..|panes|] == panes;
    AssignRestores(t, panes);
  }

  lemma DumpedIsCString(t: Tree)
    ensures CString(Dumped(Text(t))) == Dumped(Text(t))
  {
    hide Numeral, Text, CString;
    TextHasNoNul(t);
    NumeralValue(Sixteen, Checksum(Text(t)));
    WholeCString(Dumped(Text(t)));
  }

  // A layout that fits its window is left alone, whichever size it is fitted
  // from.
  lemma FittedStays(t: Tree, sx: int, sy: int)
    requires WellFormed(t) && Placed(t) && Fits(t, LeftRight, sx) && Fits(t, TopBottom, sy)
    ensures ResizeWindow(t, t.sx, t.sy, sx, sy) == t
  {
    hide WellFormed, Placed, Check, FixOffsets;
    PlacedIsFixed(t);
  }

  // ------------------------------------------------------------------
  // A string that stalls layout_parse

  function Pane(sx: int, sy: int, xoff: int, yoff: int): Tree {
    Tree(WindowPane, sx, sy, xoff, yoff, None, [])
  }

  function Narrow(): Tree {
    Tree(LeftRight, 3, 1, 0, 0, None, [Pane(1, 1, 0, 0), Pane(1, 1, 2, 0)])
  }

  function Column(): Tree {
    Tree(TopBottom, 3, 3, 0, 0, None, [Narrow(), Pane(3, 1, 0, 2)])
  }

  function Stalling(): Tree {
    Tree(LeftRight, INT_MAX + 4, 3, 0, 0, None, [Column(), Pane(INT_MAX, 3, 4, 0)])
  }

  lemma TwoCells(t: Tree)
    requires t.sx >= 0 && t.sy >= 0 && t.kind != WindowPane && t.pane == None
    requires |t.kids| == 2 && AllWellFormed(t.kids)
    requires Size(t.kids[0], t.kind) + 1 + Size(t.kids[1], t.kind) == Size(t, t.kind)
    requires Size(t.kids[0], Other(t.kind)) == Size(t.kids[1], Other(t.kind)) == Size(t, Other(t.kind))
    ensures WellFormed(t) && |Panes(t)| == |Panes(t.kids[0])| + |Panes(t.kids[1])|
    ensures Check(t, t.kind) == Check(t.kids[0], t.kind) + Check(t.kids[1], t.kind)
  {
    hide WellFormed, Panes, Check;
    var a, b := t.kids[0], t.kids[1];
    SumTwo(Size(a, t.kind), Size(b, t.kind));
    assert Sizes(t.kids, t.kind) == [Size(a, t.kind), Size(b, t.kind)];
    assert Fills(t);
    WellFormedIntro(t);
    SumTwo(Check(a, t.kind), Check(b, t.kind));
    assert Checks(t.kids, t.kind) == [Check(a, t.kind), Check(b, t.kind)];
    CheckAlong(t, t.kind);
    PanesWhole(t);
    PanesTail(t.kids);
    FlatOne(PanesEach(t.kids[1..]));
  }

  lemma FlatOne<T>(ss: seq<seq<T>>)
    requires |ss| == 1
    ensures Flat(ss) == ss[0]
  {
    assert ss == [] + [ss[0]];
    FlatLast([], ss[0]);
  }

  // What is asked of a tree to be such a string's.
  ghost predicate Dumpable(t: Tree) {
    WellFormed(t) && Printable(t) && Bare(t) == t
  }

  lemma TwoDumpable(t: Tree)
    requires |t.kids| == 2 && t.pane == None && WellFormed(t)
    requires FitsUInt(t.sx) && FitsUInt(t.sy) && FitsUInt(t.xoff) && FitsUInt(t.yoff)
    requires Dumpable(t.kids[0]) && Dumpable(t.kids[1])
    ensures Dumpable(t)
  {
    assert Bare(t).kids == t.kids;
  }

  lemma PaneDumpable(sx: nat, sy: nat, xoff: nat, yoff: nat)
    requires FitsUInt(sx) && FitsUInt(sy) && FitsUInt(xoff) && FitsUInt(yoff)
    ensures var t := Pane(sx, sy, xoff, yoff); Dumpable(t) && |Panes(t)| == 1
  {
    assert Bare(Pane(sx, sy, xoff, yoff)).kids == [];
  }

  lemma NarrowSound()
    ensures var t := Narrow(); Dumpable(t) && |Panes(t)| == 2 && Check(t, LeftRight) == 0
  {
    hide WellFormed, Printable, Bare, Panes;
    PaneDumpable(1, 1, 0, 0);
    PaneDumpable(1, 1, 2, 0);
    TwoCells(Narrow());
    TwoDumpable(Narrow());
  }

  lemma ColumnSound()
    ensures Dumpable(Column()) && |Panes(Column())| == 3
  {
    hide WellFormed, Printable, Bare, Panes, Check;
    NarrowSound();
    PaneDumpable(3, 1, 0, 2);
    TwoCells(Column());
    TwoDumpable(Column());
  }

  lemma StallingSound()
    ensures Dumpable(Stalling()) && |Panes(Stalling())| == 4
  {
    hide WellFormed, Printable, Bare, Panes, Check, Column;
    ColumnSound();
    ColumnSize();
    PaneDumpable(INT_MAX, 3, 4, 0);
    TwoCells(Stalling());
    TwoDumpable(Stalling());
  }

  lemma ColumnSize()
    ensures Column().sx == 3 && Column().sy == 3
  {
  }

  lemma ColumnStalls()
    ensures !AdjustEnds(Column(), LeftRight, -INT_MAX - 1)
  {
    hide WellFormed, Check, AdjustEnds;
    NarrowSound();
    ColumnSound();
    assert !Affords(Column().kids[0], LeftRight, -INT_MAX - 1);
    EndsExactly(Column(), LeftRight, -INT_MAX - 1);
  }

  // Sizes that add up are no help: with three panes the last cell of this dump
  // is closed, and what it hands on is taken for INT_MIN, which its heir does
  // not have to give.
  lemma ParseMayStall() returns (t: Tree)
    ensures WellFormed(t) && |Panes(t)| == 4 && BottomRight(t) == [1] && |t.kids| == 2
    ensures Printable(t) && ReadDump(CString(Dumped(Text(t)))) == Some(t)
    ensures var change := Handed(t.kids[1], LeftRight);
            change == -INT_MAX - 1 && !AdjustEnds(t.kids[Heir(1)], LeftRight, change)
    ensures t == Stalling()
  {
    hide WellFormed, Printable, ReadDump, CString, Dumped, Text, Panes, Bare, AdjustEnds, Check, Column;
    t := Stalling();
    StallingSound();
    DumpedIsCString(t);
    DumpReads(t);
    ColumnStalls();
  }
}
