// What holds of a window's layout after any run of operations.
module LayoutRuns {
  import opened Common
  import opened Sums
  import opened LayoutTree
  import opened LayoutGeometry
  import opened LayoutOps
  import opened LayoutResize
  import opened LayoutTight
  import opened LayoutWindow

  datatype State = State(sx: int, sy: int, layout: Tree)

  datatype Op =
    | SplitPane(p: Path, ty: Axis, hint: int, pane: nat)
    | ClosePane(p: Path)
    | MovePane(p: Path, ty: Axis, change: int)
    | ResizeTo(sx: nat, sy: nat)

  // Operations name a pane that is there; the last one is never closed, as
  // that closes the window.
  ghost predicate Legal(w: State, op: Op) {
    match op
    case SplitPane(p, _, _, _) => PaneAt(w.layout, p)
    case ClosePane(p) => PaneAt(w.layout, p) && p != []
    case MovePane(p, _, _) => PaneAt(w.layout, p)
    case ResizeTo(_, _) => true
  }

  ghost predicate Tiled(w: State) {
    WellFormed(w.layout) && Placed(w.layout) && w.layout.xoff == 0 && w.layout.yoff == 0
  }

  ghost predicate Fitting(w: State) {
    Fits(w.layout, LeftRight, w.sx) && Fits(w.layout, TopBottom, w.sy)
  }

  ghost function Apply(w: State, op: Op): State
    requires Tiled(w) && Legal(w, op)
  {
    match op
    case SplitPane(p, ty, hint, pane) =>
      if RoomToSplit(w.layout, p, ty) then
        SplitPathSound(w.layout, p, ty, hint);
        w.(layout := Assign(Split(w.layout, p, ty, hint), SplitPath(w.layout, p, ty), pane))
      else w
    case ClosePane(p) => w.(layout := Close(w.layout, p))
    case MovePane(p, ty, change) => w.(layout := ResizePane(w.layout, p, ty, change))
    case ResizeTo(sx, sy) => State(sx, sy, ResizeWindow(w.layout, w.sx, w.sy, sx, sy))
  }

  lemma ReplacesTrans(t: Tree, u: Tree, v: Tree)
    requires Replaces(t, u) && Replaces(u, v)
    ensures Replaces(t, v)
  {
  }

  // Splitting a pane and moving a border leave the window's fit alone.
  lemma ReplacesFits(t: Tree, u: Tree, ty: Axis, size: int)
    requires Replaces(t, u) && Fits(t, ty, size)
    ensures Fits(u, ty, size)
  {
  }

  lemma SplitStep(t: Tree, p: Path, ty: Axis, hint: int, pane: nat)
    requires WellFormed(t) && Placed(t) && PaneAt(t, p) && RoomToSplit(t, p, ty)
    ensures PaneAt(Split(t, p, ty, hint), SplitPath(t, p, ty))
    ensures var u := Assign(Split(t, p, ty, hint), SplitPath(t, p, ty), pane);
            Replaces(t, u) && SameCorner(t, u) && Placed(u)
  {
    hide WellFormed, Placed, Replaces;
    SplitSound(t, p, ty, hint);
    SplitPathSound(t, p, ty, hint);
    var u := Split(t, p, ty, hint);
    ReplacesSize(t, u);
    AssignKeeps(u, SplitPath(t, p, ty), pane);
    ReplacesTrans(t, u, Assign(u, SplitPath(t, p, ty), pane));
  }

  lemma MoveStep(t: Tree, p: Path, ty: Axis, change: int)
    requires WellFormed(t) && Placed(t) && PaneAt(t, p)
    ensures var u := ResizePane(t, p, ty, change);
            Replaces(t, u) && SameCorner(t, u) && Placed(u)
  {
    hide WellFormed, Placed, Check;
    if HasBorder(t, p, ty) {
      ResizeAtSound(t, p, ty, change);
      FixKeeps(ResizeAt(t, p, ty, change));
    }
  }

  lemma ApplyTiled(w: State, op: Op)
    requires Tiled(w) && Legal(w, op)
    ensures Tiled(Apply(w, op))
  {
    hide WellFormed, Placed, Replaces, Close, ResizePane, ResizeWindow, Split, SplitPath, Assign;
    var w' := Apply(w, op);
    match op
    case SplitPane(p, ty, hint, pane) =>
      if RoomToSplit(w.layout, p, ty) {
        SplitStep(w.layout, p, ty, hint, pane);
        ReplacesSize(w.layout, w'.layout);
      }
    case ClosePane(p) => CloseSound(w.layout, p);
    case MovePane(p, ty, change) =>
      MoveStep(w.layout, p, ty, change);
      ReplacesSize(w.layout, w'.layout);
    case ResizeTo(sx, sy) => ResizeWindowSound(w.layout, w.sx, w.sy, sx, sy);
  }

  // The layout still fits without the pane at p: in each direction it has the
  // window's size, or what is left has no space to give up.
  ghost predicate CloseFits(w: State, p: Path)
    requires WellFormed(w.layout) && ValidPath(w.layout, p) && p != []
  {
    && (w.layout.sx == w.sx || (w.layout.sx > w.sx && Tight(w.layout, p, LeftRight)))
    && (w.layout.sy == w.sy || (w.layout.sy > w.sy && Tight(w.layout, p, TopBottom)))
  }

  // layout_close_pane does not fit the layout to its window again, so it fits
  // afterwards just when it does without that.
  lemma CloseFitsExactly(w: State, p: Path)
    requires Tiled(w) && Legal(w, ClosePane(p))
    ensures Fitting(Apply(w, ClosePane(p))) <==> CloseFits(w, p)
  {
    hide WellFormed, Placed, Check, Destroy, Displaced, Fix, Tight;
    var u := DestroyRoot(w.layout, p);
    CloseSound(w.layout, p);
    DisplacedRefl(Destroy(w.layout, p));
    MovedDisplaced(Destroy(w.layout, p), u);
    FixPlaces(u, u.xoff, u.yoff);
    forall ty: Axis ensures Check(Close(w.layout, p), ty) == 0 <==> Tight(w.layout, p, ty) {
      DestroyTight(w.layout, p, ty);
      DisplacedCheck(Destroy(w.layout, p), u, ty);
      DisplacedCheck(u, Close(w.layout, p), ty);
    }
  }

  lemma MovedDisplaced(t: Tree, u: Tree)
    requires Displaced(t, t) && u == t.(xoff := u.xoff, yoff := u.yoff)
    ensures Displaced(t, u)
  {
  }

  // Every operation keeps the layout fitting its window, but for a close
  // after which what is left has space that the window does not.
  lemma ApplyFitting(w: State, op: Op)
    requires Tiled(w) && Legal(w, op) && Fitting(w)
    ensures Fitting(Apply(w, op)) <==> (op.ClosePane? ==> CloseFits(w, op.p))
    ensures op.ResizeTo? ==> (op.sx >= w.layout.sx ==> Apply(w, op).layout.sx == op.sx)
                             && (op.sy >= w.layout.sy ==> Apply(w, op).layout.sy == op.sy)
  {
    hide WellFormed, Placed, Replaces, Close, ResizePane, ResizeWindow, Split, SplitPath, Assign, Fits, CloseFits;
    var w' := Apply(w, op);
    match op
    case SplitPane(p, ty, hint, pane) =>
      if RoomToSplit(w.layout, p, ty) {
        SplitStep(w.layout, p, ty, hint, pane);
        ReplacesFits(w.layout, w'.layout, LeftRight, w.sx);
        ReplacesFits(w.layout, w'.layout, TopBottom, w.sy);
      }
    case ClosePane(p) => CloseFitsExactly(w, p);
    case MovePane(p, ty, change) =>
      MoveStep(w.layout, p, ty, change);
      ReplacesFits(w.layout, w'.layout, LeftRight, w.sx);
      ReplacesFits(w.layout, w'.layout, TopBottom, w.sy);
    case ResizeTo(sx, sy) => ResizeWindowSound(w.layout, w.sx, w.sy, sx, sy);
  }

  // ------------------------------------------------------------------
  // Runs

  ghost predicate Runs(w: State, ops: seq<Op>, w': State)
    decreases |ops|
  {
    if ops == [] then w' == w
    else Tiled(w) && Legal(w, ops[0]) && Runs(Apply(w, ops[0]), ops[1..], w')
  }

  // Every close of the run is one after which the layout still fits.
  ghost predicate ClosesFitting(w: State, ops: seq<Op>)
    decreases |ops|
  {
    ops != [] && Tiled(w) && Legal(w, ops[0]) ==>
      && (ops[0].ClosePane? ==> CloseFits(w, ops[0].p))
      && ClosesFitting(Apply(w, ops[0]), ops[1..])
  }

  // The layout fits its window at every point of the run.
  ghost predicate FitsThroughout(w: State, ops: seq<Op>)
    decreases |ops|
  {
    Fitting(w) && (ops != [] && Tiled(w) && Legal(w, ops[0]) ==> FitsThroughout(Apply(w, ops[0]), ops[1..]))
  }

  function Init(sx: nat, sy: nat, pane: nat): State {
    State(sx, sy, Tree(WindowPane, sx, sy, 0, 0, Some(pane), []))
  }

  lemma {:induction false} RunTiled(w: State, ops: seq<Op>, w': State)
    requires Tiled(w) && Runs(w, ops, w')
    ensures Tiled(w')
    decreases |ops|
  {
    if ops != [] {
      ApplyTiled(w, ops[0]);
      RunTiled(Apply(w, ops[0]), ops[1..], w');
    }
  }

  lemma {:induction false} RunFitting(w: State, ops: seq<Op>, w': State)
    requires Tiled(w) && Fitting(w) && Runs(w, ops, w')
    ensures FitsThroughout(w, ops) <==> ClosesFitting(w, ops)
    ensures FitsThroughout(w, ops) ==> Fitting(w')
    decreases |ops|
  {
    hide Tiled, Fitting, Legal, Apply, CloseFits;
    if ops != [] {
      ApplyTiled(w, ops[0]);
      ApplyFitting(w, ops[0]);
      if Fitting(Apply(w, ops[0])) {
        RunFitting(Apply(w, ops[0]), ops[1..], w');
      }
    }
  }

  // Whatever has been done to a window since it was made, its panes and
  // separators tile the layout's rectangle.
  lemma ReachableTiles(sx: nat, sy: nat, pane: nat, ops: seq<Op>, w: State, x: int, y: int)
    requires Runs(Init(sx, sy, pane), ops, w)
    ensures Tiled(w)
    ensures CountAt(Regions(w.layout), x, y) == if 0 <= x < w.layout.sx && 0 <= y < w.layout.sy then 1 else 0
  {
    RunTiled(Init(sx, sy, pane), ops, w);
    Tiles(w.layout, x, y);
  }

  // Over a run the layout has in each direction either the window's size or
  // the least size it can have, at every point, just when no pane is closed
  // whose space is left over.
  lemma ReachableFits(sx: nat, sy: nat, pane: nat, ops: seq<Op>, w: State)
    requires Runs(Init(sx, sy, pane), ops, w)
    ensures FitsThroughout(Init(sx, sy, pane), ops) <==> ClosesFitting(Init(sx, sy, pane), ops)
    ensures ClosesFitting(Init(sx, sy, pane), ops) ==> Fitting(w)
  {
    RunFitting(Init(sx, sy, pane), ops, w);
  }

  // ------------------------------------------------------------------
  // A run that ends in a layout that does not fit

  function Column(sx: int, x: int, pane: nat): Tree {
    Tree(WindowPane, sx, 3, x, 0, Some(pane), [])
  }

  function Columns(kids: seq<Tree>): Tree {
    Tree(LeftRight, 8, 3, 0, 0, None, kids)
  }

  function TwoColumns(): Tree {
    Columns([Column(5, 0, 0), Column(2, 6, 2)])
  }

  function ThreeColumns(): Tree {
    Columns([Column(2, 0, 0), Column(2, 3, 1), Column(2, 6, 2)])
  }

  lemma ColumnsTiled()
    ensures Tiled(State(8, 3, TwoColumns())) && Tiled(State(8, 3, ThreeColumns()))
    ensures Checks(ThreeColumns().kids, LeftRight) == [0, 0, 0]
  {
    hide WellFormed, Placed, Fills;
    TwoTiled();
    ThreeTiled();
  }

  lemma TwoTiled()
    ensures Tiled(State(8, 3, TwoColumns()))
  {
    SumsOf([5, 2]);
    assert Sizes(TwoColumns().kids, LeftRight) == [5, 2];
    assert Fills(TwoColumns());
  }

  lemma ThreeTiled()
    ensures Tiled(State(8, 3, ThreeColumns()))
  {
    SumsOf([2, 2, 2]);
    assert Sizes(ThreeColumns().kids, LeftRight) == [2, 2, 2];
    assert Fills(ThreeColumns());
  }

  lemma SumsOf(s: seq<int>)
    requires 2 <= |s| <= 3
    ensures Sum(s[..0]) == 0 && Sum(s[..1]) == s[0] && Sum(s[..2]) == s[0] + s[1]
    ensures |s| == 3 ==> Sum(s) == s[0] + s[1] + s[2]
    ensures |s| == 2 ==> Sum(s) == s[0] + s[1]
  {
    SumPrefix(s, 0);
    SumPrefix(s, 1);
    assert s[..|s|] == s;
    if |s| == 3 {
      SumPrefix(s, 2);
    }
  }

  lemma FirstSplit()
    ensures var w, op := Init(8, 3, 0), SplitPane([], LeftRight, 2, 2);
            Tiled(w) && Legal(w, op) && Apply(w, op) == State(8, 3, TwoColumns())
  {
  }

  lemma SecondSplit()
    ensures var w, op := State(8, 3, TwoColumns()), SplitPane([0], LeftRight, 2, 1);
            Tiled(w) && Legal(w, op) && Apply(w, op) == State(8, 3, ThreeColumns())
  {
    ColumnsTiled();
  }

  lemma WindowShrinks()
    ensures var w, op := State(8, 3, ThreeColumns()), ResizeTo(5, 3);
            Tiled(w) && Legal(w, op) && Apply(w, op) == State(5, 3, ThreeColumns())
    ensures Fitting(State(5, 3, ThreeColumns()))
  {
    hide WellFormed, Placed, Check, FixOffsets, ThreeColumns;
    ColumnsTiled();
    NoSpace();
    PlacedIsFixed(ThreeColumns());
  }

  lemma NoSpace()
    ensures var t := ThreeColumns(); Check(t, LeftRight) == 0 && t.sx == 8 && t.sy == 3
  {
    hide Check;
    ColumnsTiled();
    SumsOf([0, 0, 0]);
    CheckAlong(ThreeColumns(), LeftRight);
  }

  lemma LastNotTight()
    requires WellFormed(ThreeColumns()) && ValidPath(ThreeColumns(), [2])
    ensures !Tight(ThreeColumns(), [2], LeftRight)
  {
    hide Fills, Check;
    assert !TightAfter(ThreeColumns().kids[1], LeftRight, 3);
  }

  lemma RunOne(w: State, op: Op, w': State)
    requires Tiled(w) && Legal(w, op) && Apply(w, op) == w'
    ensures Runs(w, [op], w')
  {
  }

  lemma RunMore(w: State, ops: seq<Op>, w': State)
    requires ops != [] && Tiled(w) && Legal(w, ops[0]) && Runs(Apply(w, ops[0]), ops[1..], w')
    ensures Runs(w, ops, w')
  {
  }

  lemma ThreeLegal()
    ensures var w := State(5, 3, ThreeColumns());
            && Tiled(w) && Legal(w, ClosePane([2])) && w.layout.sx == 8
            && WellFormed(ThreeColumns()) && ValidPath(ThreeColumns(), [2])
  {
    ColumnsTiled();
    PaneChild(ThreeColumns(), [2]);
  }

  function SplitsAndShrink(): seq<Op> {
    [SplitPane([], LeftRight, 2, 2), SplitPane([0], LeftRight, 2, 1), ResizeTo(5, 3)]
  }

  lemma ThreeReached()
    ensures Runs(Init(8, 3, 0), SplitsAndShrink(), State(5, 3, ThreeColumns()))
  {
    hide Tiled, Legal, Apply, Init, ThreeColumns, TwoColumns, Runs;
    FirstSplit();
    SecondSplit();
    WindowShrinks();
    var ops := SplitsAndShrink();
    assert ops[2..] == [ops[2]] && ops[1..][1..] == ops[2..];
    RunOne(State(8, 3, ThreeColumns()), ops[2], State(5, 3, ThreeColumns()));
    RunMore(State(8, 3, TwoColumns()), ops[1..], State(5, 3, ThreeColumns()));
    RunMore(Init(8, 3, 0), ops, State(5, 3, ThreeColumns()));
  }

  // Three panes of width 2 in a window of width 5 fit as well as they can,
  // but not once the last of them has been closed.
  lemma CloseMayOverflow()
    ensures var w := State(5, 3, ThreeColumns());
            && Runs(Init(8, 3, 0), SplitsAndShrink(), w)
            && Fitting(w) && Tiled(w) && Legal(w, ClosePane([2]))
            && !Fitting(Apply(w, ClosePane([2])))
  {
    hide Tiled, Legal, Apply, Fitting, Init, ThreeColumns, Tight, Runs, SplitsAndShrink;
    ThreeReached();
    WindowShrinks();
    ThreeLegal();
    LastNotTight();
    CloseFitsExactly(State(5, 3, ThreeColumns()), [2]);
  }
}
