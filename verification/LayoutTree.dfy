// The value a layout cell and its descendants denote, and what resizing does
// to that value. LayoutCell.dfy performs the same operations in place on
// linked cells and is proved against the functions here.
module LayoutTree {
  import opened Common
  import opened Sums

  const PANE_MINIMUM := 2

  datatype Kind = LeftRight | TopBottom | WindowPane

  // The two kinds a resize or a split can name.
  type Axis = k: Kind | k != WindowPane witness LeftRight

  datatype Tree = Tree(kind: Kind, sx: int, sy: int, xoff: int, yoff: int,
                       pane: Option<nat>, kids: seq<Tree>)

  function Other(ty: Axis): Axis {
    if ty == LeftRight then TopBottom else LeftRight
  }

  function Size(t: Tree, ty: Axis): int {
    if ty == LeftRight then t.sx else t.sy
  }

  function Widen(t: Tree, ty: Axis, change: int): Tree {
    if ty == LeftRight then t.(sx := t.sx + change) else t.(sy := t.sy + change)
  }

  function Sizes(ks: seq<Tree>, ty: Axis): (r: seq<int>)
    ensures |r| == |ks| && forall i :: 0 <= i < |ks| ==> r[i] == Size(ks[i], ty)
  {
    seq(|ks|, i requires 0 <= i < |ks| => Size(ks[i], ty))
  }

  // ------------------------------------------------------------------
  // Well-formed layouts

  // Children in a row or column fill it exactly, with one separator between
  // neighbours, and all have the full size across it.
  ghost predicate Fills(t: Tree)
    requires t.kind != WindowPane
  {
    && (forall i :: 0 <= i < |t.kids| ==> Size(t.kids[i], Other(t.kind)) == Size(t, Other(t.kind)))
    && Sum(Sizes(t.kids, t.kind)) + |t.kids| - 1 == Size(t, t.kind)
  }

  ghost predicate WellFormed(t: Tree) {
    && t.sx >= 0 && t.sy >= 0
    && (if t.kind == WindowPane then t.kids == []
        else
          && |t.kids| >= 2 && t.pane == None
          && Fills(t)
          && forall i :: 0 <= i < |t.kids| ==> WellFormed(t.kids[i]))
  }

  ghost predicate AllWellFormed(ks: seq<Tree>) {
    forall i :: 0 <= i < |ks| ==> WellFormed(ks[i])
  }

  // The cells of a tree that a layout string may describe: containers have
  // children, and sizes may be any. Every well-formed tree is such a tree.
  ghost predicate Shaped(t: Tree)
    ensures WellFormed(t) ==> Shaped(t)
    decreases t
  {
    if t.kind == WindowPane then t.kids == []
    else t.kids != [] && forall i :: 0 <= i < |t.kids| ==> Shaped(t.kids[i])
  }

  ghost predicate AllShaped(ks: seq<Tree>)
    ensures AllWellFormed(ks) ==> AllShaped(ks)
  {
    forall i :: 0 <= i < |ks| ==> Shaped(ks[i])
  }

  // Containers have more than one child, as those of a layout that cells can be
  // closed in do, and no size is negative.
  ghost predicate Branching(t: Tree)
    ensures Branching(t) ==> t.sx >= 0 && t.sy >= 0 && Shaped(t)
    ensures WellFormed(t) ==> Branching(t)
    decreases t
  {
    && t.sx >= 0 && t.sy >= 0
    && (if t.kind == WindowPane then t.kids == []
        else |t.kids| >= 2 && forall i :: 0 <= i < |t.kids| ==> Branching(t.kids[i]))
  }

  ghost predicate AllBranching(ks: seq<Tree>)
    ensures AllWellFormed(ks) ==> AllBranching(ks)
    ensures AllBranching(ks) ==> AllShaped(ks)
  {
    forall i :: 0 <= i < |ks| ==> Branching(ks[i])
  }

  lemma KidsShaped(t: Tree)
    requires Shaped(t)
    ensures AllShaped(t.kids)
    ensures t.kind == WindowPane <==> t.kids == []
  {
  }

  lemma KidsBranching(t: Tree)
    requires Branching(t)
    ensures AllBranching(t.kids) && t.sx >= 0 && t.sy >= 0
    ensures t.kind == WindowPane <==> t.kids == []
    ensures t.kids != [] ==> |t.kids| >= 2
  {
  }

  // u is as sound as t: it is linked as a layout, with sizes that add up if
  // those of t do, and with none negative if none of t is, for a change that
  // grows.
  ghost predicate Keeps(t: Tree, u: Tree, grows: bool) {
    && (Shaped(t) ==> Shaped(u))
    && (WellFormed(t) ==> WellFormed(u))
    && (grows && Branching(t) ==> Branching(u))
  }

  lemma KidsWellFormed(t: Tree)
    requires WellFormed(t)
    ensures AllWellFormed(t.kids)
    ensures t.kind == WindowPane <==> t.kids == []
    ensures t.kids != [] ==> |t.kids| >= 2 && t.pane == None
    ensures t.sx >= 0 && t.sy >= 0
  {
  }

  lemma KidsFill(t: Tree)
    requires WellFormed(t) && t.kind != WindowPane
    ensures Fills(t)
  {
  }

  lemma WellFormedIntro(t: Tree)
    requires t.sx >= 0 && t.sy >= 0 && t.kind != WindowPane && |t.kids| >= 2 && t.pane == None
    requires Fills(t) && AllWellFormed(t.kids)
    ensures WellFormed(t)
  {
    hide Fills;
  }

  // ------------------------------------------------------------------
  // layout_resize_check

  function Check(t: Tree, ty: Axis): nat
    decreases t
  {
    if t.kind == WindowPane then
      if Size(t, ty) > PANE_MINIMUM then Size(t, ty) - PANE_MINIMUM else 0
    else if t.kind == ty then
      SumBounds(Checks(t.kids, ty)); Sum(Checks(t.kids, ty))
    else if t.kids == [] then UINT_MAX
    else
      MinOfIsLeast(Checks(t.kids, ty), UINT_MAX); MinOf(Checks(t.kids, ty), UINT_MAX)
  }

  function Checks(ks: seq<Tree>, ty: Axis): (r: seq<int>)
    ensures |r| == |ks|
    ensures forall i :: 0 <= i < |ks| ==> r[i] >= 0 && r[i] == Check(ks[i], ty)
    decreases ks
  {
    seq(|ks|, i requires 0 <= i < |ks| => Check(ks[i], ty))
  }

  lemma CheckAlong(t: Tree, ty: Axis)
    requires t.kind == ty
    ensures Check(t, ty) == Sum(Checks(t.kids, ty))
  {
  }

  lemma CheckLeast(t: Tree, ty: Axis)
    requires t.kind != WindowPane && t.kind != ty
    ensures Check(t, ty) == MinOf(Checks(t.kids, ty), UINT_MAX)
  {
  }

  // A child across the axis has at least the space its container has.
  lemma CheckAcross(t: Tree, ty: Axis, i: nat)
    requires t.kind != WindowPane && t.kind != ty && i < |t.kids|
    ensures Check(t, ty) <= Check(t.kids[i], ty)
  {
    MinOfIsLeast(Checks(t.kids, ty), UINT_MAX);
    assert Checks(t.kids, ty)[i] == Check(t.kids[i], ty);
  }

  // The available space is less than the size, so no u_int sum wraps.
  lemma {:induction false} CheckBelowSize(t: Tree, ty: Axis)
    requires WellFormed(t)
    ensures Check(t, ty) <= Size(t, ty)
    ensures forall i :: 0 <= i < |t.kids| ==> Size(t.kids[i], ty) <= Size(t, ty)
    decreases t
  {
    if t.kind == WindowPane {
    } else {
      forall i | 0 <= i < |t.kids| ensures Check(t.kids[i], ty) <= Size(t.kids[i], ty) {
        CheckBelowSize(t.kids[i], ty);
      }
      if t.kind == ty {
        SumPointwise(Checks(t.kids, ty), Sizes(t.kids, ty));
        SumBounds(Sizes(t.kids, ty));
        forall i | 0 <= i < |t.kids| ensures Size(t.kids[i], ty) <= Size(t, ty) {
          assert Sizes(t.kids, ty)[i] <= Sum(Sizes(t.kids, ty));
        }
      } else {
        CheckAcross(t, ty, 0);
        assert ty == Other(t.kind);
      }
    }
  }

  // ------------------------------------------------------------------
  // layout_resize_adjust by one column or row

  // The first child from `from` on that a step of d can change.
  function FirstAble(ks: seq<Tree>, ty: Axis, d: int, from: nat): (j: nat)
    requires from <= |ks|
    ensures from <= j <= |ks|
    ensures j < |ks| ==> d > 0 || Check(ks[j], ty) > 0
    ensures forall i :: from <= i < j ==> d <= 0 && Check(ks[i], ty) == 0
    decreases |ks| - from
  {
    if from == |ks| || d > 0 || Check(ks[from], ty) > 0 then from
    else FirstAble(ks, ty, d, from + 1)
  }

  function Step(t: Tree, ty: Axis, d: int): Tree
    requires d == 1 || d == -1
    decreases t
  {
    var u := Widen(t, ty, d);
    if t.kind != ty then
      u.(kids := seq(|t.kids|, i requires 0 <= i < |t.kids| => Step(t.kids[i], ty, d)))
    else
      var j := FirstAble(t.kids, ty, d, 0);
      if j < |t.kids| then u.(kids := t.kids[j := Step(t.kids[j], ty, d)]) else u
  }

  // A reduction uses up exactly that much of the available space; growth makes
  // at most that much.
  ghost predicate Uses(before: int, after: int, d: int) {
    if d < 0 then after == before + d else before <= after <= before + d
  }

  // What a change of d columns or rows promises about a cell.
  ghost predicate Stepped(t: Tree, u: Tree, ty: Axis, d: int) {
    && Keeps(t, u, d >= 0)
    && Size(u, ty) == Size(t, ty) + d
    && Size(u, Other(ty)) == Size(t, Other(ty))
    && Check(u, Other(ty)) == Check(t, Other(ty))
    && Uses(Check(t, ty), Check(u, ty), d)
    && Reshaped(t, u, ty)
  }

  // u is t with new sizes along ty only: same cells, panes and offsets, and no
  // leaf made smaller than PANE_MINIMUM.
  ghost predicate Reshaped(t: Tree, u: Tree, ty: Axis)
    decreases t
  {
    && u.kind == t.kind && u.pane == t.pane && u.xoff == t.xoff && u.yoff == t.yoff
    && Size(u, Other(ty)) == Size(t, Other(ty))
    && |u.kids| == |t.kids|
    && (t.kind == WindowPane && Size(u, ty) < Size(t, ty) ==> Size(u, ty) >= PANE_MINIMUM)
    && forall i :: 0 <= i < |t.kids| ==> Reshaped(t.kids[i], u.kids[i], ty)
  }

  lemma {:induction false} ReshapedRefl(t: Tree, ty: Axis)
    ensures Reshaped(t, t, ty)
    decreases t
  {
    forall i | 0 <= i < |t.kids| ensures Reshaped(t.kids[i], t.kids[i], ty) {
      ReshapedRefl(t.kids[i], ty);
    }
  }

  lemma {:induction false} ReshapedTrans(t: Tree, u: Tree, v: Tree, ty: Axis)
    requires Reshaped(t, u, ty) && Reshaped(u, v, ty)
    ensures Reshaped(t, v, ty)
    decreases t
  {
    forall i | 0 <= i < |t.kids| ensures Reshaped(t.kids[i], v.kids[i], ty) {
      ReshapedTrans(t.kids[i], u.kids[i], v.kids[i], ty);
    }
  }

  lemma StepLeaf(t: Tree, ty: Axis, d: int)
    requires Shaped(t) && t.kind == WindowPane
    requires d == 1 || (d == -1 && Check(t, ty) > 0)
    ensures Stepped(t, Step(t, ty, d), ty, d)
  {
  }

  lemma {:induction false} StepCorrect(t: Tree, ty: Axis, d: int)
    requires Shaped(t) && (d == 1 || (d == -1 && Check(t, ty) > 0))
    ensures Stepped(t, Step(t, ty, d), ty, d)
    decreases t
  {
    hide Stepped, Check, Shaped;
    KidsShaped(t);
    var u := Step(t, ty, d);
    if t.kind == WindowPane {
      StepLeaf(t, ty, d);
    } else if t.kind == ty {
      CheckAlong(t, ty);
      SumBounds(Checks(t.kids, ty));
      var j := FirstAble(t.kids, ty, d, 0);
      assert j < |t.kids|;
      StepCorrect(t.kids[j], ty, d);
      ChangeOne(t, ty, d, j, Step(t.kids[j], ty, d));
    } else {
      forall i | 0 <= i < |t.kids| ensures Stepped(t.kids[i], u.kids[i], ty, d) {
        CheckAcross(t, ty, i);
        StepCorrect(t.kids[i], ty, d);
      }
      ChangeAll(t, ty, d, u);
    }
  }

  // A change of one child along its container's axis is the container's change.
  lemma ChangeOne(t: Tree, ty: Axis, d: int, j: nat, k: Tree)
    requires Shaped(t) && t.kind == ty && j < |t.kids| && Stepped(t.kids[j], k, ty, d)
    ensures Stepped(t, Widen(t, ty, d).(kids := t.kids[j := k]), ty, d)
  {
    hide WellFormed, Branching, Shaped, Check, Reshaped, Fills;
    var u := Widen(t, ty, d).(kids := t.kids[j := k]);
    ChangeOneSums(t.kids, ty, d, j, k);
    if WellFormed(t) {
      KidsWellFormed(t);
      ChangeOneWellFormed(t, ty, d, j, k);
    }
    KeepsIntro(t, u, ty, d);
    ChangeOneReshaped(t, ty, d, j, k);
    CheckAlong(t, ty);
    CheckAlong(u, ty);
    CheckAcrossSame(t, u, ty);
  }

  lemma CheckAcrossSame(t: Tree, u: Tree, ty: Axis)
    requires u.kind == t.kind == ty && |u.kids| == |t.kids|
    requires forall i :: 0 <= i < |t.kids| ==> Check(u.kids[i], Other(ty)) == Check(t.kids[i], Other(ty))
    ensures Check(u, Other(ty)) == Check(t, Other(ty))
  {
    assert Checks(u.kids, Other(ty)) == Checks(t.kids, Other(ty));
  }

  lemma ChangeOneSums(ks: seq<Tree>, ty: Axis, d: int, j: nat, k: Tree)
    requires j < |ks| && Stepped(ks[j], k, ty, d)
    ensures Sum(Sizes(ks[j := k], ty)) == Sum(Sizes(ks, ty)) + d
    ensures Sum(Checks(ks[j := k], ty)) == Sum(Checks(ks, ty)) - Check(ks[j], ty) + Check(k, ty)
  {
    assert Sizes(ks[j := k], ty) == Sizes(ks, ty)[j := Size(k, ty)];
    SumUpdate(Sizes(ks, ty), j, Size(k, ty));
    assert Checks(ks[j := k], ty) == Checks(ks, ty)[j := Check(k, ty)];
    SumUpdate(Checks(ks, ty), j, Check(k, ty));
  }

  lemma ChangeOneWellFormed(t: Tree, ty: Axis, d: int, j: nat, k: Tree)
    requires WellFormed(t) && t.kind == ty && j < |t.kids|
    requires WellFormed(k) && Size(k, Other(ty)) == Size(t.kids[j], Other(ty))
    requires Sum(Sizes(t.kids[j := k], ty)) == Sum(Sizes(t.kids, ty)) + d
    ensures WellFormed(Widen(t, ty, d).(kids := t.kids[j := k]))
  {
    hide WellFormed, Sum;
    var u := Widen(t, ty, d).(kids := t.kids[j := k]);
    KidsWellFormed(t);
    KidsFill(t);
    KidsWellFormed(k);
    forall i | 0 <= i < |u.kids| ensures WellFormed(u.kids[i]) {
    }
    forall i | 0 <= i < |u.kids| ensures Size(u.kids[i], ty) >= 0 {
      KidsWellFormed(u.kids[i]);
    }
    SumBounds(Sizes(u.kids, ty));
    assert Fills(u);
    WellFormedIntro(u);
  }

  lemma ChangeOneReshaped(t: Tree, ty: Axis, d: int, j: nat, k: Tree)
    requires t.kind == ty && j < |t.kids| && Reshaped(t.kids[j], k, ty)
    ensures Reshaped(t, Widen(t, ty, d).(kids := t.kids[j := k]), ty)
  {
    var u := Widen(t, ty, d).(kids := t.kids[j := k]);
    forall i | 0 <= i < |t.kids| ensures Reshaped(t.kids[i], u.kids[i], ty) {
      ReshapedRefl(t.kids[i], ty);
    }
  }

  // u differs from t in its size along ty, by d, and in its children's contents.
  ghost predicate WidenedCell(t: Tree, u: Tree, ty: Axis, d: int) {
    && u.kind == t.kind && u.pane == t.pane && u.xoff == t.xoff && u.yoff == t.yoff
    && Size(u, ty) == Size(t, ty) + d && Size(u, Other(ty)) == Size(t, Other(ty))
    && |u.kids| == |t.kids|
  }

  // What a container keeps is what its children keep.
  lemma KeepsIntro(t: Tree, u: Tree, ty: Axis, d: int)
    requires Shaped(t) && t.kind != WindowPane && WidenedCell(t, u, ty, d)
    requires forall i :: 0 <= i < |t.kids| ==> Keeps(t.kids[i], u.kids[i], d >= 0)
    requires WellFormed(t) ==> WellFormed(u)
    ensures Keeps(t, u, d >= 0)
  {
    hide WellFormed;
    forall i | 0 <= i < |t.kids| && d >= 0 && Branching(t) ensures Branching(u.kids[i]) {
      assert Keeps(t.kids[i], u.kids[i], d >= 0);
    }
    forall i | 0 <= i < |t.kids| ensures Shaped(u.kids[i]) {
      assert Keeps(t.kids[i], u.kids[i], d >= 0);
    }
  }

  // The same change of every child across their container's axis.
  lemma ChangeAll(t: Tree, ty: Axis, d: int, u: Tree)
    requires Shaped(t) && t.kind == Other(ty) && WidenedCell(t, u, ty, d)
    requires forall i :: 0 <= i < |t.kids| ==> Stepped(t.kids[i], u.kids[i], ty, d)
    ensures Stepped(t, u, ty, d)
  {
    hide WellFormed, Branching, Shaped, Keeps, Check, Reshaped, Fills;
    KidsShaped(t);
    assert Sizes(u.kids, t.kind) == Sizes(t.kids, t.kind);
    assert Checks(u.kids, t.kind) == Checks(t.kids, t.kind);
    CheckAlong(t, t.kind);
    CheckAlong(u, t.kind);
    ReshapedIntro(t, u, ty, d);
    if WellFormed(t) {
      AllKept(t, u, ty, d);
      ChangeAllWellFormed(t, ty, d, u);
    }
    KeepsIntro(t, u, ty, d);
    ChangeAllCheck(t, ty, d, u);
  }

  lemma AllKept(t: Tree, u: Tree, ty: Axis, d: int)
    requires WellFormed(t) && |u.kids| == |t.kids|
    requires forall i :: 0 <= i < |t.kids| ==> Keeps(t.kids[i], u.kids[i], d >= 0)
    ensures AllWellFormed(u.kids)
  {
    KidsWellFormed(t);
  }

  lemma ReshapedIntro(t: Tree, u: Tree, ty: Axis, d: int)
    requires t.kind != WindowPane && WidenedCell(t, u, ty, d)
    requires forall i :: 0 <= i < |t.kids| ==> Reshaped(t.kids[i], u.kids[i], ty)
    ensures Reshaped(t, u, ty)
  {
  }

  lemma ChangeAllWellFormed(t: Tree, ty: Axis, d: int, u: Tree)
    requires WellFormed(t) && t.kind == Other(ty)
    requires u.kind == t.kind && u.pane == t.pane && |u.kids| == |t.kids|
    requires Size(u, ty) == Size(t, ty) + d && Size(u, t.kind) == Size(t, t.kind)
    requires AllWellFormed(u.kids)
    requires forall i :: 0 <= i < |t.kids| ==> Size(u.kids[i], ty) == Size(t.kids[i], ty) + d
    requires Sizes(u.kids, t.kind) == Sizes(t.kids, t.kind)
    ensures WellFormed(u)
  {
    assert Fills(u);
    assert WellFormed(u.kids[0]);
  }

  lemma ChangeAllCheck(t: Tree, ty: Axis, d: int, u: Tree)
    requires t.kind == Other(ty) && t.kids != []
    requires u.kind == t.kind && |u.kids| == |t.kids|
    requires forall i :: 0 <= i < |t.kids| ==> Uses(Check(t.kids[i], ty), Check(u.kids[i], ty), d)
    ensures Uses(Check(t, ty), Check(u, ty), d)
  {
    MinOfMoves(Checks(t.kids, ty), Checks(u.kids, ty), d);
  }

  lemma MinOfMoves(a: seq<int>, b: seq<int>, d: int)
    requires a != [] && |b| == |a|
    requires forall i :: 0 <= i < |a| ==> Uses(a[i], b[i], d)
    ensures Uses(MinOf(a, UINT_MAX), MinOf(b, UINT_MAX), d)
  {
    MinOfIsLeast(a, UINT_MAX);
    MinOfIsLeast(b, UINT_MAX);
    var i :| 0 <= i < |a| && a[i] == MinOf(a, UINT_MAX);
    var j :| 0 <= j < |b| && b[j] == MinOf(b, UINT_MAX);
  }

  // ------------------------------------------------------------------
  // layout_resize_adjust by any amount

  lemma AbleExists(ks: seq<Tree>, ty: Axis, d: int)
    requires d > 0 ==> ks != []
    requires d <= 0 ==> Sum(Checks(ks, ty)) > 0
    ensures FirstAble(ks, ty, d, 0) < |ks|
  {
    SumBounds(Checks(ks, ty));
  }

  // A step of the child at i, with what it does to the list's totals.
  lemma StepChild(ks: seq<Tree>, ty: Axis, d: int, i: nat)
    requires AllShaped(ks) && i < |ks| && (d == 1 || (d == -1 && Check(ks[i], ty) > 0))
    ensures var k := Step(ks[i], ty, d);
            && Stepped(ks[i], k, ty, d) && AllShaped(ks[i := k])
            && Sum(Sizes(ks[i := k], ty)) == Sum(Sizes(ks, ty)) + d
            && Uses(Sum(Checks(ks, ty)), Sum(Checks(ks[i := k], ty)), d)
  {
    hide Check, Reshaped, Step;
    StepCorrect(ks[i], ty, d);
    ChangeOneSums(ks, ty, d, i, Step(ks[i], ty, d));
  }

  lemma StepWellFormed(t: Tree, ty: Axis, d: int)
    requires WellFormed(t) && (d == 1 || (d == -1 && Check(t, ty) > 0))
    ensures WellFormed(Step(t, ty, d))
  {
    hide WellFormed, Branching, Shaped, Check, Step, Reshaped;
    StepCorrect(t, ty, d);
  }

  lemma GiveStep(ks: seq<Tree>, ty: Axis, i: nat)
    requires AllShaped(ks) && i < |ks|
    ensures var rs := ks[i := Step(ks[i], ty, 1)]; AllShaped(rs) && Sum(Checks(rs, ty)) >= 0
  {
    hide Step, Stepped, Shaped, Check, Sum;
    StepChild(ks, ty, 1, i);
    SumBounds(Checks(ks[i := Step(ks[i], ty, 1)], ty));
  }

  lemma TakeStep(ks: seq<Tree>, ty: Axis, i: nat)
    requires AllShaped(ks) && i < |ks| && Check(ks[i], ty) > 0
    ensures var rs := ks[i := Step(ks[i], ty, -1)];
            AllShaped(rs) && Sum(Checks(rs, ty)) == Sum(Checks(ks, ty)) - 1
  {
    hide Step, Stepped, Shaped, Check, Sum;
    StepChild(ks, ty, -1, i);
  }

  lemma AblePasses(ks: seq<Tree>, ty: Axis, d: int, i: nat)
    requires i < |ks| && d <= 0 && Check(ks[i], ty) == 0
    ensures FirstAble(ks, ty, d, i) == FirstAble(ks, ty, d, i + 1)
  {
    hide Check;
  }

  // The children after `change` columns or rows have been handed out one at a
  // time, in turn, starting at child i; only children with space available
  // take part in a reduction.
  function RoundRobin(ks: seq<Tree>, ty: Axis, change: int, i: nat): seq<Tree>
    requires ks != [] && i <= |ks| && AllShaped(ks) && -change <= Sum(Checks(ks, ty))
    decreases if change < 0 then -change else change,
              if FirstAble(ks, ty, change, i) == |ks| then 1 else 0, |ks| - i
  {
    hide Check, WellFormed, Sum, Step, Stepped, FirstAble, Uses;
    if change == 0 then ks
    else if i == |ks| then AbleExists(ks, ty, change); RoundRobin(ks, ty, change, 0)
    else if change > 0 then
      GiveStep(ks, ty, i);
      RoundRobin(ks[i := Step(ks[i], ty, 1)], ty, change - 1, i + 1)
    else if Check(ks[i], ty) > 0 then
      TakeStep(ks, ty, i);
      RoundRobin(ks[i := Step(ks[i], ty, -1)], ty, change + 1, i + 1)
    else AblePasses(ks, ty, change, i); RoundRobin(ks, ty, change, i + 1)
  }

  function Adjust(t: Tree, ty: Axis, change: int): Tree
    requires Shaped(t) && -change <= Check(t, ty)
    decreases t
  {
    var u := Widen(t, ty, change);
    if t.kind != ty then
      u.(kids := seq(|t.kids|, i requires 0 <= i < |t.kids| =>
        (CheckAcross(t, ty, i); Adjust(t.kids[i], ty, change))))
    else u.(kids := RoundRobin(t.kids, ty, change, 0))
  }

  // A share of a change goes the way the change goes.
  ghost predicate SameSign(change: int, share: int) {
    (change >= 0 ==> share >= 0) && (change <= 0 ==> share <= 0)
  }

  // r is k after receiving, or giving up, its share of a change.
  ghost predicate Share(k: Tree, r: Tree, ty: Axis, change: int) {
    && Stepped(k, r, ty, Size(r, ty) - Size(k, ty))
    && SameSign(change, Size(r, ty) - Size(k, ty))
  }

  lemma ShareTrans(k: Tree, r: Tree, v: Tree, ty: Axis, d: int, change: int)
    requires Stepped(k, r, ty, d) && Share(r, v, ty, change) && SameSign(d, change) && d != 0
    ensures Share(k, v, ty, change + d)
  {
    hide WellFormed, Reshaped, Check;
    ReshapedTrans(k, r, v, ty);
  }

  lemma ShareWeaken(k: Tree, r: Tree, ty: Axis, change: int, d: int)
    requires Share(k, r, ty, change) && SameSign(d, change) && d != 0
    ensures Share(k, r, ty, change + d)
  {
    hide Stepped;
  }

  lemma ShareRefl(t: Tree, ty: Axis)
    ensures Share(t, t, ty, 0)
  {
    ReshapedRefl(t, ty);
  }

  ghost predicate AllShare(ks: seq<Tree>, rs: seq<Tree>, ty: Axis, change: int) {
    |rs| == |ks| && forall j :: 0 <= j < |ks| ==> Share(ks[j], rs[j], ty, change)
  }

  // The effect on a list's total size and total available space.
  ghost predicate Totals(ks: seq<Tree>, rs: seq<Tree>, ty: Axis, change: int) {
    && Sum(Sizes(rs, ty)) == Sum(Sizes(ks, ty)) + change
    && Uses(Sum(Checks(ks, ty)), Sum(Checks(rs, ty)), change)
  }

  lemma AllShareStep(ks: seq<Tree>, ty: Axis, d: int, i: nat, rs: seq<Tree>, change: int)
    requires AllShaped(ks) && i < |ks| && (d == 1 || (d == -1 && Check(ks[i], ty) > 0))
    requires SameSign(d, change) && AllShare(ks[i := Step(ks[i], ty, d)], rs, ty, change)
    ensures AllShare(ks, rs, ty, change + d)
  {
    hide Stepped, Share, Step;
    var ks' := ks[i := Step(ks[i], ty, d)];
    StepCorrect(ks[i], ty, d);
    forall j | 0 <= j < |ks| ensures Share(ks[j], rs[j], ty, change + d) {
      if j == i {
        ShareTrans(ks[i], ks'[i], rs[i], ty, d, change);
      } else {
        ShareWeaken(ks'[j], rs[j], ty, change, d);
      }
    }
  }

  lemma TotalsStep(ks: seq<Tree>, ty: Axis, d: int, i: nat, rs: seq<Tree>, change: int)
    requires AllShaped(ks) && i < |ks| && (d == 1 || (d == -1 && Check(ks[i], ty) > 0))
    requires SameSign(d, change) && Totals(ks[i := Step(ks[i], ty, d)], rs, ty, change)
    ensures Totals(ks, rs, ty, change + d)
  {
    StepChild(ks, ty, d, i);
  }

  lemma {:induction false} RoundRobinCorrect(ks: seq<Tree>, ty: Axis, change: int, i: nat)
    requires ks != [] && i <= |ks| && AllShaped(ks) && -change <= Sum(Checks(ks, ty))
    ensures AllShare(ks, RoundRobin(ks, ty, change, i), ty, change)
    ensures Totals(ks, RoundRobin(ks, ty, change, i), ty, change)
    decreases if change < 0 then -change else change,
              if FirstAble(ks, ty, change, i) == |ks| then 1 else 0, |ks| - i
  {
    hide Stepped, Share, Step, Totals, AllShare, Shaped, Check, Sum, FirstAble;
    if change == 0 {
      AllShareRefl(ks, ty);
      TotalsRefl(ks, ty);
    } else if i == |ks| {
      AbleExists(ks, ty, change);
      RoundRobinCorrect(ks, ty, change, 0);
    } else if change > 0 || Check(ks[i], ty) > 0 {
      var d := if change > 0 then 1 else -1;
      var ks' := ks[i := Step(ks[i], ty, d)];
      StepChild(ks, ty, d, i);
      SumBounds(Checks(ks', ty));
      RoundRobinCorrect(ks', ty, change - d, i + 1);
      AllShareStep(ks, ty, d, i, RoundRobin(ks', ty, change - d, i + 1), change - d);
      TotalsStep(ks, ty, d, i, RoundRobin(ks', ty, change - d, i + 1), change - d);
    } else {
      AblePasses(ks, ty, change, i);
      RoundRobinCorrect(ks, ty, change, i + 1);
    }
  }

  lemma AllShareRefl(ks: seq<Tree>, ty: Axis)
    ensures AllShare(ks, ks, ty, 0)
  {
    hide Share;
    forall j | 0 <= j < |ks| ensures Share(ks[j], ks[j], ty, 0) {
      ShareRefl(ks[j], ty);
    }
  }

  lemma TotalsRefl(ks: seq<Tree>, ty: Axis)
    ensures Totals(ks, ks, ty, 0)
  {
  }

  // layout_resize_adjust changes the size by exactly `change` and leaves the
  // tree as sound as it was; a reduction uses up exactly that much of the available
  // space and growth makes at most that much.
  lemma {:induction false} AdjustCorrect(t: Tree, ty: Axis, change: int)
    requires Shaped(t) && -change <= Check(t, ty)
    ensures Stepped(t, Adjust(t, ty, change), ty, change)
    decreases t
  {
    hide Stepped, Shaped, Fills, Check;
    KidsShaped(t);
    var u := Adjust(t, ty, change);
    if t.kind == WindowPane {
      AdjustLeaf(t, ty, change);
    } else if t.kind == ty {
      CheckAlong(t, ty);
      RoundRobinCorrect(t.kids, ty, change, 0);
      ChangeShared(t, ty, change, u);
    } else {
      forall i | 0 <= i < |t.kids| ensures Stepped(t.kids[i], u.kids[i], ty, change) {
        CheckAcross(t, ty, i);
        AdjustCorrect(t.kids[i], ty, change);
      }
      ChangeAll(t, ty, change, u);
    }
  }

  // In numbers: the size changes by exactly what was asked, across it nothing
  // does, and a shrink uses exactly as much of the space there was.
  lemma AdjustExact(t: Tree, ty: Axis, change: int)
    requires Shaped(t) && -change <= Check(t, ty)
    ensures Size(Adjust(t, ty, change), ty) == Size(t, ty) + change
    ensures Size(Adjust(t, ty, change), Other(ty)) == Size(t, Other(ty))
    ensures change < 0 ==> Check(Adjust(t, ty, change), ty) == Check(t, ty) + change
    ensures change >= 0 ==> Check(t, ty) <= Check(Adjust(t, ty, change), ty) <= Check(t, ty) + change
  {
    hide WellFormed, Check, Adjust, Reshaped;
    AdjustCorrect(t, ty, change);
  }

  lemma AdjustLeaf(t: Tree, ty: Axis, change: int)
    requires Shaped(t) && t.kind == WindowPane && -change <= Check(t, ty)
    ensures Stepped(t, Adjust(t, ty, change), ty, change)
  {
  }

  lemma ChangeShared(t: Tree, ty: Axis, change: int, u: Tree)
    requires Shaped(t) && t.kind == ty && WidenedCell(t, u, ty, change)
    requires AllShare(t.kids, u.kids, ty, change) && Totals(t.kids, u.kids, ty, change)
    ensures Stepped(t, u, ty, change)
  {
    hide WellFormed, Branching, Shaped, Keeps, Check, Reshaped, Fills;
    forall i | 0 <= i < |t.kids|
      ensures Keeps(t.kids[i], u.kids[i], change >= 0) && Reshaped(t.kids[i], u.kids[i], ty)
      ensures Size(u.kids[i], Other(ty)) == Size(t.kids[i], Other(ty))
      ensures Check(u.kids[i], Other(ty)) == Check(t.kids[i], Other(ty))
    {
      assert Share(t.kids[i], u.kids[i], ty, change);
      KeepsLess(t.kids[i], u.kids[i], Size(u.kids[i], ty) >= Size(t.kids[i], ty), change >= 0);
    }
    CheckAcrossSame(t, u, ty);
    CheckAlong(t, ty);
    CheckAlong(u, ty);
    ReshapedIntro(t, u, ty, change);
    if WellFormed(t) {
      AllKept(t, u, ty, change);
      SharedWellFormed(t, ty, change, u);
    }
    KeepsIntro(t, u, ty, change);
  }

  lemma KeepsLess(t: Tree, u: Tree, grows: bool, less: bool)
    requires Keeps(t, u, grows) && (less ==> grows)
    ensures Keeps(t, u, less)
  {
  }

  lemma SharedWellFormed(t: Tree, ty: Axis, change: int, u: Tree)
    requires WellFormed(t) && t.kind == ty && WidenedCell(t, u, ty, change)
    requires AllWellFormed(u.kids) && Sum(Sizes(u.kids, ty)) == Sum(Sizes(t.kids, ty)) + change
    requires forall i :: 0 <= i < |t.kids| ==> Size(u.kids[i], Other(ty)) == Size(t.kids[i], Other(ty))
    ensures WellFormed(u)
  {
    SumBounds(Sizes(u.kids, ty));
    assert Fills(t);
    assert Fills(u);
  }

  // One column or row at a time is what Step says.
  lemma {:induction false} AdjustOne(t: Tree, ty: Axis, d: int)
    requires Shaped(t) && (d == 1 || (d == -1 && Check(t, ty) > 0))
    ensures Adjust(t, ty, d) == Step(t, ty, d)
    decreases t
  {
    if t.kind == ty {
      SumBounds(Checks(t.kids, ty));
      AbleExists(t.kids, ty, d);
      RoundRobinOne(t.kids, ty, d, 0);
    } else {
      forall i | 0 <= i < |t.kids| ensures Adjust(t, ty, d).kids[i] == Step(t.kids[i], ty, d) {
        CheckAcross(t, ty, i);
        AdjustOne(t.kids[i], ty, d);
      }
      assert Adjust(t, ty, d).kids == Step(t, ty, d).kids;
    }
  }

  lemma {:induction false} RoundRobinOne(ks: seq<Tree>, ty: Axis, d: int, i: nat)
    requires (d == 1 || d == -1) && AllShaped(ks) && -d <= Sum(Checks(ks, ty))
    requires i <= |ks| && FirstAble(ks, ty, d, i) < |ks|
    ensures var j := FirstAble(ks, ty, d, i);
            RoundRobin(ks, ty, d, i) == ks[j := Step(ks[j], ty, d)]
    decreases |ks| - i
  {
    if d < 0 && Check(ks[i], ty) == 0 {
      RoundRobinOne(ks, ty, d, i + 1);
    }
  }

  // ------------------------------------------------------------------
  // Growth is even

  lemma DivideRound(x: int, n: int)
    requires n > 0
    ensures (x + n) / n == x / n + 1
  {
    var d := (x + n) / n - x / n - 1;
    assert d * n == x % n - (x + n) % n;
    MultipleBounds(d, n);
  }

  lemma MultipleBounds(d: int, n: int)
    requires n > 0
    ensures d >= 1 ==> d * n >= n
    ensures d <= -1 ==> d * n <= -n
  {
  }

  // How far child j is behind child i in the round.
  function Behind(n: nat, i: nat, j: nat): int {
    if j >= i then j - i else j - i + n
  }

  // Child j's share of a growth that starts with child i.
  function Portion(change: int, n: nat, i: nat, j: nat): int
    requires n > 0
  {
    (change + n - 1 - Behind(n, i, j)) / n
  }

  // One step of the round adds one to the share of the child it falls to.
  lemma ShareStep(change: int, n: nat, i: nat, j: nat)
    requires i < n && j < n
    ensures Portion(change, n, i, j) == Portion(change - 1, n, i + 1, j) + if j == i then 1 else 0
  {
    DivideRound(change - 1, n);
    if j != i {
      assert (change - 1) + n - 1 - Behind(n, i + 1, j) == change + n - 1 - Behind(n, i, j);
    }
  }

  lemma ShareEnds(change: int, n: nat, j: nat)
    requires j < n
    ensures Portion(change, n, n, j) == Portion(change, n, 0, j)
    ensures forall i :: 0 <= i < n ==> Portion(0, n, i, j) == 0
  {
    forall i | 0 <= i < n ensures Portion(0, n, i, j) == 0 {
      DivideSmall(n - 1 - Behind(n, i, j), n);
    }
  }

  lemma {:induction false} RoundRobinShares(ks: seq<Tree>, ty: Axis, change: int, i: nat)
    requires ks != [] && i <= |ks| && AllShaped(ks) && 0 <= change && -change <= Sum(Checks(ks, ty))
    ensures var rs := RoundRobin(ks, ty, change, i);
            && |rs| == |ks|
            && forall j :: 0 <= j < |ks| ==> Size(rs[j], ty) == Size(ks[j], ty) + Portion(change, |ks|, i, j)
    decreases change, if i == |ks| then 1 else 0
  {
    hide Step, Shaped, Check, Sum, Portion;
    var n := |ks|;
    forall j | 0 <= j < n
      ensures Portion(change, n, n, j) == Portion(change, n, 0, j) && (i < n ==> Portion(0, n, i, j) == 0)
    {
      ShareEnds(change, n, j);
    }
    if change == 0 {
      if i == n {
        forall j | 0 <= j < n ensures Portion(0, n, n, j) == 0 {
          ShareEnds(0, n, j);
        }
      }
    } else if i == n {
      RoundRobinShares(ks, ty, change, 0);
    } else {
      var ks' := ks[i := Step(ks[i], ty, 1)];
      StepChild(ks, ty, 1, i);
      SumBounds(Checks(ks', ty));
      RoundRobinShares(ks', ty, change - 1, i + 1);
      forall j | 0 <= j < n
        ensures Portion(change, n, i, j) == Portion(change - 1, n, i + 1, j) + if j == i then 1 else 0
      {
        ShareStep(change, n, i, j);
      }
    }
  }

  // Growth is shared out so that no two children's shares differ by more than
  // one, and they sum to the whole.
  lemma SharesEven(change: int, n: nat, i: nat, j: nat, k: nat)
    requires 0 <= change && 0 < n && i <= n && j < n && k < n
    ensures change / n <= Portion(change, n, i, j) <= change / n + 1
    ensures -1 <= Portion(change, n, i, j) - Portion(change, n, i, k) <= 1
  {
    ShareBounds(change, n, Behind(n, i, j));
    ShareBounds(change, n, Behind(n, i, k));
  }

  lemma ShareBounds(change: int, n: nat, b: int)
    requires 0 <= change && 0 < n && 0 <= b <= n - 1
    ensures change / n <= (change + n - 1 - b) / n <= change / n + 1
  {
    DivideRound(change, n);
    DivideMonotone(change, change + n - 1 - b, n);
    DivideMonotone(change + n - 1 - b, change + n, n);
  }

  lemma DivideMonotone(x: int, y: int, n: int)
    requires n > 0 && x <= y
    ensures x / n <= y / n
  {
    MultipleBounds(y / n - x / n, n);
  }

  lemma DivideSmall(x: int, n: int)
    requires 0 <= x < n
    ensures x / n == 0
  {
  }

  // ------------------------------------------------------------------
  // So is shrinking, among those with space left

  // What child j has given up.
  function Gives(ks: seq<Tree>, rs: seq<Tree>, ty: Axis, j: nat): int
    requires j < |ks| == |rs|
  {
    Size(ks[j], ty) - Size(rs[j], ty)
  }

  // It has given up space that it had.
  ghost predicate Gave(ks: seq<Tree>, rs: seq<Tree>, ty: Axis, j: nat)
    requires j < |ks| == |rs|
  {
    Gives(ks, rs, ty, j) >= 0 && Check(rs[j], ty) == Check(ks[j], ty) - Gives(ks, rs, ty, j)
  }

  // Child k has given up no more than child j, should that have space left, but
  // for one column or row where the round came to it before.
  ghost predicate NoMore(ks: seq<Tree>, rs: seq<Tree>, ty: Axis, i: nat, j: nat, k: nat)
    requires j < |ks| == |rs| && k < |ks|
  {
    Check(rs[j], ty) > 0 ==>
      Gives(ks, rs, ty, k) <= Gives(ks, rs, ty, j) + if Behind(|ks|, i, k) < Behind(|ks|, i, j) then 1 else 0
  }

  ghost predicate EvenFrom(ks: seq<Tree>, rs: seq<Tree>, ty: Axis, i: nat) {
    && |rs| == |ks|
    && (forall j :: 0 <= j < |ks| ==> Gave(ks, rs, ty, j))
    && forall j, k :: 0 <= j < |ks| && 0 <= k < |ks| ==> NoMore(ks, rs, ty, i, j, k)
  }

  lemma EvenEnds(ks: seq<Tree>, rs: seq<Tree>, ty: Axis)
    requires EvenFrom(ks, rs, ty, 0)
    ensures EvenFrom(ks, rs, ty, |ks|)
  {
    hide Check, Gives, Gave;
    forall j, k | 0 <= j < |ks| && 0 <= k < |ks| ensures NoMore(ks, rs, ty, |ks|, j, k) {
      assert NoMore(ks, rs, ty, 0, j, k);
    }
  }

  // Child i, first in the round, is last in the round that starts after it.
  lemma BehindNext(n: nat, i: nat, j: nat, k: nat)
    requires i < n && j < n && k < n
    ensures j != i && k != i ==> (Behind(n, i, k) < Behind(n, i, j) <==> Behind(n, i + 1, k) < Behind(n, i + 1, j))
    ensures j != i ==> Behind(n, i, i) < Behind(n, i, j) && Behind(n, i + 1, j) < Behind(n, i + 1, i)
  {
  }

  lemma EvenPassed(ks: seq<Tree>, rs: seq<Tree>, ty: Axis, i: nat)
    requires i < |ks| && Check(ks[i], ty) == 0 && EvenFrom(ks, rs, ty, i + 1)
    ensures EvenFrom(ks, rs, ty, i)
  {
    hide Check, Gives, Behind;
    assert Gave(ks, rs, ty, i);
    forall j, k | 0 <= j < |ks| && 0 <= k < |ks| ensures NoMore(ks, rs, ty, i, j, k) {
      assert Gave(ks, rs, ty, j) && NoMore(ks, rs, ty, i + 1, j, k);
      BehindNext(|ks|, i, j, k);
      BehindNext(|ks|, i, k, j);
    }
  }

  lemma EvenTaken(ks: seq<Tree>, c: Tree, rs: seq<Tree>, ty: Axis, i: nat)
    requires i < |ks| && EvenFrom(ks[i := c], rs, ty, i + 1)
    requires Size(c, ty) == Size(ks[i], ty) - 1 && Check(c, ty) == Check(ks[i], ty) - 1
    ensures EvenFrom(ks, rs, ty, i)
  {
    hide Check, Behind, Gives, Gave, NoMore;
    forall j | 0 <= j < |ks| ensures Gave(ks, rs, ty, j) {
      TakenGave(ks, c, rs, ty, i, j);
    }
    forall j, k | 0 <= j < |ks| && 0 <= k < |ks| ensures NoMore(ks, rs, ty, i, j, k) {
      TakenNoMore(ks, c, rs, ty, i, j, k);
    }
  }

  lemma TakenGave(ks: seq<Tree>, c: Tree, rs: seq<Tree>, ty: Axis, i: nat, j: nat)
    requires i < |ks| && j < |ks| == |rs| && Gave(ks[i := c], rs, ty, j)
    requires Size(c, ty) == Size(ks[i], ty) - 1 && Check(c, ty) == Check(ks[i], ty) - 1
    ensures Gave(ks, rs, ty, j)
    ensures Gives(ks, rs, ty, j) == Gives(ks[i := c], rs, ty, j) + if j == i then 1 else 0
  {
    hide Check;
  }

  lemma TakenNoMore(ks: seq<Tree>, c: Tree, rs: seq<Tree>, ty: Axis, i: nat, j: nat, k: nat)
    requires i < |ks| && j < |ks| == |rs| && k < |ks|
    requires Gave(ks[i := c], rs, ty, j) && Gave(ks[i := c], rs, ty, k) && NoMore(ks[i := c], rs, ty, i + 1, j, k)
    requires Size(c, ty) == Size(ks[i], ty) - 1 && Check(c, ty) == Check(ks[i], ty) - 1
    ensures NoMore(ks, rs, ty, i, j, k)
  {
    hide Check, Behind, Gives, Gave;
    TakenGave(ks, c, rs, ty, i, j);
    TakenGave(ks, c, rs, ty, i, k);
    BehindNext(|ks|, i, j, k);
    BehindNext(|ks|, i, k, j);
  }

  lemma StepTakes(k: Tree, ty: Axis)
    requires Shaped(k) && Check(k, ty) > 0
    ensures var r := Step(k, ty, -1); Size(r, ty) == Size(k, ty) - 1 && Check(r, ty) == Check(k, ty) - 1
  {
    hide Shaped, Check, Step, Reshaped;
    StepCorrect(k, ty, -1);
  }

  lemma {:induction false} RoundRobinEven(ks: seq<Tree>, ty: Axis, change: int, i: nat)
    requires ks != [] && i <= |ks| && AllShaped(ks) && change <= 0 && -change <= Sum(Checks(ks, ty))
    ensures EvenFrom(ks, RoundRobin(ks, ty, change, i), ty, i)
    decreases -change, if FirstAble(ks, ty, change, i) == |ks| then 1 else 0, |ks| - i
  {
    hide Step, Shaped, Check, Sum, FirstAble, EvenFrom;
    if change == 0 {
      EvenNothing(ks, ty, i);
    } else if i == |ks| {
      AbleExists(ks, ty, change);
      RoundRobinEven(ks, ty, change, 0);
      EvenEnds(ks, RoundRobin(ks, ty, change, 0), ty);
    } else if Check(ks[i], ty) > 0 {
      TakeStep(ks, ty, i);
      StepTakes(ks[i], ty);
      RoundRobinEven(ks[i := Step(ks[i], ty, -1)], ty, change + 1, i + 1);
      EvenTaken(ks, Step(ks[i], ty, -1), RoundRobin(ks, ty, change, i), ty, i);
    } else {
      AblePasses(ks, ty, change, i);
      RoundRobinEven(ks, ty, change, i + 1);
      EvenPassed(ks, RoundRobin(ks, ty, change, i + 1), ty, i);
    }
  }

  lemma EvenNothing(ks: seq<Tree>, ty: Axis, i: nat)
    ensures EvenFrom(ks, ks, ty, i)
  {
    hide Check, Behind;
  }

  // A shrink takes from children that have space left what differs by at most
  // one, and no more from one that has none left.
  lemma ShrinkEven(ks: seq<Tree>, ty: Axis, change: int, j: nat, k: nat)
    requires ks != [] && AllShaped(ks) && change <= 0 && -change <= Sum(Checks(ks, ty))
    requires j < |ks| && k < |ks|
    ensures var rs := RoundRobin(ks, ty, change, 0);
            && |rs| == |ks| && Check(rs[j], ty) == Check(ks[j], ty) - Gives(ks, rs, ty, j)
            && (Check(rs[j], ty) > 0 ==> Gives(ks, rs, ty, k) <= Gives(ks, rs, ty, j) + 1)
            && (Check(rs[j], ty) > 0 && Check(rs[k], ty) > 0 ==>
                  -1 <= Gives(ks, rs, ty, j) - Gives(ks, rs, ty, k) <= 1)
  {
    hide Check, Shaped, Sum, RoundRobin, Gives, Behind;
    RoundRobinEven(ks, ty, change, 0);
    var rs := RoundRobin(ks, ty, change, 0);
    assert Gave(ks, rs, ty, j) && NoMore(ks, rs, ty, 0, j, k) && NoMore(ks, rs, ty, 0, k, j);
  }
}
