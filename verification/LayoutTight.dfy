// How much space a closed pane leaves behind: exactly when the tree without it
// has none to give up, said of the tree before.
module LayoutTight {
  import opened Common
  import opened Sums
  import opened LayoutTree
  import opened LayoutOps

  // ------------------------------------------------------------------
  // No space, along and across

  lemma NoneAlong(t: Tree, ty: Axis)
    requires t.kind == ty
    ensures Check(t, ty) == 0 <==> forall j :: 0 <= j < |t.kids| ==> Check(t.kids[j], ty) == 0
  {
    SumBounds(Checks(t.kids, ty));
    assert forall j :: 0 <= j < |t.kids| ==> Checks(t.kids, ty)[j] == Check(t.kids[j], ty);
  }

  lemma NoneAcross(t: Tree, ty: Axis)
    requires t.kind == Other(ty) && t.kids != []
    ensures Check(t, ty) == 0 <==> exists j :: 0 <= j < |t.kids| && Check(t.kids[j], ty) == 0
  {
    MinOfIsLeast(Checks(t.kids, ty), UINT_MAX);
    assert forall j :: 0 <= j < |t.kids| ==> Checks(t.kids, ty)[j] == Check(t.kids[j], ty);
  }

  ghost predicate NoneBeside(ks: seq<Tree>, ty: Axis, i: nat) {
    forall j :: 0 <= j < |ks| && j != i ==> Check(ks[j], ty) == 0
  }

  ghost predicate SomeNoneBeside(ks: seq<Tree>, ty: Axis, i: nat) {
    exists j :: 0 <= j < |ks| && j != i && Check(ks[j], ty) == 0
  }

  // A container of which child i is replaced by k.
  lemma NoneReplaced(t: Tree, ty: Axis, i: nat, k: Tree, u: Tree)
    requires i < |t.kids| && t.kind != WindowPane && u.kind == t.kind && u.kids == t.kids[i := k]
    ensures Check(u, ty) == 0 <==>
            if t.kind == ty then Check(k, ty) == 0 && NoneBeside(t.kids, ty, i)
            else Check(k, ty) == 0 || SomeNoneBeside(t.kids, ty, i)
  {
    hide Check;
    if t.kind == ty {
      NoneAlong(u, ty);
      assert Check(k, ty) == 0 && NoneBeside(t.kids, ty, i) ==> Check(u, ty) == 0;
      if Check(u, ty) == 0 {
        assert Check(u.kids[i], ty) == 0;
        forall j | 0 <= j < |t.kids| && j != i ensures Check(t.kids[j], ty) == 0 {
          assert Check(u.kids[j], ty) == 0;
        }
      }
    } else {
      NoneAcross(u, ty);
      assert u.kids[i] == k;
      if SomeNoneBeside(t.kids, ty, i) {
        var j :| 0 <= j < |t.kids| && j != i && Check(t.kids[j], ty) == 0;
        assert u.kids[j] == t.kids[j];
      }
    }
  }

  // ------------------------------------------------------------------
  // Growth by one, m times over

  function Steps(t: Tree, ty: Axis, m: nat): Tree
    decreases m
  {
    if m == 0 then t else Steps(Step(t, ty, 1), ty, m - 1)
  }

  // A container that is grown by one time after time gives it all to its first
  // child, as each time starts from there.
  lemma {:induction false} StepsAlong(t: Tree, ty: Axis, m: nat)
    requires t.kind == ty && t.kids != []
    ensures var u := Steps(t, ty, m); u.kind == ty && u.kids == t.kids[0 := Steps(t.kids[0], ty, m)]
    decreases m
  {
    if m > 0 {
      StepsAlong(Step(t, ty, 1), ty, m - 1);
    }
  }

  lemma {:induction false} StepsAcross(t: Tree, ty: Axis, m: nat)
    requires t.kind != ty
    ensures var u := Steps(t, ty, m);
            && u.kind == t.kind && |u.kids| == |t.kids| && Size(u, ty) == Size(t, ty) + m
            && forall j :: 0 <= j < |t.kids| ==> u.kids[j] == Steps(t.kids[j], ty, m)
    decreases m
  {
    if m > 0 {
      StepsAcross(Step(t, ty, 1), ty, m - 1);
    }
  }

  // The tree has no space left once it has been grown by one, m times.
  ghost predicate TightAfterSteps(t: Tree, ty: Axis, m: nat)
    decreases t
  {
    if t.kind == WindowPane then Size(t, ty) + m <= PANE_MINIMUM
    else if t.kind == ty then
      && (t.kids != [] ==> TightAfterSteps(t.kids[0], ty, m))
      && NoneBeside(t.kids, ty, 0)
    else exists j :: 0 <= j < |t.kids| && TightAfterSteps(t.kids[j], ty, m)
  }

  lemma {:induction false} StepsTight(t: Tree, ty: Axis, m: nat)
    requires WellFormed(t)
    ensures Check(Steps(t, ty, m), ty) == 0 <==> TightAfterSteps(t, ty, m)
    decreases t
  {
    hide Check, Step, Steps, Fills;
    var u := Steps(t, ty, m);
    if t.kind == WindowPane {
      StepsAcross(t, ty, m);
      LeafSpace(u, ty);
    } else if t.kind == ty {
      StepsAlong(t, ty, m);
      StepsTight(t.kids[0], ty, m);
      NoneReplaced(t, ty, 0, Steps(t.kids[0], ty, m), u);
    } else {
      StepsAcross(t, ty, m);
      forall j | 0 <= j < |t.kids|
        ensures Check(u.kids[j], ty) == 0 <==> TightAfterSteps(t.kids[j], ty, m)
      {
        StepsTight(t.kids[j], ty, m);
      }
      NoneAcross(u, ty);
    }
  }

  lemma LeafSpace(t: Tree, ty: Axis)
    requires t.kind == WindowPane
    ensures Check(t, ty) == 0 <==> Size(t, ty) <= PANE_MINIMUM
  {
  }

  // ------------------------------------------------------------------
  // Growth by layout_resize_adjust

  // The round gives each child its portion, one at a time.
  lemma {:induction false} RoundRobinSteps(ks: seq<Tree>, ty: Axis, change: int, i: nat, j: nat)
    requires ks != [] && i <= |ks| && AllShaped(ks) && 0 <= change && -change <= Sum(Checks(ks, ty))
    requires j < |ks|
    ensures Portion(change, |ks|, i, j) >= 0
    ensures |RoundRobin(ks, ty, change, i)| == |ks|
    ensures RoundRobin(ks, ty, change, i)[j] == Steps(ks[j], ty, Portion(change, |ks|, i, j))
    decreases change, if i == |ks| then 1 else 0
  {
    hide Step, Shaped, Stepped, Uses, Check, Sum, Portion, FirstAble;
    var n := |ks|;
    ShareEnds(change, n, j);
    ShareEnds(0, n, j);
    if change == 0 {
    } else if i == n {
      RoundRobinSteps(ks, ty, change, 0, j);
    } else {
      StepChild(ks, ty, 1, i);
      var ks' := ks[i := Step(ks[i], ty, 1)];
      SumBounds(Checks(ks', ty));
      RoundRobinSteps(ks', ty, change - 1, i + 1, j);
      ShareStep(change, n, i, j);
    }
  }

  // The tree has no space left once it has grown by g.
  ghost predicate TightAfter(t: Tree, ty: Axis, g: nat)
    decreases t
  {
    if t.kind == WindowPane then Size(t, ty) + g <= PANE_MINIMUM
    else if t.kind == ty then
      forall j :: 0 <= j < |t.kids| ==>
        Portion(g, |t.kids|, 0, j) >= 0 && TightAfterSteps(t.kids[j], ty, Portion(g, |t.kids|, 0, j))
    else exists j :: 0 <= j < |t.kids| && TightAfter(t.kids[j], ty, g)
  }

  lemma {:induction false} AdjustTight(t: Tree, ty: Axis, g: nat)
    requires WellFormed(t)
    ensures Check(Adjust(t, ty, g), ty) == 0 <==> TightAfter(t, ty, g)
    decreases t
  {
    hide Check, Steps, Fills, RoundRobin, Portion, TightAfterSteps;
    var u := Adjust(t, ty, g);
    if t.kind == WindowPane {
      LeafSpace(u, ty);
    } else if t.kind == ty {
      SumBounds(Checks(t.kids, ty));
      RoundRobinSteps(t.kids, ty, g, 0, 0);
      forall j | 0 <= j < |t.kids|
        ensures Portion(g, |t.kids|, 0, j) >= 0
        ensures Check(u.kids[j], ty) == 0 <==> TightAfterSteps(t.kids[j], ty, Portion(g, |t.kids|, 0, j))
      {
        RoundRobinSteps(t.kids, ty, g, 0, j);
        StepsTight(t.kids[j], ty, Portion(g, |t.kids|, 0, j));
      }
      NoneAlong(u, ty);
    } else {
      forall j | 0 <= j < |t.kids|
        ensures Check(u.kids[j], ty) == 0 <==> TightAfter(t.kids[j], ty, g)
      {
        AdjustTight(t.kids[j], ty, g);
      }
      NoneAcross(u, ty);
    }
  }

  // ------------------------------------------------------------------
  // Closing

  // Without the cell at p, the tree has no space left along ty.
  ghost predicate Tight(t: Tree, p: Path, ty: Axis)
    requires WellFormed(t) && ValidPath(t, p) && p != []
    decreases |p|
  {
    var i := p[0];
    if |p| == 1 then TightWithout(t, i, ty)
    else if t.kind == ty then Tight(t.kids[i], p[1..], ty) && NoneBeside(t.kids, ty, i)
    else Tight(t.kids[i], p[1..], ty) || SomeNoneBeside(t.kids, ty, i)
  }

  // Without its child i, whose space and separator go to the heir.
  ghost predicate TightWithout(t: Tree, i: nat, ty: Axis)
    requires WellFormed(t) && i < |t.kids|
  {
    var h := Heir(i);
    assert WellFormed(t.kids[i]);
    if t.kind == ty then
      && TightAfter(t.kids[h], ty, Size(t.kids[i], ty) + 1)
      && forall j :: 0 <= j < |t.kids| && j != i && j != h ==> Check(t.kids[j], ty) == 0
    else SomeNoneBeside(t.kids, ty, i)
  }

  // Exactly then does destroying the cell leave nothing to give up.
  lemma {:induction false} DestroyTight(t: Tree, p: Path, ty: Axis)
    requires WellFormed(t) && ValidPath(t, p) && p != []
    ensures Check(Destroy(t, p), ty) == 0 <==> Tight(t, p, ty)
    decreases |p|
  {
    hide WellFormed, Check, Without, TightWithout;
    KidsWellFormed(t);
    var i := p[0];
    if |p| == 1 {
      WithoutTight(t, i, ty);
    } else {
      DestroyTight(t.kids[i], p[1..], ty);
      NoneReplaced(t, ty, i, Destroy(t.kids[i], p[1..]), Destroy(t, p));
    }
  }

  lemma WithoutTight(t: Tree, i: nat, ty: Axis)
    requires WellFormed(t) && AllWellFormed(t.kids) && i < |t.kids| && Heir(i) < |t.kids|
    ensures Check(Collapse(t.(kids := Without(t.kids, t.kind, i))), ty) == 0 <==> TightWithout(t, i, ty)
  {
    hide WellFormed, Check, TightAfter, Adjust, Without;
    KidsWellFormed(t);
    KidsWellFormed(t.kids[i]);
    var ks, h, g := t.kids, Heir(i), Size(t.kids[i], t.kind) + 1;
    var grown := Adjust(ks[h], t.kind, g);
    AdjustTight(ks[h], t.kind, g);
    AdjustCorrect(ks[h], t.kind, g);
    SteppedAcross(ks[h], grown, t.kind, g);
    WithoutAt(ks, t.kind, i, 0);
    forall j | 0 <= j < |ks| - 1
      ensures Without(ks, t.kind, i)[j] == ks[h := grown][Skip(i, j)]
    {
      WithoutAt(ks, t.kind, i, j);
    }
    CollapseNone(t, t.(kids := Without(ks, t.kind, i)), ty, i, h, grown);
  }

  // The other way about.
  function Back(i: nat, j: nat): nat
    requires j != i
  {
    if j < i then j else j - 1
  }

  lemma LeftNone(ks: seq<Tree>, rs: seq<Tree>, ty: Axis, i: nat)
    requires i < |ks| && |rs| == |ks| - 1
    requires forall j :: 0 <= j < |rs| ==> rs[j] == ks[Skip(i, j)]
    ensures (forall j :: 0 <= j < |rs| ==> Check(rs[j], ty) == 0) <==> NoneBeside(ks, ty, i)
    ensures (exists j :: 0 <= j < |rs| && Check(rs[j], ty) == 0) <==> SomeNoneBeside(ks, ty, i)
  {
    hide Check;
    forall j | 0 <= j < |ks| && j != i ensures Back(i, j) < |rs| && rs[Back(i, j)] == ks[j] {
    }
  }

  lemma CollapseNone(t: Tree, u: Tree, ty: Axis, i: nat, h: nat, grown: Tree)
    requires t.kind != WindowPane && i < |t.kids| && h < |t.kids| && h != i
    requires u.kind == t.kind && |u.kids| == |t.kids| - 1
    requires forall j :: 0 <= j < |u.kids| ==> u.kids[j] == t.kids[h := grown][Skip(i, j)]
    requires Check(grown, Other(t.kind)) == Check(t.kids[h], Other(t.kind))
    ensures Check(Collapse(u), ty) == 0 <==>
            if t.kind == ty then
              && Check(grown, ty) == 0
              && forall j :: 0 <= j < |t.kids| && j != i && j != h ==> Check(t.kids[j], ty) == 0
            else SomeNoneBeside(t.kids, ty, i)
  {
    hide Check, Skip, Collapse, NoneBeside, SomeNoneBeside;
    LeftNone(t.kids[h := grown], u.kids, ty, i);
    CollapsedNone(u, ty);
    HeirNone(t.kids, ty, i, h, grown);
  }

  lemma HeirNone(ks: seq<Tree>, ty: Axis, i: nat, h: nat, grown: Tree)
    requires i < |ks| && h < |ks| && h != i
    ensures NoneBeside(ks[h := grown], ty, i) <==>
            && Check(grown, ty) == 0
            && forall j :: 0 <= j < |ks| && j != i && j != h ==> Check(ks[j], ty) == 0
    ensures Check(grown, ty) == Check(ks[h], ty) ==>
            (SomeNoneBeside(ks[h := grown], ty, i) <==> SomeNoneBeside(ks, ty, i))
  {
    hide Check;
    assert ks[h := grown][h] == grown;
    forall j | 0 <= j < |ks| && j != h ensures ks[h := grown][j] == ks[j] {
    }
  }

  lemma CollapsedNone(u: Tree, ty: Axis)
    requires u.kind != WindowPane && u.kids != []
    ensures Check(Collapse(u), ty) == 0 <==>
            if u.kind == ty then forall j :: 0 <= j < |u.kids| ==> Check(u.kids[j], ty) == 0
            else exists j :: 0 <= j < |u.kids| && Check(u.kids[j], ty) == 0
  {
    hide Check;
    if |u.kids| == 1 {
      assert Collapse(u) == u.kids[0];
    } else if u.kind == ty {
      NoneAlong(u, ty);
    } else {
      NoneAcross(u, ty);
    }
  }

  lemma SteppedAcross(t: Tree, u: Tree, ty: Axis, d: int)
    requires Stepped(t, u, ty, d)
    ensures Check(u, Other(ty)) == Check(t, Other(ty))
  {
  }

  lemma WithoutAt(ks: seq<Tree>, ty: Axis, i: nat, j: nat)
    requires i < |ks| && Heir(i) < |ks| && AllWellFormed(ks) && WellFormed(ks[i]) && Size(ks[i], ty) >= 0
    requires j < |ks| - 1
    ensures |Without(ks, ty, i)| == |ks| - 1
    ensures Without(ks, ty, i)[j] == ks[Heir(i) := Adjust(ks[Heir(i)], ty, Size(ks[i], ty) + 1)][Skip(i, j)]
  {
    hide WellFormed, Check, Adjust, Without;
    WithoutIs(ks, ty, i);
  }
}
