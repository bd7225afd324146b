// When layout_resize_adjust ends: its loop goes round the children while any
// of the change is left, and asks nobody whether that can be taken.
module LayoutEnds {
  import opened Sums
  import opened LayoutTree

  // One pass over the children from child i on: what they are after it, and
  // what is left of the change.
  function Pass(ks: seq<Tree>, ty: Axis, change: int, i: nat): (r: (seq<Tree>, int))
    requires i <= |ks|
    ensures |r.0| == |ks|
    decreases |ks| - i
  {
    if i == |ks| || change == 0 then (ks, change)
    else if change > 0 then Pass(ks[i := Step(ks[i], ty, 1)], ty, change - 1, i + 1)
    else if Check(ks[i], ty) > 0 then Pass(ks[i := Step(ks[i], ty, -1)], ty, change + 1, i + 1)
    else Pass(ks, ty, change, i + 1)
  }

  function Passes(ks: seq<Tree>, ty: Axis, change: int, n: nat): (r: (seq<Tree>, int))
    ensures |r.0| == |ks|
    decreases n
  {
    if n == 0 then (ks, change)
    else var r := Pass(ks, ty, change, 0); Passes(r.0, ty, r.1, n - 1)
  }

  ghost predicate RoundEnds(ks: seq<Tree>, ty: Axis, change: int) {
    exists n: nat :: Passes(ks, ty, change, n).1 == 0
  }

  // A pass keeps the difference between what is wanted and what there is.
  ghost predicate Shrunk(ks: seq<Tree>, rs: seq<Tree>, ty: Axis, change: int, left: int) {
    && AllShaped(rs) && change <= left <= 0
    && left + Sum(Checks(rs, ty)) == change + Sum(Checks(ks, ty))
  }

  lemma {:induction false} PassShrinks(ks: seq<Tree>, ty: Axis, change: int, i: nat)
    requires i <= |ks| && AllShaped(ks) && change <= 0
    ensures var r := Pass(ks, ty, change, i); Shrunk(ks, r.0, ty, change, r.1)
    decreases |ks| - i
  {
    hide Step, Shaped, Check, Sum;
    if i < |ks| && change < 0 {
      if Check(ks[i], ty) > 0 {
        TakeStep(ks, ty, i);
        PassShrinks(ks[i := Step(ks[i], ty, -1)], ty, change + 1, i + 1);
      } else {
        PassShrinks(ks, ty, change, i + 1);
      }
    }
  }

  lemma {:induction false} PassesShrink(ks: seq<Tree>, ty: Axis, change: int, n: nat)
    requires AllShaped(ks) && change <= 0
    ensures var r := Passes(ks, ty, change, n); Shrunk(ks, r.0, ty, change, r.1)
    decreases n
  {
    hide Shaped, Check, Sum, Pass;
    if n > 0 {
      PassShrinks(ks, ty, change, 0);
      var r := Pass(ks, ty, change, 0);
      PassesShrink(r.0, ty, r.1, n - 1);
    }
  }

  // Where the change can be made, a pass is part of the round.
  ghost predicate Goes(ks: seq<Tree>, rs: seq<Tree>, ty: Axis, change: int, left: int, i: nat)
    requires ks != [] && i <= |ks| == |rs| && AllShaped(ks) && -change <= Sum(Checks(ks, ty))
  {
    && AllShaped(rs) && -left <= Sum(Checks(rs, ty))
    && (if change < 0 then change <= left <= 0 else 0 <= left <= change)
    && RoundRobin(ks, ty, change, i) == RoundRobin(rs, ty, left, 0)
  }

  lemma {:induction false} PassGoes(ks: seq<Tree>, ty: Axis, change: int, i: nat)
    requires ks != [] && i <= |ks| && AllShaped(ks) && -change <= Sum(Checks(ks, ty))
    ensures var r := Pass(ks, ty, change, i);
            && Goes(ks, r.0, ty, change, r.1, i)
            && (change != 0 && FirstAble(ks, ty, change, i) < |ks| ==> r.1 != change)
    decreases |ks| - i
  {
    hide Step, Shaped, Check, Sum, FirstAble;
    if i < |ks| && change != 0 {
      if change > 0 {
        GiveStep(ks, ty, i);
        PassGoes(ks[i := Step(ks[i], ty, 1)], ty, change - 1, i + 1);
      } else if Check(ks[i], ty) > 0 {
        TakeStep(ks, ty, i);
        PassGoes(ks[i := Step(ks[i], ty, -1)], ty, change + 1, i + 1);
      } else {
        AblePasses(ks, ty, change, i);
        PassGoes(ks, ty, change, i + 1);
      }
    }
  }

  // And so the passes come to an end, with what the round gives.
  lemma {:induction false} PassesEnd(ks: seq<Tree>, ty: Axis, change: int) returns (n: nat)
    requires ks != [] && AllShaped(ks) && -change <= Sum(Checks(ks, ty))
    ensures Passes(ks, ty, change, n) == (RoundRobin(ks, ty, change, 0), 0)
    decreases if change < 0 then -change else change
  {
    hide Step, Shaped, Check, Sum, FirstAble, Pass;
    if change == 0 {
      n := 0;
    } else {
      AbleExists(ks, ty, change);
      PassGoes(ks, ty, change, 0);
      var r := Pass(ks, ty, change, 0);
      n := PassesEnd(r.0, ty, r.1);
      n := n + 1;
    }
  }

  lemma {:induction false} PassesDone(ks: seq<Tree>, ty: Axis, n: nat)
    ensures Passes(ks, ty, 0, n) == (ks, 0)
    decreases n
  {
    if n > 0 {
      PassesDone(ks, ty, n - 1);
    }
  }

  // However many more passes are counted, the result is the same.
  lemma {:induction false} PassesSame(ks: seq<Tree>, ty: Axis, change: int, n: nat, m: nat)
    requires n <= m && Passes(ks, ty, change, n).1 == 0
    ensures Passes(ks, ty, change, m) == Passes(ks, ty, change, n)
    decreases n
  {
    hide Pass;
    if n == 0 {
      PassesDone(ks, ty, m);
    } else {
      var r := Pass(ks, ty, change, 0);
      PassesSame(r.0, ty, r.1, n - 1, m - 1);
    }
  }

  // The loop ends just when the children have as much to give as is taken, and
  // then with what RoundRobin gives.
  lemma RoundEndsExactly(ks: seq<Tree>, ty: Axis, change: int)
    requires ks != [] && AllShaped(ks)
    ensures RoundEnds(ks, ty, change) <==> -change <= Sum(Checks(ks, ty))
    ensures -change <= Sum(Checks(ks, ty)) ==>
              forall n: nat :: Passes(ks, ty, change, n).1 == 0 ==>
                Passes(ks, ty, change, n).0 == RoundRobin(ks, ty, change, 0)
  {
    hide Shaped, Check, Sum, Passes, RoundRobin;
    SumBounds(Checks(ks, ty));
    if -change <= Sum(Checks(ks, ty)) {
      var m := PassesEnd(ks, ty, change);
      forall n: nat | Passes(ks, ty, change, n).1 == 0
        ensures Passes(ks, ty, change, n).0 == RoundRobin(ks, ty, change, 0)
      {
        if n <= m {
          PassesSame(ks, ty, change, n, m);
        } else {
          PassesSame(ks, ty, change, m, n);
        }
      }
    } else {
      forall n: nat ensures Passes(ks, ty, change, n).1 != 0 {
        PassesShrink(ks, ty, change, n);
        SumBounds(Checks(Passes(ks, ty, change, n).0, ty));
      }
    }
  }

  // ------------------------------------------------------------------
  // Whole trees

  // layout_resize_adjust ends for a cell. The steps that a pass makes of the
  // children end, as they have something to give where something is taken.
  ghost predicate AdjustEnds(t: Tree, ty: Axis, change: int)
    decreases t
  {
    if t.kind == WindowPane then true
    else if t.kind == ty then RoundEnds(t.kids, ty, change)
    else forall i :: 0 <= i < |t.kids| ==> AdjustEnds(t.kids[i], ty, change)
  }

  // The containers along ty that are met first have as much to give as is taken.
  predicate Affords(t: Tree, ty: Axis, change: int)
    decreases t
  {
    if t.kind == WindowPane then true
    else if t.kind == ty then -change <= Check(t, ty)
    else forall i :: 0 <= i < |t.kids| ==> Affords(t.kids[i], ty, change)
  }

  lemma {:induction false} EndsExactly(t: Tree, ty: Axis, change: int)
    requires Shaped(t)
    ensures AdjustEnds(t, ty, change) <==> Affords(t, ty, change)
    ensures -change <= Check(t, ty) ==> AdjustEnds(t, ty, change)
    decreases t
  {
    hide Shaped, Check, RoundEnds;
    KidsShaped(t);
    if t.kind == ty {
      CheckAlong(t, ty);
      RoundEndsExactly(t.kids, ty, change);
    } else {
      forall i | 0 <= i < |t.kids|
        ensures AdjustEnds(t.kids[i], ty, change) <==> Affords(t.kids[i], ty, change)
        ensures -change <= Check(t, ty) ==> AdjustEnds(t.kids[i], ty, change)
      {
        CheckAcross(t, ty, i);
        EndsExactly(t.kids[i], ty, change);
      }
    }
  }
}
