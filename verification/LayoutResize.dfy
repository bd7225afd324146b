// Moving a border between panes, and fitting a layout to its window.
module LayoutResize {
  import opened Common
  import opened Sums
  import opened LayoutTree
  import opened LayoutGeometry
  import opened LayoutOps

  // ------------------------------------------------------------------
  // Taking space from donors, in a fixed order of preference, for child `add`

  ghost predicate Orderly(n: nat, add: nat, order: seq<nat>) {
    && add < n
    && (forall k :: 0 <= k < |order| ==> order[k] < n && order[k] != add)
    && forall k, l :: 0 <= k < l < |order| ==> order[k] != order[l]
  }

  // The first donor with space to give, as a position in the order.
  function FirstDonor(ks: seq<Tree>, ty: Axis, order: seq<nat>, from: nat): (k: nat)
    requires from <= |order| && forall k :: 0 <= k < |order| ==> order[k] < |ks|
    ensures from <= k <= |order|
    ensures k < |order| ==> Check(ks[order[k]], ty) > 0
    ensures forall l :: from <= l < k ==> Check(ks[order[l]], ty) == 0
    decreases |order| - from
  {
    if from == |order| || Check(ks[order[from]], ty) > 0 then from
    else FirstDonor(ks, ty, order, from + 1)
  }

  function Gifts(ks: seq<Tree>, ty: Axis, order: seq<nat>): (r: seq<int>)
    requires forall k :: 0 <= k < |order| ==> order[k] < |ks|
    ensures |r| == |order|
    ensures forall k :: 0 <= k < |order| ==> r[k] >= 0 && r[k] == Check(ks[order[k]], ty)
  {
    seq(|order|, k requires 0 <= k < |order| => Check(ks[order[k]], ty))
  }

  // How much the donors have between them.
  function Available(ks: seq<Tree>, ty: Axis, order: seq<nat>): nat
    requires forall k :: 0 <= k < |order| ==> order[k] < |ks|
  {
    SumBounds(Gifts(ks, ty, order));
    Sum(Gifts(ks, ty, order))
  }

  function Transfer(ks: seq<Tree>, ty: Axis, add: nat, remove: nat, size: nat): seq<Tree>
    requires AllWellFormed(ks) && add < |ks| && remove < |ks| && size <= Check(ks[remove], ty)
  {
    ks[add := Adjust(ks[add], ty, size)][remove := Adjust(ks[remove], ty, 0 - size)]
  }

  // Rounds of giving until `needed` is met or no donor has anything left.
  function Pull(ks: seq<Tree>, ty: Axis, add: nat, order: seq<nat>, needed: nat): seq<Tree>
    requires AllWellFormed(ks) && Orderly(|ks|, add, order)
    decreases needed
  {
    var k := FirstDonor(ks, ty, order, 0);
    if needed == 0 || k == |order| then ks
    else
      var size := Min(Check(ks[order[k]], ty), needed);
      TransferSound(ks, ty, add, order[k], size);
      Pull(Transfer(ks, ty, add, order[k], size), ty, add, order, needed - size)
  }

  // r is the same cell as k with another size along ty.
  ghost predicate Kept(k: Tree, r: Tree, ty: Axis) {
    && WellFormed(r) && Reshaped(k, r, ty)
    && Size(r, Other(ty)) == Size(k, Other(ty)) && Check(r, Other(ty)) == Check(k, Other(ty))
  }

  ghost predicate AllKept(ks: seq<Tree>, rs: seq<Tree>, ty: Axis) {
    |rs| == |ks| && forall j :: 0 <= j < |ks| ==> Kept(ks[j], rs[j], ty)
  }

  lemma KeptRefl(k: Tree, ty: Axis)
    requires WellFormed(k)
    ensures Kept(k, k, ty)
  {
    ReshapedRefl(k, ty);
  }

  lemma KeptTrans(k: Tree, r: Tree, v: Tree, ty: Axis)
    requires Kept(k, r, ty) && Kept(r, v, ty)
    ensures Kept(k, v, ty)
  {
    hide WellFormed, Check, Reshaped;
    ReshapedTrans(k, r, v, ty);
  }

  lemma AdjustKept(k: Tree, ty: Axis, change: int)
    requires WellFormed(k) && -change <= Check(k, ty)
    ensures var r := Adjust(k, ty, change);
            Kept(k, r, ty) && Size(r, ty) == Size(k, ty) + change && Uses(Check(k, ty), Check(r, ty), change)
  {
    hide WellFormed, Check, Reshaped, Adjust, Size;
    AdjustCorrect(k, ty, change);
  }

  lemma TransferSound(ks: seq<Tree>, ty: Axis, add: nat, remove: nat, size: nat)
    requires AllWellFormed(ks) && add < |ks| && remove < |ks| && add != remove
    requires size <= Check(ks[remove], ty)
    ensures var rs := Transfer(ks, ty, add, remove, size);
            && AllKept(ks, rs, ty) && AllWellFormed(rs)
            && Size(rs[add], ty) == Size(ks[add], ty) + size
            && Size(rs[remove], ty) == Size(ks[remove], ty) - size
            && Check(rs[remove], ty) == Check(ks[remove], ty) - size
            && Sum(Sizes(rs, ty)) == Sum(Sizes(ks, ty))
            && Sum(Checks(rs, ty)) <= Sum(Checks(ks, ty))
            && |rs| == |ks| && forall j :: 0 <= j < |ks| && j != add && j != remove ==> rs[j] == ks[j]
  {
    hide WellFormed, Check, Reshaped, Adjust, Sum, Kept;
    var a, b := Adjust(ks[add], ty, size), Adjust(ks[remove], ty, 0 - size);
    var rs := Transfer(ks, ty, add, remove, size);
    AdjustKept(ks[add], ty, size);
    AdjustKept(ks[remove], ty, 0 - size);
    forall j | 0 <= j < |ks| ensures Kept(ks[j], rs[j], ty) && WellFormed(rs[j]) {
      KeptRefl(ks[j], ty);
      KeptWellFormed(ks[j], rs[j], ty);
    }
    var s, c := Sizes(ks, ty), Checks(ks, ty);
    assert Sizes(rs, ty) == s[add := Size(a, ty)][remove := Size(b, ty)];
    SumUpdate(s, add, Size(a, ty));
    SumUpdate(s[add := Size(a, ty)], remove, Size(b, ty));
    assert Checks(rs, ty) == c[add := Check(a, ty)][remove := Check(b, ty)];
    SumUpdate(c, add, Check(a, ty));
    SumUpdate(c[add := Check(a, ty)], remove, Check(b, ty));
  }

  lemma KeptWellFormed(k: Tree, r: Tree, ty: Axis)
    requires Kept(k, r, ty)
    ensures WellFormed(r)
  {
  }

  lemma TransferAvailable(ks: seq<Tree>, ty: Axis, add: nat, order: seq<nat>, k: nat, size: nat)
    requires AllWellFormed(ks) && Orderly(|ks|, add, order) && k < |order|
    requires size <= Check(ks[order[k]], ty)
    ensures Available(Transfer(ks, ty, add, order[k], size), ty, order) == Available(ks, ty, order) - size
  {
    hide WellFormed, Check, AllKept, Adjust, Sum;
    TransferSound(ks, ty, add, order[k], size);
    var rs := Transfer(ks, ty, add, order[k], size);
    var g := Gifts(ks, ty, order);
    assert Gifts(rs, ty, order) == g[k := g[k] - size];
    SumUpdate(g, k, g[k] - size);
  }

  lemma NoDonor(ks: seq<Tree>, ty: Axis, order: seq<nat>)
    requires forall k :: 0 <= k < |order| ==> order[k] < |ks|
    requires FirstDonor(ks, ty, order, 0) == |order|
    ensures Available(ks, ty, order) == 0
  {
    SumBounds(Gifts(ks, ty, order));
  }

  lemma DonorHasIt(ks: seq<Tree>, ty: Axis, order: seq<nat>, k: nat)
    requires forall k :: 0 <= k < |order| ==> order[k] < |ks|
    requires k < |order|
    ensures Check(ks[order[k]], ty) <= Available(ks, ty, order)
  {
    SumBounds(Gifts(ks, ty, order));
    assert Gifts(ks, ty, order)[k] <= Sum(Gifts(ks, ty, order));
  }

  // Pulling takes all the space asked for, or all the donors have if that is
  // less; nothing is lost on the way, and no child outside the order changes.
  lemma {:induction false} PullSound(ks: seq<Tree>, ty: Axis, add: nat, order: seq<nat>, needed: nat)
    requires AllWellFormed(ks) && Orderly(|ks|, add, order)
    ensures var rs := Pull(ks, ty, add, order, needed);
            && AllKept(ks, rs, ty) && AllWellFormed(rs)
            && Sum(Sizes(rs, ty)) == Sum(Sizes(ks, ty))
            && Sum(Checks(rs, ty)) <= Sum(Checks(ks, ty))
            && Size(rs[add], ty) == Size(ks[add], ty) + Min(needed, Available(ks, ty, order))
            && forall j :: 0 <= j < |ks| && j != add ==>
                 Size(rs[j], ty) <= Size(ks[j], ty) && (j !in order ==> rs[j] == ks[j])
    decreases needed
  {
    hide WellFormed, Check, Adjust, Sum, Kept, Available, Orderly, FirstDonor, Transfer, Size;
    OrderlyRange(|ks|, add, order);
    var k := FirstDonor(ks, ty, order, 0);
    if needed == 0 || k == |order| {
      if k == |order| {
        NoDonor(ks, ty, order);
      }
      forall j | 0 <= j < |ks| ensures Kept(ks[j], ks[j], ty) {
        KeptRefl(ks[j], ty);
      }
    } else {
      var size := Min(Check(ks[order[k]], ty), needed);
      var ks' := Transfer(ks, ty, add, order[k], size);
      TransferSound(ks, ty, add, order[k], size);
      TransferAvailable(ks, ty, add, order, k, size);
      DonorHasIt(ks, ty, order, k);
      PullSound(ks', ty, add, order, needed - size);
      AllKeptTrans(ks, ks', Pull(ks, ty, add, order, needed), ty);
    }
  }

  lemma OrderlyRange(n: nat, add: nat, order: seq<nat>)
    requires Orderly(n, add, order)
    ensures add < n && forall k :: 0 <= k < |order| ==> order[k] < n && order[k] != add
  {
  }

  lemma AllKeptTrans(ks: seq<Tree>, rs: seq<Tree>, vs: seq<Tree>, ty: Axis)
    requires AllKept(ks, rs, ty) && AllKept(rs, vs, ty)
    ensures AllKept(ks, vs, ty)
  {
    hide Kept;
    forall j | 0 <= j < |ks| ensures Kept(ks[j], vs[j], ty) {
      KeptTrans(ks[j], rs[j], vs[j], ty);
    }
  }

  // A donor gives space that it has, and only when those before it in the order
  // have none left.
  ghost predicate InOrder(ks: seq<Tree>, rs: seq<Tree>, ty: Axis, order: seq<nat>)
    requires |rs| == |ks| && forall k :: 0 <= k < |order| ==> order[k] < |ks|
  {
    && (forall k :: 0 <= k < |order| ==> Gave(ks, rs, ty, order[k]))
    && forall k, l :: 0 <= l < k < |order| && Gives(ks, rs, ty, order[k]) > 0 ==> Check(rs[order[l]], ty) == 0
  }

  lemma {:induction false} PullInOrder(ks: seq<Tree>, ty: Axis, add: nat, order: seq<nat>, needed: nat)
    requires AllWellFormed(ks) && Orderly(|ks|, add, order)
    ensures var rs := Pull(ks, ty, add, order, needed); |rs| == |ks| && InOrder(ks, rs, ty, order)
    decreases needed
  {
    hide WellFormed, Shaped, Branching, Check, AllKept, Adjust, Sum, Available, Transfer, Size, InOrder;
    var k := FirstDonor(ks, ty, order, 0);
    if needed == 0 || k == |order| {
      OrderRefl(ks, ty, order);
    }
    if needed != 0 && k != |order| {
      var size := Min(Check(ks[order[k]], ty), needed);
      var ks' := Transfer(ks, ty, add, order[k], size);
      TransferSound(ks, ty, add, order[k], size);
      PullInOrder(ks', ty, add, order, needed - size);
      FirstGave(ks, ks', Pull(ks', ty, add, order, needed - size), ty, add, order, k, size, needed);
    }
  }

  lemma OrderRefl(ks: seq<Tree>, ty: Axis, order: seq<nat>)
    requires forall k :: 0 <= k < |order| ==> order[k] < |ks|
    ensures InOrder(ks, ks, ty, order)
  {
    hide Check;
  }

  lemma FirstGave(ks: seq<Tree>, ks': seq<Tree>, rs: seq<Tree>, ty: Axis, add: nat, order: seq<nat>, k: nat,
                  size: nat, needed: nat)
    requires Orderly(|ks|, add, order) && |rs| == |ks'| == |ks| && k < |order| && k == FirstDonor(ks, ty, order, 0)
    requires forall j :: 0 <= j < |ks| && j != add && j != order[k] ==> ks'[j] == ks[j]
    requires Size(ks'[order[k]], ty) == Size(ks[order[k]], ty) - size
    requires Check(ks'[order[k]], ty) == Check(ks[order[k]], ty) - size
    requires InOrder(ks', rs, ty, order)
    ensures InOrder(ks, rs, ty, order)
  {
    hide Check, Size;
    forall j | 0 <= j < |order|
      ensures Gave(ks, rs, ty, order[j])
      ensures Gives(ks, rs, ty, order[j]) == Gives(ks', rs, ty, order[j]) + if j == k then size as int else 0
    {
      assert Gave(ks', rs, ty, order[j]);
    }
  }

  // ------------------------------------------------------------------
  // layout_resize_pane

  // Growing child i: donors after it, nearest first, then those before it.
  function GrowOrder(n: nat, i: nat): (r: seq<nat>)
    requires i < n
    ensures |r| == n - 1
    ensures forall k :: 0 <= k < |r| ==> r[k] == if k < n - 1 - i then i + 1 + k else n - 2 - k
  {
    seq(n - 1, k requires 0 <= k < n - 1 => if k < n - 1 - i then i + 1 + k else n - 2 - k)
  }

  // Shrinking child i: itself, then the children before it.
  function ShrinkOrder(i: nat): (r: seq<nat>)
    ensures |r| == i + 1 && forall k :: 0 <= k < |r| ==> r[k] == i - k
  {
    seq(i + 1, k requires 0 <= k <= i => i - k)
  }

  // The child whose far border moves: child i, unless it is the last.
  function Border(n: nat, i: nat): nat
    requires i < n && n >= 2
  {
    if i == n - 1 then i - 1 else i
  }

  // The child that gains, and the order the others give in.
  function Gainer(n: nat, i: nat, change: int): nat
    requires i < n && n >= 2
  {
    if change > 0 then Border(n, i) else Border(n, i) + 1
  }

  function Donors(n: nat, i: nat, change: int): seq<nat>
    requires i < n && n >= 2
  {
    if change > 0 then GrowOrder(n, Border(n, i)) else ShrinkOrder(Border(n, i))
  }

  function Magnitude(change: int): nat {
    if change < 0 then -change else change
  }

  lemma DonorsOrderly(n: nat, i: nat, change: int)
    requires i < n && n >= 2
    ensures Orderly(n, Gainer(n, i, change), Donors(n, i, change))
  {
  }

  // The children of a container after the border of child i has moved.
  function MoveBorder(ks: seq<Tree>, ty: Axis, i: nat, change: int): seq<Tree>
    requires AllWellFormed(ks) && i < |ks| && |ks| >= 2
  {
    DonorsOrderly(|ks|, i, change);
    Pull(ks, ty, Gainer(|ks|, i, change), Donors(|ks|, i, change), Magnitude(change))
  }

  // The depth of the container a border at p moves in: the nearest one above
  // the pane that runs along ty.
  predicate HasBorder(t: Tree, p: Path, ty: Axis)
    requires ValidPath(t, p)
    decreases |p|
  {
    p != [] && (t.kind == ty || HasBorder(t.kids[p[0]], p[1..], ty))
  }

  function ResizeAt(t: Tree, p: Path, ty: Axis, change: int): Tree
    requires WellFormed(t) && ValidPath(t, p)
    decreases |p|
  {
    if !HasBorder(t, p, ty) then t
    else if HasBorder(t.kids[p[0]], p[1..], ty) then
      t.(kids := t.kids[p[0] := ResizeAt(t.kids[p[0]], p[1..], ty, change)])
    else t.(kids := MoveBorder(t.kids, ty, p[0], change))
  }

  // With no border to move the offsets are left alone as well.
  function ResizePane(t: Tree, p: Path, ty: Axis, change: int): Tree
    requires WellFormed(t) && ValidPath(t, p)
  {
    if HasBorder(t, p, ty) then FixOffsets(ResizeAt(t, p, ty, change)) else t
  }

  // What moving one border does to a container: it keeps its rectangle, and
  // the gaining child grows by all that was asked, or all there was to take.
  lemma MoveBorderSound(t: Tree, i: nat, change: int)
    requires WellFormed(t) && t.kind != WindowPane && i < |t.kids|
    ensures var ty, n := t.kind, |t.kids|;
            var g, rs := Gainer(n, i, change), MoveBorder(t.kids, ty, i, change);
            && Replaces(t, t.(kids := rs)) && AllKept(t.kids, rs, ty)
            && Orderly(n, g, Donors(n, i, change))
            && Size(rs[g], ty) == Size(t.kids[g], ty)
                 + Min(Magnitude(change), Available(t.kids, ty, Donors(n, i, change)))
            && forall j :: 0 <= j < n && j != g ==> Size(rs[j], ty) <= Size(t.kids[j], ty)
  {
    hide WellFormed, Check, Sum, Kept, Available, Orderly, Pull, Size;
    KidsWellFormed(t);
    var ty, n := t.kind, |t.kids|;
    DonorsOrderly(n, i, change);
    OrderlyRange(n, Gainer(n, i, change), Donors(n, i, change));
    PullSound(t.kids, ty, Gainer(n, i, change), Donors(n, i, change), Magnitude(change));
    KidsReplaced(t, MoveBorder(t.kids, ty, i, change));
  }

  // What moving the far border of child i means, or of the one before the last
  // for the last: growing moves it on, and takes from the children after it,
  // nearest first, then from those before; shrinking moves it back, and takes
  // from the child and those before it, nearest first, for the one after.
  ghost predicate BorderMoved(ks: seq<Tree>, rs: seq<Tree>, ty: Axis, i: nat, change: int)
    requires i < |ks| && 2 <= |ks|
  {
    var b := if i == |ks| - 1 then i - 1 else i;
    && |rs| == |ks| && (change == 0 ==> rs == ks)
    && (change > 0 ==>
          && Size(rs[b], ty) == Size(ks[b], ty) + Min(change, Sum(Checks(ks, ty)) - Check(ks[b], ty))
          && (forall j :: 0 <= j < |ks| && j != b ==> Gave(ks, rs, ty, j))
          && forall j, k ::
               (0 <= j < |ks| && 0 <= k < |ks| && (b < k < j || j < b < k || j < k < b) && Gives(ks, rs, ty, j) > 0) ==>
                 Check(rs[k], ty) == 0)
    && (change < 0 ==>
          && Size(rs[b + 1], ty) == Size(ks[b + 1], ty) + Min(-change, Sum(Checks(ks, ty)[..b + 1]))
          && (forall j :: 0 <= j <= b ==> Gave(ks, rs, ty, j))
          && (forall j, k :: 0 <= j < k <= b && Gives(ks, rs, ty, j) > 0 ==> Check(rs[k], ty) == 0)
          && forall j :: b + 1 < j < |ks| ==> rs[j] == ks[j])
  }

  function Backwards(s: seq<int>): (r: seq<int>)
    ensures |r| == |s| && forall k :: 0 <= k < |s| ==> r[k] == s[|s| - 1 - k]
  {
    seq(|s|, k requires 0 <= k < |s| => s[|s| - 1 - k])
  }

  lemma {:induction false} SumBackwards(s: seq<int>)
    ensures Sum(Backwards(s)) == Sum(s)
  {
    if s != [] {
      var r := s[..|s| - 1];
      assert Backwards(s) == [s[|s| - 1]] + Backwards(r);
      SumAppend([s[|s| - 1]], Backwards(r));
      SumBackwards(r);
      SumOne(s[|s| - 1]);
    }
  }

  lemma SumOne(x: int)
    ensures Sum([x]) == x
  {
    assert [x][..0] == [];
  }

  lemma GrowAvailable(ks: seq<Tree>, ty: Axis, b: nat)
    requires b < |ks|
    ensures Available(ks, ty, GrowOrder(|ks|, b)) == Sum(Checks(ks, ty)) - Check(ks[b], ty)
  {
    hide Check, Sum;
    var c := Checks(ks, ty);
    assert Gifts(ks, ty, GrowOrder(|ks|, b)) == c[b + 1..] + Backwards(c[..b]);
    SumAppend(c[b + 1..], Backwards(c[..b]));
    SumBackwards(c[..b]);
    assert c == c[..b] + ([c[b]] + c[b + 1..]);
    SumAppend(c[..b], [c[b]] + c[b + 1..]);
    SumAppend([c[b]], c[b + 1..]);
    SumOne(c[b]);
  }

  lemma ShrinkAvailable(ks: seq<Tree>, ty: Axis, b: nat)
    requires b < |ks|
    ensures Available(ks, ty, ShrinkOrder(b)) == Sum(Checks(ks, ty)[..b + 1])
  {
    hide Check, Sum;
    var c := Checks(ks, ty);
    assert Gifts(ks, ty, ShrinkOrder(b)) == Backwards(c[..b + 1]);
    SumBackwards(c[..b + 1]);
  }

  // Where each child comes in the order.
  lemma GrowPlaces(ks: seq<Tree>, rs: seq<Tree>, ty: Axis, b: nat)
    requires b < |ks| == |rs| && InOrder(ks, rs, ty, GrowOrder(|ks|, b))
    ensures forall j :: 0 <= j < |ks| && j != b ==> Gave(ks, rs, ty, j)
    ensures forall j, k ::
              (0 <= j < |ks| && 0 <= k < |ks| && (b < k < j || j < b < k || j < k < b) && Gives(ks, rs, ty, j) > 0) ==>
                Check(rs[k], ty) == 0
  {
    hide Check, Gives, Gave;
    var n, o := |ks|, GrowOrder(|ks|, b);
    forall j | 0 <= j < n && j != b ensures Gave(ks, rs, ty, j) {
      assert o[if j > b then j - b - 1 else n - 2 - j] == j;
    }
    forall j, k | 0 <= j < n && 0 <= k < n && (b < k < j || j < b < k || j < k < b) && Gives(ks, rs, ty, j) > 0
      ensures Check(rs[k], ty) == 0
    {
      assert o[if j > b then j - b - 1 else n - 2 - j] == j && o[if k > b then k - b - 1 else n - 2 - k] == k;
    }
  }

  lemma ShrinkPlaces(ks: seq<Tree>, rs: seq<Tree>, ty: Axis, b: nat)
    requires b < |ks| == |rs| && InOrder(ks, rs, ty, ShrinkOrder(b))
    ensures forall j :: 0 <= j <= b ==> Gave(ks, rs, ty, j)
    ensures forall j, k :: 0 <= j < k <= b && Gives(ks, rs, ty, j) > 0 ==> Check(rs[k], ty) == 0
  {
    hide Check, Gives, Gave;
    var o := ShrinkOrder(b);
    forall j, k | 0 <= j < k <= b && Gives(ks, rs, ty, j) > 0 ensures Check(rs[k], ty) == 0 {
      assert o[b - j] == j && o[b - k] == k;
    }
    forall j | 0 <= j <= b ensures Gave(ks, rs, ty, j) {
      assert o[b - j] == j;
    }
  }

  lemma BorderMoves(ks: seq<Tree>, ty: Axis, i: nat, change: int)
    requires AllWellFormed(ks) && i < |ks| && 2 <= |ks|
    ensures BorderMoved(ks, MoveBorder(ks, ty, i, change), ty, i, change)
  {
    hide WellFormed, Check, Sum, AllKept, Available, Orderly, Pull, Size, InOrder, GrowOrder, ShrinkOrder, Gives, Gave;
    var b, rs := Border(|ks|, i), MoveBorder(ks, ty, i, change);
    var g, order, m := Gainer(|ks|, i, change), Donors(|ks|, i, change), Magnitude(change);
    DonorsOrderly(|ks|, i, change);
    OrderlyRange(|ks|, g, order);
    PullSound(ks, ty, g, order, m);
    PullInOrder(ks, ty, g, order, m);
    if change > 0 {
      GrowAvailable(ks, ty, b);
      GrowPlaces(ks, rs, ty, b);
    } else {
      ShrinkAvailable(ks, ty, b);
      ShrinkPlaces(ks, rs, ty, b);
      OutsideShrink(b);
      PullNone(ks, ty, g, order);
    }
  }

  lemma OutsideShrink(b: nat)
    ensures forall j :: b < j ==> j !in ShrinkOrder(b)
  {
  }

  lemma PullNone(ks: seq<Tree>, ty: Axis, add: nat, order: seq<nat>)
    requires AllWellFormed(ks) && Orderly(|ks|, add, order)
    ensures Pull(ks, ty, add, order, 0) == ks
  {
  }

  lemma KidsReplaced(t: Tree, rs: seq<Tree>)
    requires WellFormed(t) && t.kind != WindowPane
    requires AllKept(t.kids, rs, t.kind) && AllWellFormed(rs)
    requires Sum(Sizes(rs, t.kind)) == Sum(Sizes(t.kids, t.kind))
    requires Sum(Checks(rs, t.kind)) <= Sum(Checks(t.kids, t.kind))
    ensures Replaces(t, t.(kids := rs))
  {
    hide Reshaped, Check, WellFormed, Kept, Sum;
    var ty, u := t.kind, t.(kids := rs);
    KidsWellFormed(t);
    KidsFill(t);
    forall j | 0 <= j < |rs|
      ensures Size(rs[j], Other(ty)) == Size(t.kids[j], Other(ty))
      ensures Check(rs[j], Other(ty)) == Check(t.kids[j], Other(ty))
    {
      KeptAcross(t.kids[j], rs[j], ty);
    }
    assert Fills(u);
    WellFormedIntro(u);
    CheckAlong(t, ty);
    CheckAlong(u, ty);
    CheckMonotone(t, u, Other(ty));
  }

  lemma KeptAcross(k: Tree, r: Tree, ty: Axis)
    requires Kept(k, r, ty)
    ensures Size(r, Other(ty)) == Size(k, Other(ty)) && Check(r, Other(ty)) == Check(k, Other(ty))
  {
  }

  lemma {:induction false} ResizeAtSound(t: Tree, p: Path, ty: Axis, change: int)
    requires WellFormed(t) && ValidPath(t, p)
    ensures Replaces(t, ResizeAt(t, p, ty, change)) && SameCorner(t, ResizeAt(t, p, ty, change))
    ensures Reshaped(t, ResizeAt(t, p, ty, change), ty)
    decreases |p|
  {
    hide WellFormed, Replaces, Reshaped;
    ReshapedRefl(t, ty);
    if !HasBorder(t, p, ty) {
      ReplacesRefl(t);
    } else {
      KidsWellFormed(t);
      if HasBorder(t.kids[p[0]], p[1..], ty) {
        ResizeAtSound(t.kids[p[0]], p[1..], ty, change);
        ReplaceKid(t, p[0], ResizeAt(t.kids[p[0]], p[1..], ty, change));
        ReshapedKid(t, p[0], ResizeAt(t.kids[p[0]], p[1..], ty, change), ty);
      } else {
        MoveBorderSound(t, p[0], change);
        KeptReshaped(t, MoveBorder(t.kids, ty, p[0], change));
      }
    }
  }

  ghost predicate RunsAlong(t: Tree, p: Path, ty: Axis, m: nat)
    requires ValidPath(t, p)
  {
    m < |p| && AtPrefix(t, p, m).kind == ty
  }

  // The container at depth d of the path runs along ty, and none below it does.
  ghost predicate Nearest(t: Tree, p: Path, ty: Axis, d: nat)
    requires ValidPath(t, p)
  {
    RunsAlong(t, p, ty, d) && forall m: nat :: d < m ==> !RunsAlong(t, p, ty, m)
  }

  lemma RunsBelow(t: Tree, p: Path, ty: Axis, m: nat)
    requires ValidPath(t, p) && p != []
    ensures RunsAlong(t, p, ty, m) <==> if m == 0 then t.kind == ty else RunsAlong(t.kids[p[0]], p[1..], ty, m - 1)
  {
  }

  lemma {:induction false} BorderIs(t: Tree, p: Path, ty: Axis)
    requires ValidPath(t, p)
    ensures HasBorder(t, p, ty) <==> exists m: nat :: RunsAlong(t, p, ty, m)
    decreases |p|
  {
    hide RunsAlong;
    if p != [] {
      BorderIs(t.kids[p[0]], p[1..], ty);
      RunsBelow(t, p, ty, 0);
      if m: nat :| RunsAlong(t.kids[p[0]], p[1..], ty, m) {
        RunsBelow(t, p, ty, m + 1);
      }
      if m: nat :| RunsAlong(t, p, ty, m) {
        RunsBelow(t, p, ty, m);
      }
    } else {
      NoneRun(t, ty);
    }
  }

  lemma NoneRun(t: Tree, ty: Axis)
    ensures forall m: nat :: !RunsAlong(t, [], ty, m)
  {
  }

  lemma NearestBelow(t: Tree, p: Path, ty: Axis, d: nat)
    requires ValidPath(t, p) && Nearest(t, p, ty, d)
    ensures d < |p| && HasBorder(t, p, ty)
    ensures d == 0 ==> t.kind == ty && !HasBorder(t.kids[p[0]], p[1..], ty)
    ensures d > 0 ==> HasBorder(t.kids[p[0]], p[1..], ty) && Nearest(t.kids[p[0]], p[1..], ty, d - 1)
  {
    hide HasBorder;
    BorderIs(t, p, ty);
    BorderIs(t.kids[p[0]], p[1..], ty);
    forall m: nat ensures RunsAlong(t.kids[p[0]], p[1..], ty, m) <==> RunsAlong(t, p, ty, m + 1) {
      RunsBelow(t, p, ty, m + 1);
    }
    RunsBelow(t, p, ty, d);
  }

  // The border that moves is one of the nearest container above the pane that
  // runs along ty, at depth d.
  lemma {:induction false} ResizeAtMoves(t: Tree, p: Path, ty: Axis, change: int, d: nat)
    requires WellFormed(t) && ValidPath(t, p) && Nearest(t, p, ty, d)
    ensures d < |p| && ValidPath(t, p[..d]) && ValidPath(ResizeAt(t, p, ty, change), p[..d])
    ensures var c, u := At(t, p[..d]), At(ResizeAt(t, p, ty, change), p[..d]);
            && p[d] < |c.kids| && 2 <= |c.kids| && u == c.(kids := u.kids)
            && BorderMoved(c.kids, u.kids, ty, p[d], change)
    decreases |p|
  {
    hide WellFormed, BorderMoved, MoveBorder, HasBorder, Nearest;
    KidsWellFormed(t);
    HasBorderIs(t, p, ty);
    NearestBelow(t, p, ty, d);
    if d == 0 {
      assert p[..0] == [];
      BorderMoves(t.kids, ty, p[0], change);
    } else {
      ResizeAtMoves(t.kids[p[0]], p[1..], ty, change, d - 1);
      assert p[..d][1..] == p[1..][..d - 1];
    }
  }

  lemma HasBorderIs(t: Tree, p: Path, ty: Axis)
    requires ValidPath(t, p)
    ensures HasBorder(t, p, ty) <==> p != [] && (t.kind == ty || HasBorder(t.kids[p[0]], p[1..], ty))
  {
  }

  // No other cell changes but those below that container; with no such
  // container, none does.
  lemma {:induction false} ResizeAtElsewhere(t: Tree, p: Path, ty: Axis, change: int, d: nat, r: Path)
    requires WellFormed(t) && ValidPath(t, p) && Nearest(t, p, ty, d) && d < |p|
    requires ValidPath(t, r) && !(p[..d] <= r)
    ensures var u := ResizeAt(t, p, ty, change);
            && ValidPath(u, r)
            && At(u, r) == if r <= p[..d] then At(t, r).(kids := At(u, r).kids) else At(t, r)
    decreases |p|
  {
    hide WellFormed, MoveBorder, HasBorder, Nearest;
    KidsWellFormed(t);
    HasBorderIs(t, p, ty);
    NearestBelow(t, p, ty, d);
    assert d > 0;
    assert p[..d] == [p[0]] + p[1..][..d - 1];
    if r != [] {
      assert r == [r[0]] + r[1..];
      if r[0] == p[0] {
        ResizeAtElsewhere(t.kids[p[0]], p[1..], ty, change, d - 1, r[1..]);
      }
    }
  }

  lemma ResizeAtNowhere(t: Tree, p: Path, ty: Axis, change: int)
    requires WellFormed(t) && ValidPath(t, p) && forall m: nat :: !RunsAlong(t, p, ty, m)
    ensures ResizePane(t, p, ty, change) == ResizeAt(t, p, ty, change) == t
  {
    BorderIs(t, p, ty);
  }

  lemma ReplacesRefl(t: Tree)
    requires WellFormed(t)
    ensures Replaces(t, t)
  {
  }

  lemma ReshapedKid(t: Tree, i: nat, k: Tree, ty: Axis)
    requires t.kind != WindowPane && i < |t.kids| && Reshaped(t.kids[i], k, ty)
    ensures Reshaped(t, t.(kids := t.kids[i := k]), ty)
  {
    forall j | 0 <= j < |t.kids| ensures Reshaped(t.kids[j], t.kids[i := k][j], ty) {
      ReshapedRefl(t.kids[j], ty);
    }
  }

  lemma KeptReshaped(t: Tree, rs: seq<Tree>)
    requires t.kind != WindowPane && AllKept(t.kids, rs, t.kind)
    ensures Reshaped(t, t.(kids := rs), t.kind)
  {
    assert forall j :: 0 <= j < |rs| ==> Kept(t.kids[j], rs[j], t.kind);
  }

  // ------------------------------------------------------------------
  // layout_resize

  // How far the layout follows a window that goes from size `from` to `to`.
  function Following(t: Tree, ty: Axis, from: int, to: int): int {
    var change, limit := to - from, Check(t, ty);
    var bounded := if change < 0 && change < -(limit as int) then -(limit as int) else change;
    if limit == 0 then (if to <= Size(t, ty) then 0 else to - Size(t, ty)) else bounded
  }

  function ResizeAxis(t: Tree, ty: Axis, from: int, to: int): Tree
    requires Shaped(t)
  {
    var change := Following(t, ty, from, to);
    if change != 0 then Adjust(t, ty, change) else t
  }

  function ResizeWindow(t: Tree, sx: int, sy: int, newsx: int, newsy: int): Tree
    requires Shaped(t)
  {
    ResizeAxisSound(t, LeftRight, sx, newsx);
    FixOffsets(ResizeAxis(ResizeAxis(t, LeftRight, sx, newsx), TopBottom, sy, newsy))
  }

  // The layout fits a window of this size: exactly, or else it is larger only
  // because nothing more can be taken from it.
  ghost predicate Fits(t: Tree, ty: Axis, size: int) {
    Size(t, ty) == size || (Size(t, ty) > size && Check(t, ty) == 0)
  }

  lemma ResizeAxisSound(t: Tree, ty: Axis, from: int, to: int)
    requires Shaped(t)
    ensures Stepped(t, ResizeAxis(t, ty, from, to), ty, Following(t, ty, from, to))
  {
    hide Shaped, WellFormed, Branching, Check, Reshaped, Adjust;
    if Following(t, ty, from, to) != 0 {
      AdjustCorrect(t, ty, Following(t, ty, from, to));
    } else {
      ReshapedRefl(t, ty);
    }
  }

  // A layout with nothing to give up only grows, to the size of the window; any
  // other changes as the window does, as far as it has space for that.
  lemma FollowAmount(t: Tree, ty: Axis, from: int, to: int)
    requires Shaped(t)
    ensures Size(ResizeAxis(t, ty, from, to), ty)
            == if Check(t, ty) == 0 then Max(Size(t, ty), to) else Size(t, ty) + Max(to - from, 0 - Check(t, ty))
  {
    hide Shaped, WellFormed, Branching, Check, Reshaped, Adjust;
    ResizeAxisSound(t, ty, from, to);
  }

  // Following keeps the fit; and a window grown past the layout is filled.
  lemma FollowFits(t: Tree, ty: Axis, from: int, to: int)
    requires Shaped(t) && Fits(t, ty, from)
    ensures Fits(ResizeAxis(t, ty, from, to), ty, to)
    ensures to >= Size(t, ty) ==> Size(ResizeAxis(t, ty, from, to), ty) == to
  {
    hide Shaped, WellFormed, Branching, Check, Reshaped, Adjust;
    ResizeAxisSound(t, ty, from, to);
  }

  // A window resize leaves a layout in place, well formed if it was, that fits
  // the new size in both directions if it fitted the old one.
  lemma ResizeWindowSound(t: Tree, sx: int, sy: int, newsx: int, newsy: int)
    requires Shaped(t)
    ensures var u := ResizeWindow(t, sx, sy, newsx, newsy);
            && Shaped(u) && (WellFormed(t) ==> WellFormed(u)) && Placed(u) && u.xoff == t.xoff && u.yoff == t.yoff
            && (Fits(t, LeftRight, sx) ==> Fits(u, LeftRight, newsx) && (newsx >= t.sx ==> u.sx == newsx))
            && (Fits(t, TopBottom, sy) ==> Fits(u, TopBottom, newsy) && (newsy >= t.sy ==> u.sy == newsy))
  {
    hide Shaped, WellFormed, Branching, Check, Reshaped, Adjust, Following, Placed;
    var a := ResizeAxis(t, LeftRight, sx, newsx);
    ResizeAxisSound(t, LeftRight, sx, newsx);
    SteppedFrame(t, a, LeftRight, Following(t, LeftRight, sx, newsx));
    var b := ResizeAxis(a, TopBottom, sy, newsy);
    ResizeAxisSound(a, TopBottom, sy, newsy);
    SteppedFrame(a, b, TopBottom, Following(a, TopBottom, sy, newsy));
    if Fits(t, LeftRight, sx) {
      FollowFits(t, LeftRight, sx, newsx);
    }
    if Fits(t, TopBottom, sy) {
      FollowFits(a, TopBottom, sy, newsy);
    }
    FixPlaces(b, b.xoff, b.yoff);
    FixKeeps(b);
  }

  lemma SteppedFrame(t: Tree, u: Tree, ty: Axis, d: int)
    requires Stepped(t, u, ty, d)
    ensures (Shaped(t) ==> Shaped(u)) && (WellFormed(t) ==> WellFormed(u)) && u.xoff == t.xoff && u.yoff == t.yoff
    ensures Size(u, Other(ty)) == Size(t, Other(ty)) && Check(u, Other(ty)) == Check(t, Other(ty))
  {
  }

  lemma FixKeeps(t: Tree)
    requires Shaped(t)
    ensures var u := FixOffsets(t);
            && Shaped(u) && (WellFormed(t) ==> WellFormed(u)) && Placed(u)
            && u.xoff == t.xoff && u.yoff == t.yoff && u.sx == t.sx && u.sy == t.sy
            && forall ty :: Check(u, ty) == Check(t, ty)
  {
    hide WellFormed, Shaped, Check, Placed;
    FixPlaces(t, t.xoff, t.yoff);
    DisplacedShaped(t, FixOffsets(t));
    if WellFormed(t) {
      DisplacedWellFormed(t, FixOffsets(t));
    }
    forall ty ensures Check(FixOffsets(t), ty) == Check(t, ty) {
      DisplacedCheck(t, FixOffsets(t), ty);
    }
  }
}
