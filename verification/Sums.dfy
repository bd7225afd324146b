// Sums and minima of finite sequences, shared by the layout and grid models.
module Sums {
  import opened Common

  function Sum(s: seq<int>): int {
    if s == [] then 0 else Sum(s[..|s| - 1]) + s[|s| - 1]
  }

  lemma SumPrefix(s: seq<int>, i: nat)
    requires i < |s|
    ensures Sum(s[..i + 1]) == Sum(s[..i]) + s[i]
  {
    assert s[..i + 1][..i] == s[..i];
  }

  lemma {:induction false} SumUpdate(s: seq<int>, i: nat, v: int)
    requires i < |s|
    ensures Sum(s[i := v]) == Sum(s) - s[i] + v
  {
    var n := |s| - 1;
    if i < n {
      assert s[i := v][..n] == s[..n][i := v];
      SumUpdate(s[..n], i, v);
    } else {
      assert s[i := v][..n] == s[..n];
    }
  }

  lemma {:induction false} SumBounds(s: seq<int>)
    requires forall i :: 0 <= i < |s| ==> s[i] >= 0
    ensures Sum(s) >= 0
    ensures forall i :: 0 <= i < |s| ==> s[i] <= Sum(s)
    ensures (exists i :: 0 <= i < |s| && s[i] > 0) <==> Sum(s) > 0
  {
    if s != [] {
      SumBounds(s[..|s| - 1]);
    }
  }

  lemma {:induction false} SumAppend(a: seq<int>, b: seq<int>)
    ensures Sum(a + b) == Sum(a) + Sum(b)
  {
    if b == [] {
      assert a + b == a;
    } else {
      assert (a + b)[..|a + b| - 1] == a + b[..|b| - 1];
      SumAppend(a, b[..|b| - 1]);
    }
  }

  // s with element i replaced by the run m.
  function Spliced<T>(s: seq<T>, i: nat, m: seq<T>): (r: seq<T>)
    requires i < |s|
    ensures |r| == |s| + |m| - 1
  {
    s[..i] + m + s[i + 1..]
  }

  lemma SplicedAt<T>(s: seq<T>, i: nat, m: seq<T>, j: nat)
    requires i < |s| && j < |s| + |m| - 1
    ensures Spliced(s, i, m)[j] == if j < i then s[j] else if j < i + |m| then m[j - i] else s[j + 1 - |m|]
  {
  }

  lemma SumSpliced(s: seq<int>, i: nat, m: seq<int>)
    requires i < |s|
    ensures Sum(Spliced(s, i, m)) == Sum(s) - s[i] + Sum(m)
  {
    SumAppend(s[..i] + m, s[i + 1..]);
    SumAppend(s[..i], m);
    assert s == s[..i + 1] + s[i + 1..];
    SumAppend(s[..i + 1], s[i + 1..]);
    assert s[..i + 1][..i] == s[..i];
  }

  lemma {:induction false} SumPointwise(a: seq<int>, b: seq<int>)
    requires |a| == |b| && forall i :: 0 <= i < |a| ==> a[i] <= b[i]
    ensures Sum(a) <= Sum(b)
  {
    if a != [] {
      SumPointwise(a[..|a| - 1], b[..|b| - 1]);
    }
  }

  // The minimum of a non-empty sequence; `top` stands in for an empty one.
  function MinOf(s: seq<int>, top: int): int {
    if s == [] then top
    else if |s| == 1 then s[0]
    else
      var m := MinOf(s[..|s| - 1], top);
      if s[|s| - 1] < m then s[|s| - 1] else m
  }

  lemma MinOfPrefix(s: seq<int>, i: nat, top: int)
    requires i < |s| && s[i] <= top
    ensures var m := MinOf(s[..i], top); MinOf(s[..i + 1], top) == if s[i] < m then s[i] else m
  {
    assert s[..i + 1][..i] == s[..i];
  }

  lemma {:induction false} MinOfIsLeast(s: seq<int>, top: int)
    requires s != []
    ensures forall i :: 0 <= i < |s| ==> MinOf(s, top) <= s[i]
    ensures MinOf(s, top) in s
  {
    if |s| > 1 {
      MinOfIsLeast(s[..|s| - 1], top);
    }
  }

  // The maximum of a sequence, or nothing.
  function MaxOf(s: seq<int>): int {
    if s == [] then 0 else Max(MaxOf(s[..|s| - 1]), s[|s| - 1])
  }

  lemma {:induction false} MaxOfIsLeast(s: seq<int>, top: int)
    requires forall i :: 0 <= i < |s| ==> s[i] <= top
    requires 0 <= top
    ensures MaxOf(s) <= top
    ensures forall i :: 0 <= i < |s| ==> s[i] <= MaxOf(s)
    ensures 0 <= MaxOf(s)
  {
    if s != [] {
      MaxOfIsLeast(s[..|s| - 1], top);
    }
  }
}
