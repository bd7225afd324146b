// Runs of scrolling: what the history holds after any number of them.
module GridHistory {
  import opened Common
  import opened GridLines
  import opened Grid
  import opened GridView

  // A region is scrolled up, or the screen is drawn on.
  datatype Step<T> = Scroll(upper: nat, lower: nat) | Draw(screen: seq<T>)

  predicate Legal<T>(sy: nat, s: Step<T>) {
    match s
    case Scroll(upper, lower) => upper <= lower < sy
    case Draw(screen) => |screen| == sy
  }

  predicate AllLegal<T>(sy: nat, steps: seq<Step<T>>) {
    forall i :: 0 <= i < |steps| ==> Legal(sy, steps[i])
  }

  predicate Sized<T>(v: View<T>, sy: nat) {
    |v.lines| == v.hsize + sy
  }

  function Apply<T>(v: View<T>, blank: T, hlimit: nat, sy: nat, s: Step<T>): (r: View<T>)
    requires 1 <= hlimit && Sized(v, sy) && Legal(sy, s)
    ensures Sized(r, sy)
  {
    match s
    case Scroll(upper, lower) => ScrolledUp(v, blank, hlimit, upper, lower)
    case Draw(screen) => View(v.lines[..v.hsize] + screen, v.hsize)
  }

  // The line that a step takes off the screen.
  function Off<T>(v: View<T>, sy: nat, s: Step<T>): seq<T>
    requires Sized(v, sy) && Legal(sy, s)
  {
    match s
    case Scroll(upper, _) => [v.lines[v.hsize + upper]]
    case Draw(_) => []
  }

  function Run<T>(v: View<T>, blank: T, hlimit: nat, sy: nat, steps: seq<Step<T>>): (r: View<T>)
    requires 1 <= hlimit && Sized(v, sy) && AllLegal(sy, steps)
    ensures Sized(r, sy)
    decreases |steps|
  {
    if steps == [] then v
    else var last := |steps| - 1;
         Apply(Run(v, blank, hlimit, sy, steps[..last]), blank, hlimit, sy, steps[last])
  }

  // All the lines that a run takes off the screen, in order.
  function RunOff<T>(v: View<T>, blank: T, hlimit: nat, sy: nat, steps: seq<Step<T>>): seq<T>
    requires 1 <= hlimit && Sized(v, sy) && AllLegal(sy, steps)
    decreases |steps|
  {
    if steps == [] then []
    else var last := |steps| - 1;
         RunOff(v, blank, hlimit, sy, steps[..last])
         + Off(Run(v, blank, hlimit, sy, steps[..last]), sy, steps[last])
  }

  predicate IsSuffix<T(==)>(s: seq<T>, of: seq<T>) {
    |s| <= |of| && s == of[|of| - |s|..]
  }

  function HistoryOf<T>(v: View<T>): seq<T>
    requires v.hsize <= |v.lines|
  {
    v.lines[..v.hsize]
  }

  // After any run the history is the most recent of the lines scrolled off,
  // after those it began with, in order; it is no longer than the limit, or
  // than it was to begin with, and at least a limit less a tenth of them are
  // kept.
  lemma {:induction false} HistoryIsRecent<T>(v: View<T>, blank: T, hlimit: nat, sy: nat, steps: seq<Step<T>>)
    requires 1 <= hlimit && Sized(v, sy) && AllLegal(sy, steps)
    ensures var off := HistoryOf(v) + RunOff(v, blank, hlimit, sy, steps);
            var r := Run(v, blank, hlimit, sy, steps);
            && IsSuffix(HistoryOf(r), off)
            && r.hsize <= Max(hlimit, v.hsize)
            && Min(|off|, hlimit - Max(1, hlimit / 10) + 1) <= r.hsize
    decreases |steps|
  {
    hide ScrolledUp, Tenth;
    TenthIs(hlimit);
    if steps != [] {
      var last := |steps| - 1;
      HistoryIsRecent(v, blank, hlimit, sy, steps[..last]);
      var before := Run(v, blank, hlimit, sy, steps[..last]);
      var off := HistoryOf(v) + RunOff(v, blank, hlimit, sy, steps[..last]);
      StepHistory(before, blank, hlimit, sy, steps[last], off);
      assert HistoryOf(v) + RunOff(v, blank, hlimit, sy, steps) == off + Off(before, sy, steps[last]);
    }
  }

  lemma StepHistory<T>(v: View<T>, blank: T, hlimit: nat, sy: nat, s: Step<T>, off: seq<T>)
    requires 1 <= hlimit && Sized(v, sy) && Legal(sy, s)
    requires IsSuffix(HistoryOf(v), off) && Min(|off|, hlimit - Tenth(hlimit) + 1) <= v.hsize
    ensures var r := Apply(v, blank, hlimit, sy, s);
            && IsSuffix(HistoryOf(r), off + Off(v, sy, s))
            && r.hsize <= Max(hlimit, v.hsize)
            && Min(|off + Off(v, sy, s)|, hlimit - Tenth(hlimit) + 1) <= r.hsize
  {
    hide ScrolledUp, Tenth, IsSuffix;
    TenthBounds(hlimit);
    if s.Scroll? {
      ScrolledUpHistory(v, blank, hlimit, s.upper, s.lower);
      SuffixGrows(HistoryOf(v), off, v.lines[v.hsize + s.upper], if v.hsize < hlimit then 0 else Tenth(hlimit));
    } else {
      assert off + [] == off;
    }
  }

  lemma TenthBounds(hlimit: nat)
    requires 1 <= hlimit
    ensures 1 <= Tenth(hlimit) <= hlimit
  {
  }

  lemma TenthIs(hlimit: nat)
    ensures Tenth(hlimit) == Max(1, hlimit / 10)
  {
  }

  lemma SuffixGrows<T>(h: seq<T>, off: seq<T>, x: T, dropped: nat)
    requires IsSuffix(h, off) && dropped <= |h|
    ensures IsSuffix(h[dropped..] + [x], off + [x])
  {
    assert h[dropped..] == off[|off| - |h| + dropped..];
  }

  // Scrolling adds the line to the history, less a tenth of the limit when it
  // has been reached.
  lemma ScrolledUpHistory<T>(v: View<T>, blank: T, hlimit: nat, upper: nat, lower: nat)
    requires 1 <= hlimit && upper <= lower && v.hsize + lower < |v.lines|
    ensures var r := ScrolledUp(v, blank, hlimit, upper, lower);
            var dropped := if v.hsize < hlimit then 0 else Tenth(hlimit);
            r.hsize == v.hsize - dropped + 1
            && HistoryOf(r) == HistoryOf(v)[dropped..] + [v.lines[v.hsize + upper]]
  {
    var r := ScrolledUp(v, blank, hlimit, upper, lower);
    var dropped := if v.hsize < hlimit then 0 else Tenth(hlimit);
    var want := HistoryOf(v)[dropped..] + [v.lines[v.hsize + upper]];
    assert forall k :: 0 <= k < r.hsize ==> HistoryOf(r)[k] == want[k];
  }

  // On the screen the lines of the region go up one and a blank one follows.
  lemma ScrolledUpScreen<T>(v: View<T>, blank: T, hlimit: nat, upper: nat, lower: nat, k: nat)
    requires 1 <= hlimit && upper <= lower && v.hsize + lower < |v.lines| && v.hsize + k < |v.lines|
    ensures var r := ScrolledUp(v, blank, hlimit, upper, lower);
            r.lines[r.hsize + k] == if upper <= k < lower then v.lines[v.hsize + k + 1]
                                    else if k == lower then blank else v.lines[v.hsize + k]
  {
    hide IntoHistory, Collected;
    var c := Collected(v, hlimit);
    CollectedScreen(v, hlimit, k);
    IntoHistoryAt(c.lines, blank, c.hsize, upper, lower, k);
    if upper <= k < lower {
      CollectedScreen(v, hlimit, k + 1);
    }
  }

  lemma CollectedScreen<T>(v: View<T>, hlimit: nat, k: nat)
    requires 1 <= hlimit && v.hsize + k < |v.lines|
    ensures var c := Collected(v, hlimit);
            && |c.lines| - c.hsize == |v.lines| - v.hsize && c.hsize <= |c.lines|
            && c.lines[c.hsize + k] == v.lines[v.hsize + k]
  {
  }

  lemma IntoHistoryAt<T>(ls: seq<T>, blank: T, hsize: nat, upper: nat, lower: nat, k: nat)
    requires upper <= lower && hsize + lower < |ls| && hsize + k < |ls|
    ensures IntoHistory(ls, blank, hsize, hsize + upper, hsize + lower)[hsize + 1 + k]
            == if upper <= k < lower then ls[hsize + k + 1] else if k == lower then blank else ls[hsize + k]
  {
  }

  // A full-screen scroll of a history not yet full loses nothing.
  lemma NothingLost<T>(v: View<T>, blank: T, hlimit: nat, sy: nat)
    requires 1 <= hlimit && Sized(v, sy) && 1 <= sy && v.hsize < hlimit
    ensures ScrolledUp(v, blank, hlimit, 0, sy - 1).lines == v.lines + [blank]
  {
    FullScreenPath(v.lines, blank, v.hsize);
  }
}
