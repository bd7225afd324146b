// A screen: a grid, the cursor and the scroll region.
module Screen {
  import opened Common
  import opened GridLines
  import opened Grid
  import opened GridView

  // ------------------------------------------------------------------
  // Resizing, on values

  // The history and the screen as one sequence, and the row the cursor is on.
  datatype Shot<T> = Shot(lines: seq<T>, hsize: nat, sy: nat, cy: nat)

  predicate Proper<T>(s: Shot<T>) {
    |s.lines| == s.hsize + s.sy && s.cy < s.sy
  }

  // Lines below the cursor are deleted, then lines from the top become
  // history, or are deleted where none is kept.
  function Shortened<T>(s: Shot<T>, history: bool, sy: nat): (r: Shot<T>)
    requires Proper(s) && 0 < sy < s.sy
    ensures Proper(r) && r.sy == sy
  {
    var below := Min(s.sy - 1 - s.cy, s.sy - sy);
    var above := s.sy - sy - below;
    if history then Shot(s.lines[..|s.lines| - below], s.hsize + above, sy, s.cy - above)
    else Shot(s.lines[..s.hsize] + s.lines[s.hsize + above..|s.lines| - below], s.hsize, sy, s.cy - above)
  }

  // Lines come back from the history, then blank ones are added.
  function Lengthened<T>(s: Shot<T>, blank: T, history: bool, sy: nat): (r: Shot<T>)
    requires Proper(s) && s.sy < sy
    ensures Proper(r) && r.sy == sy
  {
    var pulled := if history then Min(s.hsize, sy - s.sy) else 0;
    Shot(s.lines + Filled(sy - s.sy - pulled, blank), s.hsize - pulled, sy, s.cy + pulled)
  }

  function Resized<T>(s: Shot<T>, blank: T, history: bool, sy: nat): (r: Shot<T>)
    requires Proper(s) && 0 < sy
    ensures Proper(r) && r.sy == sy
  {
    if sy < s.sy then Shortened(s, history, sy)
    else if s.sy < sy then Lengthened(s, blank, history, sy)
    else s
  }

  // With history, any resizing keeps every line down to the cursor's, and the
  // cursor on its line; what goes is below it, what comes is blank. Lines join
  // the history only when none are left below the cursor, and blank ones come
  // only when no history is left.
  lemma ResizedKeeps<T>(s: Shot<T>, blank: T, sy: nat)
    requires Proper(s) && 0 < sy
    ensures var r := Resized(s, blank, true, sy);
            var line := s.hsize + s.cy;
            && r.hsize + r.cy == line && r.lines[..line + 1] == s.lines[..line + 1]
            && (sy <= s.sy ==> r.lines <= s.lines && s.hsize <= r.hsize && (s.hsize < r.hsize ==> r.cy == sy - 1))
            && (s.sy <= sy ==>
                  && s.lines <= r.lines && (forall k :: |s.lines| <= k < |r.lines| ==> r.lines[k] == blank)
                  && r.hsize <= s.hsize && (|s.lines| < |r.lines| ==> r.hsize == 0))
  {
  }

  // Without, the history stays as it is and so does the cursor's line; a screen
  // made shorter loses lines from the top only when none are left below the
  // cursor, and one made taller gets blank ones.
  lemma ResizedWithout<T>(s: Shot<T>, blank: T, sy: nat, k: nat)
    requires Proper(s) && 0 < sy && k < sy
    ensures var r := Resized(s, blank, false, sy);
            var above := s.cy - r.cy;
            && r.hsize == s.hsize && r.lines[..r.hsize] == s.lines[..s.hsize]
            && 0 <= above && (above > 0 ==> r.cy == sy - 1)
            && r.lines[r.hsize + k] == if k < s.sy then s.lines[s.hsize + above + k] else blank
  {
  }

  function ResizedAll<T>(s: Shot<T>, blank: T, history: bool, sizes: seq<nat>): (r: Shot<T>)
    requires Proper(s) && forall i :: 0 <= i < |sizes| ==> 0 < sizes[i]
    ensures Proper(r)
    decreases |sizes|
  {
    if sizes == [] then s else ResizedAll(Resized(s, blank, history, sizes[0]), blank, history, sizes[1..])
  }

  // So does any number of them.
  lemma {:induction false} ResizedAllKeeps<T>(s: Shot<T>, blank: T, sizes: seq<nat>)
    requires Proper(s) && forall i :: 0 <= i < |sizes| ==> 0 < sizes[i]
    ensures var r := ResizedAll(s, blank, true, sizes);
            var line := s.hsize + s.cy;
            r.hsize + r.cy == line && r.lines[..line + 1] == s.lines[..line + 1]
    decreases |sizes|
  {
    if sizes != [] {
      ResizedKeeps(s, blank, sizes[0]);
      ResizedAllKeeps(Resized(s, blank, true, sizes[0]), blank, sizes[1..]);
    }
  }

  // With the cursor in the last row, making the screen shorter and then as
  // tall as it was changes nothing.
  lemma ShortenedAndBack<T>(s: Shot<T>, blank: T, sy: nat)
    requires Proper(s) && 0 < sy < s.sy && s.cy == s.sy - 1
    ensures Resized(Resized(s, blank, true, sy), blank, true, s.sy) == s
  {
    var r := Shortened(s, true, sy);
    assert r.lines == s.lines;
  }

  // ny lines deleted at py, if any are to be.
  function Without<T>(ls: seq<T>, blank: T, py: nat, ny: nat): (r: seq<T>)
    requires py + ny <= |ls|
    ensures |r| == |ls|
  {
    if ny > 0 then Deleted(ls, blank, |ls| - 1, py, ny) else ls
  }

  // Taking lines off the end.
  lemma LastWithout<T>(ls: seq<T>, blank: T, hsize: nat, below: nat)
    requires hsize + below <= |ls|
    ensures var one := Without(ls, blank, |ls| - below, below);
            one[..|ls| - below] == ls[..|ls| - below] && forall k :: |ls| - below <= k < |ls| ==> one[k] == blank
  {
    hide Deleted, Without;
    WithoutTwice(ls, blank, hsize, 0, below);
    WithoutNone(Without(ls, blank, |ls| - below, below), blank, hsize);
    assert ls[..hsize] + ls[hsize..|ls| - below] == ls[..|ls| - below];
  }

  // Deleting lines and cutting off the end makes the screen shorter.
  lemma ShortenedBySteps<T>(s: Shot<T>, blank: T, history: bool, sy: nat)
    requires Proper(s) && 0 < sy < s.sy
    ensures var n, below := |s.lines|, Min(s.sy - 1 - s.cy, s.sy - sy);
            var above := s.sy - sy - below;
            var one := Without(s.lines, blank, n - below, below);
            var two := if history then one else Without(one, blank, s.hsize, above);
            var hsize := if history then s.hsize + above else s.hsize;
            && Shortened(s, history, sy) == Shot(two[..hsize + sy], hsize, sy, s.cy - above)
            && |two| == n && AllBlank(two, blank, hsize + sy)
  {
    hide Deleted, Without;
    var n, below := |s.lines|, Min(s.sy - 1 - s.cy, s.sy - sy);
    var above := s.sy - sy - below;
    if history {
      LastWithout(s.lines, blank, s.hsize, below);
    } else {
      WithoutTwice(s.lines, blank, s.hsize, above, below);
    }
  }

  lemma WithoutNone<T>(ls: seq<T>, blank: T, py: nat)
    requires py <= |ls|
    ensures Without(ls, blank, py, 0) == ls
  {
  }

  lemma WithoutTwice<T>(ls: seq<T>, blank: T, hsize: nat, above: nat, below: nat)
    requires hsize + above + below <= |ls|
    ensures var two := Without(Without(ls, blank, |ls| - below, below), blank, hsize, above);
            && two[..|ls| - above - below] == ls[..hsize] + ls[hsize + above..|ls| - below]
            && forall k :: |ls| - above - below <= k < |ls| ==> two[k] == blank
  {
    var one := Without(ls, blank, |ls| - below, below);
    var two := Without(one, blank, hsize, above);
    forall k | 0 <= k < |ls|
      ensures two[k] == if k < hsize then ls[k] else if k < |ls| - above - below then ls[k + above] else blank
    {
      WithoutAt(one, blank, hsize, above, k);
      WithoutAt(ls, blank, |ls| - below, below, if k < hsize || |ls| <= k + above then k else k + above);
    }
  }

  lemma WithoutAt<T>(ls: seq<T>, blank: T, py: nat, ny: nat, k: nat)
    requires py + ny <= |ls| && k < |ls|
    ensures Without(ls, blank, py, ny)[k]
            == if k < py then ls[k] else if k < |ls| - ny then ls[k + ny] else blank
  {
    hide Deleted;
    if ny > 0 {
      DeletedAt(ls, blank, |ls| - 1, py, ny, k);
    }
  }

  // ------------------------------------------------------------------
  // The screen

  class Screen {
    const grid: Grid
    var cx: nat
    var cy: nat
    var rupper: nat
    var rlower: nat
    var wrap: bool

    ghost predicate Valid()
      reads this, grid
    {
      && grid.Valid() && this !in grid.live
      && cx <= grid.sx && cy < grid.sy && rupper <= rlower < grid.sy
    }

    ghost function State(): (s: Shot<LineVal>)
      requires Valid()
      reads this, grid, grid.live
      ensures Proper(s)
    {
      Shot(grid.Lines(), grid.hsize, grid.sy, cy)
    }

    // screen_init
    constructor (sx: nat, sy: nat, hlimit: nat)
      requires 0 < sx < U32 && 0 < sy <= MAX_LINES
      ensures Valid() && fresh(grid) && fresh(grid.live)
      ensures State() == Shot(Filled(sy, EMPTY), 0, sy, 0) && cx == 0
      ensures grid.sx == sx && grid.hlimit == hlimit && grid.history
      ensures rupper == 0 && rlower == sy - 1 && wrap
    {
      grid := new Grid(sx, sy, hlimit);
      cx, cy, rupper, rlower, wrap := 0, 0, 0, sy - 1, true;
    }

    // screen_reinit
    method Reinit()
      requires Valid()
      modifies this, grid`linedata, grid`live
      ensures Valid() && cx == 0 && rupper == 0 && rlower == grid.sy - 1 && wrap
      ensures State() == old(State()).(lines := old(State()).lines[..grid.hsize] + Filled(grid.sy, EMPTY), cy := 0)
    {
      hide Owned, Buffers, Val, OkLine;
      cx, cy := 0, 0;
      rupper, rlower := 0, grid.sy - 1;
      wrap := true;
      grid.ClearLines(grid.hsize, grid.sy);
    }

    // screen_resize_x
    method ResizeX(sx: nat)
      requires Valid() && 0 < sx < U32
      modifies this`cx, grid`sx
      ensures Valid() && grid.sx == sx && State() == old(State())
      ensures cx == if old(cx) < sx then old(cx) else sx - 1
    {
      hide Owned, Buffers, Val, OkLine;
      if cx >= sx {
        cx := sx - 1;
      }
      grid.sx := sx;
    }

    // screen_resize_y
    method ResizeY(sy: nat)
      requires Valid() && 0 < sy && grid.hsize + sy <= MAX_LINES
      modifies this`cy, this`rupper, this`rlower
      modifies grid`linedata, grid`live, grid`hsize, grid`sy, grid.live
      ensures Valid() && rupper == 0 && rlower == sy - 1
      ensures State() == Resized(old(State()), EMPTY, grid.history, sy)
    {
      hide Owned, Buffers, Val, OkLine;
      if sy < grid.sy {
        Shorten(sy);
      } else {
        Lengthen(sy);
      }
      rupper := 0;
      rlower := sy - 1;
    }

    method Shorten(sy: nat)
      requires Valid() && 0 < sy < grid.sy
      modifies this`cy, grid`linedata, grid`live, grid`hsize, grid`sy, grid.live
      ensures grid.Valid() && this !in grid.live && cy < grid.sy
      ensures Shot(grid.Lines(), grid.hsize, grid.sy, cy) == Shortened(old(State()), grid.history, sy)
    {
      hide Owned, Buffers, Val, OkLine, Without, Shortened, AllBlank;
      ShortenedBySteps(State(), EMPTY, grid.history, sy);
      ShortenedBySteps(Shot(grid.Used(), grid.hsize, grid.sy, cy), BLANK, grid.history, sy);
      var needed := grid.sy - sy;
      // Lines below the cursor go first.
      var available := grid.sy - 1 - cy;
      if available > needed {
        available := needed;
      }
      DeleteSome(grid.sy - available, available);
      needed := needed - available;
      ShortenTop(sy, needed);
      cy := cy - needed;
    }

    // The history takes over the lines left, or they go from the top.
    method ShortenTop(sy: nat, needed: nat)
      requires grid.Valid() && this !in grid.live && 0 < sy && sy + needed <= grid.sy && needed <= cy
      requires var two := if grid.history then grid.Used() else Without(grid.Used(), BLANK, grid.hsize, needed);
               AllBlank(two, BLANK, grid.hsize + sy + if grid.history then needed else 0)
      modifies grid`linedata, grid`live, grid`hsize, grid`sy, grid.live
      ensures grid.Valid() && this !in grid.live && grid.sy == sy
      ensures grid.hsize == old(grid.hsize) + if grid.history then needed else 0
      ensures grid.Lines() == (if grid.history then old(grid.Lines())
                               else Without(old(grid.Lines()), EMPTY, grid.hsize, needed))[..grid.hsize + sy]
    {
      hide Owned, Buffers, Val, OkLine, Without, AllBlank;
      if grid.history {
        grid.Shrink(grid.hsize + needed, sy);
      } else {
        var available := if cy > needed then needed else cy;
        ghost var two := Without(grid.Used(), BLANK, grid.hsize, needed);
        DeleteSome(0, available);
        assert available == needed && grid.Used() == two && this !in grid.live;
        grid.Shrink(grid.hsize, sy);
      }
    }

    method DeleteSome(py: nat, ny: nat)
      requires grid.Valid() && this !in grid.live && py + ny <= grid.sy
      modifies grid`linedata, grid`live, grid.live
      ensures grid.Valid() && this !in grid.live && grid.live <= old(grid.live)
      ensures grid.Lines() == Without(old(grid.Lines()), EMPTY, grid.hsize + py, ny)
      ensures grid.Used() == Without(old(grid.Used()), BLANK, grid.hsize + py, ny)
    {
      hide Owned, Buffers, Val, OkLine, Deleted;
      if ny > 0 {
        DeleteLines(grid, py, ny);
      }
    }

    method Lengthen(sy: nat)
      requires Valid() && grid.sy <= sy && grid.hsize + sy <= MAX_LINES
      modifies this`cy, grid`linedata, grid`hsize, grid`sy
      ensures grid.Valid() && this !in grid.live && cy < grid.sy
      ensures Shot(grid.Lines(), grid.hsize, grid.sy, cy) == Resized(old(State()), EMPTY, grid.history, sy)
    {
      hide Owned, Buffers, Val, OkLine;
      var needed := sy - grid.sy;
      // History that there is comes back on to the screen.
      var available := grid.hsize;
      if grid.history && available > 0 && needed > 0 {
        if available > needed {
          available := needed;
        }
        cy := cy + available;
      } else {
        available := 0;
      }
      // Blank lines make up what is still missing.
      grid.Enlarge(grid.hsize - available, sy, grid.hsize + sy);
    }
  }
}
