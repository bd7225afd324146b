// Writing characters to a screen.
module ScreenWrite {
  import opened Common
  import opened GridLines
  import opened Grid
  import opened GridView
  import GridHistory
  import opened Screen
  import opened Padding

  // Nothing has changed but one line.
  ghost predicate OneLine(before: seq<LineVal>, after: seq<LineVal>, y: nat) {
    y < |before| && |after| == |before| && after == before[y := after[y]]
  }

  // A cell set.
  method Celled(gd: Grid, px: nat, y: nat, gc: GridCell)
    requires gd.Valid() && y < gd.hsize + gd.sy
    modifies gd`linedata, gd`live, gd.live
    ensures gd.Valid() && fresh(gd.live - old(gd.live))
    ensures OneLine(old(gd.Lines()), gd.Lines(), y)
    ensures gd.Lines()[y].utf8 == old(gd.Lines())[y].utf8 && gd.Lines()[y].wrapped == old(gd.Lines())[y].wrapped
    ensures forall x: nat :: Peek(gd.Lines()[y], x) == if x == px then gc else Peek(old(gd.Lines())[y], x)
  {
    hide Owned, Buffers, Val, OkLine, Put;
    gd.SetCell(px, y, gc);
    forall x: nat ensures Peek(gd.Lines()[y], x) == if x == px then gc else Peek(old(gd.Lines())[y], x) {
      PutPeek(old(gd.Lines())[y], px, gc, x);
    }
    PutPeek(old(gd.Lines())[y], px, gc, 0);
  }

  // The first loop of screen_write_overwrite: clear the padding back from px,
  // and the character it belongs to.
  method ClearBack(gd: Grid, px: nat, y: nat)
    requires gd.Valid() && y < gd.hsize + gd.sy
    modifies gd`linedata, gd`live, gd.live
    ensures gd.Valid() && fresh(gd.live - old(gd.live))
    ensures OneLine(old(gd.Lines()), gd.Lines(), y) && ClearedBack(old(gd.Lines())[y], gd.Lines()[y], px)
  {
    hide Owned, Buffers, Val, OkLine, Put;
    ghost var v := gd.Lines()[y];
    var xx := px;
    while xx > 0
      invariant 0 <= xx <= px && gd.Valid() && fresh(gd.live - old(gd.live))
      invariant OneLine(old(gd.Lines()), gd.Lines(), y)
      invariant gd.Lines()[y].utf8 == v.utf8 && gd.Lines()[y].wrapped == v.wrapped
      invariant forall i :: xx < i <= px ==> Pad(v, i)
      invariant forall x: nat :: Peek(gd.Lines()[y], x) == if xx < x <= px then DEFAULT else Peek(v, x)
    {
      var gc := gd.PeekCell(xx, y);
      if Flag.Padding !in gc.flags {
        break;
      }
      Celled(gd, xx, y, DEFAULT);
      xx := xx - 1;
    }
    HeadIs(v, xx, px);
    Celled(gd, xx, y, DEFAULT);
  }

  // The second loop of screen_write_overwrite: clear the padding from a column on.
  method ClearOn(gd: Grid, from: nat, y: nat)
    requires gd.Valid() && y < gd.hsize + gd.sy && from <= gd.sx
    modifies gd`linedata, gd`live, gd.live
    ensures gd.Valid() && fresh(gd.live - old(gd.live))
    ensures OneLine(old(gd.Lines()), gd.Lines(), y) && ClearedOn(old(gd.Lines())[y], gd.Lines()[y], gd.sx, from)
  {
    hide Owned, Buffers, Val, OkLine, Put;
    ghost var v := gd.Lines()[y];
    var xx := from;
    while xx < gd.sx
      invariant from <= xx <= gd.sx && gd.Valid() && fresh(gd.live - old(gd.live))
      invariant OneLine(old(gd.Lines()), gd.Lines(), y)
      invariant gd.Lines()[y].utf8 == v.utf8 && gd.Lines()[y].wrapped == v.wrapped
      invariant forall i :: from <= i < xx ==> Pad(v, i)
      invariant forall x: nat :: Peek(gd.Lines()[y], x) == if from <= x < xx then DEFAULT else Peek(v, x)
    {
      var gc := gd.PeekCell(xx, y);
      if Flag.Padding !in gc.flags {
        break;
      }
      Celled(gd, xx, y, DEFAULT);
      xx := xx + 1;
    }
    PadEndIs(v, gd.sx, from, xx);
  }

  // screen_write_overwrite
  method Overwrite(gd: Grid, cx: nat, y: nat, width: nat)
    requires gd.Valid() && y < gd.hsize + gd.sy && 1 <= width && cx + width <= gd.sx
    modifies gd`linedata, gd`live, gd.live
    ensures gd.Valid() && fresh(gd.live - old(gd.live))
    ensures OneLine(old(gd.Lines()), gd.Lines(), y)
    ensures Overwritten(old(gd.Lines())[y], gd.Lines()[y], gd.sx, cx, width)
  {
    hide Owned, Buffers, Val, OkLine, Overwritten, ClearedBack, ClearedOn;
    var gc := gd.PeekCell(cx, y);
    if Flag.Padding in gc.flags {
      ClearBack(gd, cx, y);
    }

    ghost var u := gd.Lines()[y];
    ClearOn(gd, cx + width, y);
    BothCleared(old(gd.Lines())[y], u, gd.Lines()[y], gd.sx, cx, width);
  }

  // The part of screen_write_cell that puts a character in its place.
  method PutCharacter(gd: Grid, cx: nat, y: nat, width: nat, gc: GridCell, gu: GridUtf8)
    requires gd.Valid() && y < gd.hsize + gd.sy && 1 <= width
    modifies gd`linedata, gd`live, gd.live
    ensures gd.Valid() && fresh(gd.live - old(gd.live))
    ensures OneLine(old(gd.Lines()), gd.Lines(), y)
    ensures CharacterPut(old(gd.Lines())[y], gd.Lines()[y], cx, width, gc, gu)
  {
    hide Owned, Buffers, Val, OkLine, Put, CharPut, Peek;
    ghost var v := gd.Lines()[y];
    var xx := cx + 1;
    while xx < cx + width
      invariant cx + 1 <= xx <= cx + width && gd.Valid() && fresh(gd.live - old(gd.live))
      invariant OneLine(old(gd.Lines()), gd.Lines(), y) && gd.Lines()[y].utf8 == v.utf8
      invariant forall x: nat :: Peek(gd.Lines()[y], x)
                                 == if cx < x < xx then Peek(v, x).(flags := Peek(v, x).flags + {Flag.Padding})
                                    else Peek(v, x)
    {
      var tmp := gd.PeekCell(xx, y);
      Celled(gd, xx, y, tmp.(flags := tmp.flags + {Flag.Padding}));
      xx := xx + 1;
    }
    Celled(gd, cx, y, gc);
    if Utf8 in gc.flags {
      ghost var u := gd.Lines()[y];
      gd.SetUtf8(cx, y, gu);
      CharPutSame(u, gd.Lines()[y], cx, gu);
    }
  }

  // ------------------------------------------------------------------
  // Combining

  // screen_write_combine: false where there is nothing to combine with.
  method Combine(gd: Grid, cx: nat, y: nat, gu: GridUtf8) returns (ok: bool)
    requires gd.Valid() && y < gd.hsize + gd.sy && Slots(gd.Lines()[y])
    modifies gd`linedata, gd`live, gd.live
    ensures gd.Valid() && fresh(gd.live - old(gd.live))
    ensures ok == (cx != 0) && (!ok ==> gd.Lines() == old(gd.Lines()))
    ensures ok ==> OneLine(old(gd.Lines()), gd.Lines(), y)
                   && ColumnSet(old(gd.Lines())[y], gd.Lines()[y], cx - 1, Joined(Look(old(gd.Lines())[y], cx - 1), gu))
  {
    hide Owned, Buffers, Val, OkLine, Put, CharPut, ColumnSet;
    if cx == 0 {
      return false;
    }

    ghost var v := gd.Lines()[y];
    LookPeek(v, cx - 1);
    var gc := gd.PeekCell(cx - 1, y);
    if Utf8 !in gc.flags {
      JoinedAgain(gc, gu);
      gc := gc.(flags := gc.flags + {Utf8});
      Marked(gd, cx - 1, y, GridUtf8(1, [gc.data]), gc);
      ghost var u := gd.Lines()[y];
      ColumnSetLook(v, u, cx - 1, Multi(gc, GridUtf8(1, [gc.data])));
      Append(gd, cx - 1, y, gc, gu);
      ColumnSetTwice(v, u, gd.Lines()[y], cx - 1, Multi(gc, GridUtf8(1, [gc.data])), Joined(Look(v, cx - 1), gu));
    } else {
      Append(gd, cx - 1, y, gc, gu);
    }
    return true;
  }

  // Append a character to the one at px, or scrap it where there is no room.
  method Append(gd: Grid, px: nat, y: nat, gc: GridCell, gu: GridUtf8)
    requires gd.Valid() && y < gd.hsize + gd.sy && Utf8 in gc.flags
    requires Look(gd.Lines()[y], px).Multi? && Look(gd.Lines()[y], px).cell == gc
    modifies gd`linedata, gd`live, gd.live
    ensures gd.Valid() && fresh(gd.live - old(gd.live))
    ensures OneLine(old(gd.Lines()), gd.Lines(), y)
    ensures ColumnSet(old(gd.Lines())[y], gd.Lines()[y], px, Joined(Look(old(gd.Lines())[y], px), gu))
  {
    hide Owned, Buffers, Val, OkLine, Put, CharPut;
    ghost var v := gd.Lines()[y];
    var before := gd.CharAt(px, y);
    if |before.data| + |gu.data| <= UTF8_SIZE {
      Marked(gd, px, y, GridUtf8(before.width, before.data + gu.data), gc);
    } else if before.width == 1 {
      Celled(gd, px, y, gc.(data := UNDERSCORE, flags := gc.flags - {Utf8}));
      LookPeek(gd.Lines()[y], px);
    } else {
      var n := if before.width <= UTF8_SIZE then before.width else UTF8_SIZE;
      Marked(gd, px, y, GridUtf8(n, Filled(n, UNDERSCORE)), gc);
    }
  }

  // A cell set with a character kept apart.
  method Marked(gd: Grid, px: nat, y: nat, gu: GridUtf8, gc: GridCell)
    requires gd.Valid() && y < gd.hsize + gd.sy && Utf8 in gc.flags
    modifies gd`linedata, gd`live, gd.live
    ensures gd.Valid() && fresh(gd.live - old(gd.live))
    ensures OneLine(old(gd.Lines()), gd.Lines(), y)
    ensures ColumnSet(old(gd.Lines())[y], gd.Lines()[y], px, Multi(gc, gu))
  {
    hide Owned, Buffers, Val, OkLine, Put, CharPut, Peek;
    gd.SetUtf8(px, y, gu);
    CharPutSame(old(gd.Lines())[y], gd.Lines()[y], px, gu);
    Celled(gd, px, y, gc);
    LookPeek(gd.Lines()[y], px);
  }

  lemma ColumnSetLook(v: LineVal, w: LineVal, x: nat, shown: Seen)
    requires ColumnSet(v, w, x, shown)
    ensures Look(w, x) == shown
  {
  }

  lemma LookPeek(v: LineVal, x: nat)
    ensures Look(v, x) == if Utf8 in Peek(v, x).flags && x < |v.utf8| then Multi(Peek(v, x), v.utf8[x])
                          else Single(Peek(v, x))
  {
  }

  // ------------------------------------------------------------------
  // Line feeds

  // The cursor in the next row, or the region scrolled up below it.
  function NextRow(v: View<LineVal>, cy: nat, upper: nat, lower: nat, hlimit: nat, history: bool)
    : (r: (View<LineVal>, nat))
    requires v.hsize <= |v.lines| && upper <= lower && v.hsize + lower < |v.lines| && v.hsize + cy < |v.lines|
    requires history ==> 1 <= hlimit
    ensures |r.0.lines| - r.0.hsize == |v.lines| - v.hsize && r.0.hsize + r.1 < |r.0.lines|
  {
    if cy != lower then (v, if v.hsize + cy + 1 < |v.lines| then cy + 1 else cy)
    else if history then (ScrolledUp(v, EMPTY, hlimit, upper, lower), cy)
    else if upper == lower then (v, cy)
    else (View(Deleted(v.lines, EMPTY, v.hsize + lower, v.hsize + upper, 1), v.hsize), cy)
  }

  function LineMarked(v: View<LineVal>, cy: nat, wrapped: bool): View<LineVal>
    requires v.hsize + cy < |v.lines|
  {
    var y := v.hsize + cy;
    View(v.lines[y := v.lines[y].(wrapped := wrapped)], v.hsize)
  }

  // The lines after a line feed, and the row the cursor goes to: the line is
  // marked first.
  function Fed(v: View<LineVal>, cy: nat, upper: nat, lower: nat, hlimit: nat, history: bool, wrapped: bool)
    : (r: (View<LineVal>, nat))
    requires v.hsize <= |v.lines| && upper <= lower && v.hsize + lower < |v.lines| && v.hsize + cy < |v.lines|
    requires history ==> 1 <= hlimit
    ensures |r.0.lines| - r.0.hsize == |v.lines| - v.hsize && r.0.hsize + r.1 < |r.0.lines|
  {
    NextRow(LineMarked(v, cy, wrapped), cy, upper, lower, hlimit, history)
  }

  ghost function Row(v: View<LineVal>, k: nat): LineVal
    requires v.hsize + k < |v.lines|
  {
    v.lines[v.hsize + k]
  }

  // Row k of the screen where a region has gone up one.
  ghost function RaisedRow(v: View<LineVal>, upper: nat, lower: nat, k: nat): LineVal
    requires v.hsize + k < |v.lines| && v.hsize + lower < |v.lines|
  {
    if upper <= k < lower then Row(v, k + 1) else if k == lower then EMPTY else Row(v, k)
  }

  // A region goes up one line, the top one of it to the history, if one is kept.
  // Without, a region of one row stays as it is.
  ghost predicate Raised(v: View<LineVal>, upper: nat, lower: nat, history: bool, w: View<LineVal>)
    requires v.hsize <= |v.lines| && upper <= lower && v.hsize + lower < |v.lines|
  {
    && w.hsize <= |w.lines| && |w.lines| - w.hsize == |v.lines| - v.hsize
    && (forall k: nat :: v.hsize + k < |v.lines| ==>
          Row(w, k) == if history || upper < lower then RaisedRow(v, upper, lower, k) else Row(v, k))
    && if history then
         && 0 < w.hsize <= v.hsize + 1 && w.lines[w.hsize - 1] == Row(v, upper)
         && w.lines[..w.hsize - 1] == v.lines[v.hsize - w.hsize + 1..v.hsize]
       else w.hsize == v.hsize && w.lines[..w.hsize] == v.lines[..v.hsize]
  }

  // What a line feed means. Its line is marked; at the bottom of the region that
  // goes up, and elsewhere the cursor goes down one unless it is in the last row.
  ghost predicate LineFed(v: View<LineVal>, cy: nat, upper: nat, lower: nat, history: bool, wrapped: bool,
                          w: View<LineVal>, row: nat)
    requires v.hsize <= |v.lines| && upper <= lower && v.hsize + lower < |v.lines| && v.hsize + cy < |v.lines|
  {
    var m := View(v.lines[v.hsize + cy := Row(v, cy).(wrapped := wrapped)], v.hsize);
    if cy == lower then Raised(m, upper, lower, history, w) && row == cy
    else w == m && row == if v.hsize + cy + 1 < |v.lines| then cy + 1 else cy
  }

  // The top line goes to the history.
  lemma ScrolledRows(v: View<LineVal>, hlimit: nat, upper: nat, lower: nat)
    requires 1 <= hlimit && upper <= lower && v.hsize + lower < |v.lines|
    ensures var w := ScrolledUp(v, EMPTY, hlimit, upper, lower);
            Raised(v, upper, lower, true, w)
  {
    hide ScrolledUp;
    var w := ScrolledUp(v, EMPTY, hlimit, upper, lower);
    forall k: nat | v.hsize + k < |v.lines| ensures Row(w, k) == RaisedRow(v, upper, lower, k) {
      GridHistory.ScrolledUpScreen(v, EMPTY, hlimit, upper, lower, k);
    }
    GridHistory.ScrolledUpHistory(v, EMPTY, hlimit, upper, lower);
    var dropped := if v.hsize < hlimit then 0 else Tenth(hlimit);
    var h := w.lines[..w.hsize];
    assert h == v.lines[..v.hsize][dropped..] + [Row(v, upper)];
    assert w.lines[..w.hsize - 1] == h[..w.hsize - 1] && v.lines[..v.hsize][dropped..] == v.lines[dropped..v.hsize];
    assert w.lines[w.hsize - 1] == h[w.hsize - 1];
  }

  // Or is lost.
  lemma DeletedRows(v: View<LineVal>, upper: nat, lower: nat)
    requires upper < lower && v.hsize + lower < |v.lines|
    ensures var w := View(Deleted(v.lines, EMPTY, v.hsize + lower, v.hsize + upper, 1), v.hsize);
            Raised(v, upper, lower, false, w)
  {
    hide Deleted;
    var w := View(Deleted(v.lines, EMPTY, v.hsize + lower, v.hsize + upper, 1), v.hsize);
    forall k: nat | v.hsize + k < |v.lines| ensures Row(w, k) == RaisedRow(v, upper, lower, k) {
      DeletedAt(v.lines, EMPTY, v.hsize + lower, v.hsize + upper, 1, v.hsize + k);
    }
    forall k | 0 <= k < v.hsize ensures w.lines[k] == v.lines[k] {
      DeletedAt(v.lines, EMPTY, v.hsize + lower, v.hsize + upper, 1, k);
    }
  }

  lemma FedIs(v: View<LineVal>, cy: nat, upper: nat, lower: nat, hlimit: nat, history: bool, wrapped: bool)
    requires v.hsize <= |v.lines| && upper <= lower && v.hsize + lower < |v.lines| && v.hsize + cy < |v.lines|
    requires history ==> 1 <= hlimit
    ensures var (w, row) := Fed(v, cy, upper, lower, hlimit, history, wrapped);
            LineFed(v, cy, upper, lower, history, wrapped, w, row)
  {
    hide Deleted, ScrolledUp;
    if cy == lower {
      var m := LineMarked(v, cy, wrapped);
      if history {
        ScrolledRows(m, hlimit, upper, lower);
      } else if upper < lower {
        DeletedRows(m, upper, lower);
      }
    }
  }

  // The row that the cursor is left in by a line feed at the bottom is empty but
  // where a region of one row is scrolled with no history, which does nothing.
  lemma FedBlanksExactly(v: View<LineVal>, upper: nat, lower: nat, hlimit: nat, history: bool, wrapped: bool)
    requires v.hsize <= |v.lines| && upper <= lower && v.hsize + lower < |v.lines| && (history ==> 1 <= hlimit)
    ensures var (w, row) := Fed(v, lower, upper, lower, hlimit, history, wrapped);
            row == lower
            && (Row(w, row) == EMPTY <==> history || upper < lower || Row(v, lower).(wrapped := wrapped) == EMPTY)
  {
    hide Fed;
    FedIs(v, lower, upper, lower, hlimit, history, wrapped);
  }

  lemma FedMayNotBlank(cell: GridCell, hlimit: nat)
    ensures var v := View([LineVal([cell], [], false)], 0); Fed(v, 0, 0, 0, hlimit, false, false) == (v, 0)
  {
    var v := View([LineVal([cell], [], false)], 0);
    assert LineMarked(v, 0, false).lines == v.lines;
  }

  lemma FedOk(v: View<LineVal>, cy: nat, upper: nat, lower: nat, hlimit: nat, history: bool, wrapped: bool, sx: nat)
    requires v.hsize <= |v.lines| && upper <= lower && v.hsize + lower < |v.lines| && v.hsize + cy < |v.lines|
    requires (history ==> 1 <= hlimit) && RowsOk(v.lines, sx)
    ensures RowsOk(Fed(v, cy, upper, lower, hlimit, history, wrapped).0.lines, sx)
  {
    hide RowOk, Deleted, ScrolledUp, RowsOk;
    var y := v.hsize + cy;
    var ls := v.lines[y := v.lines[y].(wrapped := wrapped)];
    MarkedRowsOk(v.lines, y, wrapped, sx);
    if cy == lower {
      if history {
        ScrolledOk(View(ls, v.hsize), hlimit, upper, lower, sx);
      } else if upper < lower {
        DeletedOk(ls, v.hsize + lower, v.hsize + upper, sx);
      }
    }
  }

  lemma FedSize(v: View<LineVal>, cy: nat, upper: nat, lower: nat, hlimit: nat, history: bool, wrapped: bool)
    requires v.hsize <= |v.lines| && upper <= lower && v.hsize + lower < |v.lines| && v.hsize + cy < |v.lines|
    requires history ==> 1 <= hlimit
    ensures Fed(v, cy, upper, lower, hlimit, history, wrapped).0.hsize <= if v.hsize < hlimit then hlimit else v.hsize
  {
  }

  lemma MarkedRowsOk(ls: seq<LineVal>, y: nat, wrapped: bool, sx: nat)
    requires RowsOk(ls, sx) && y < |ls|
    ensures RowsOk(ls[y := ls[y].(wrapped := wrapped)], sx)
  {
    hide RowOk;
    MarkedOk(ls[y], sx, wrapped);
  }

  lemma ScrolledOk(v: View<LineVal>, hlimit: nat, upper: nat, lower: nat, sx: nat)
    requires 1 <= hlimit && upper <= lower && v.hsize + lower < |v.lines| && RowsOk(v.lines, sx)
    ensures RowsOk(ScrolledUp(v, EMPTY, hlimit, upper, lower).lines, sx)
  {
    hide RowOk;
    EmptyRow(sx);
  }

  lemma DeletedOk(ls: seq<LineVal>, lower: nat, upper: nat, sx: nat)
    requires upper < lower < |ls| && RowsOk(ls, sx)
    ensures RowsOk(Deleted(ls, EMPTY, lower, upper, 1), sx)
  {
    hide RowOk, Deleted;
    EmptyRow(sx);
    var r := Deleted(ls, EMPTY, lower, upper, 1);
    forall k | 0 <= k < |r| ensures RowOk(r[k], sx) {
      DeletedAt(ls, EMPTY, lower, upper, 1, k);
    }
  }

  // Every row, of the history too, is in order, and there is room for more.
  ghost predicate Tidy(s: Screen)
    reads s, s.grid, s.grid.live
  {
    && s.Valid() && s.wrap && (s.grid.history ==> 1 <= s.grid.hlimit)
    && s.grid.hsize + s.grid.sy < MAX_LINES && s.grid.hlimit + s.grid.sy < MAX_LINES
    && RowsOk(s.grid.Lines(), s.grid.sx)
  }

  ghost function Sight(s: Screen): (v: View<LineVal>)
    requires s.Valid()
    reads s, s.grid, s.grid.live
    ensures |v.lines| == v.hsize + s.grid.sy
  {
    View(s.grid.Lines(), s.grid.hsize)
  }

  // The cursor down a row, or the region up.
  method MoveDown(s: Screen)
    requires s.Valid() && (s.grid.history ==> 1 <= s.grid.hlimit && s.grid.hsize + s.grid.sy < MAX_LINES)
    modifies s`cy, s.grid`linedata, s.grid`live, s.grid`hsize
    ensures s.Valid() && s.grid.live <= old(s.grid.live)
    ensures (Sight(s), s.cy)
            == NextRow(old(Sight(s)), old(s.cy), s.rupper, s.rlower, s.grid.hlimit, s.grid.history)
  {
    hide Owned, Buffers, Val, OkLine, Deleted, ScrolledUp;
    if s.cy == s.rlower {
      ScrollRegionUp(s.grid, s.rupper, s.rlower);
    } else if s.cy < s.grid.sy - 1 {
      s.cy := s.cy + 1;
    }
  }

  // screen_write_linefeed
  method Linefeed(s: Screen, wrapped: bool)
    requires Tidy(s)
    modifies s`cy, s.grid`linedata, s.grid`live, s.grid`hsize, s.grid.live
    ensures Tidy(s) && s.grid.live <= old(s.grid.live)
    ensures (Sight(s), s.cy)
            == Fed(old(Sight(s)), old(s.cy), s.rupper, s.rlower, s.grid.hlimit, s.grid.history, wrapped)
    ensures LineFed(old(Sight(s)), old(s.cy), s.rupper, s.rlower, s.grid.history, wrapped, Sight(s), s.cy)
    ensures s.grid.hsize <= Max(old(s.grid.hsize), s.grid.hlimit)
  {
    hide Owned, Buffers, Val, OkLine, RowOk, RowsOk, NextRow, LineFed;
    FedIs(Sight(s), s.cy, s.rupper, s.rlower, s.grid.hlimit, s.grid.history, wrapped);
    FedSize(Sight(s), s.cy, s.rupper, s.rlower, s.grid.hlimit, s.grid.history, wrapped);
    FedOk(Sight(s), s.cy, s.rupper, s.rlower, s.grid.hlimit, s.grid.history, wrapped, s.grid.sx);
    s.grid.SetWrapped(s.grid.hsize + s.cy, wrapped);
    MoveDown(s);
  }

  // ------------------------------------------------------------------
  // Characters

  function WidthOf(gc: GridCell, gu: GridUtf8): nat {
    if Utf8 in gc.flags then gu.width else 1
  }

  lemma OneLineOk(before: seq<LineVal>, after: seq<LineVal>, y: nat, sx: nat)
    requires RowsOk(before, sx) && OneLine(before, after, y) && RowOk(after[y], sx)
    ensures RowsOk(after, sx)
  {
    hide RowOk;
  }

  // The part of screen_write_cell for a character that fits in the line.
  method WriteHere(s: Screen, width: nat, gc: GridCell, gu: GridUtf8)
    requires Tidy(s) && Writable(gc, gu, width) && s.cx + width <= s.grid.sx
    modifies s`cx, s.grid`linedata, s.grid`live, s.grid.live
    ensures fresh(s.grid.live - old(s.grid.live))
    ensures Tidy(s) && s.cx == old(s.cx) + width
    ensures var y := s.grid.hsize + s.cy;
            && OneLine(old(s.grid.Lines()), s.grid.Lines(), y)
            && Written(old(s.grid.Lines())[y], s.grid.Lines()[y], s.grid.sx, old(s.cx), width, gc, gu)
  {
    hide Owned, Buffers, Val, OkLine, RowOk, RowsOk, Overwritten, CharacterPut;
    var y := s.grid.hsize + s.cy;
    ghost var ls := s.grid.Lines();
    assert RowOk(ls[y], s.grid.sx) by {
      RowsOkAt(ls, s.grid.sx, y);
    }
    Overwrite(s.grid, s.cx, y, width);
    ghost var u := s.grid.Lines()[y];
    PutCharacter(s.grid, s.cx, y, width, gc, gu);
    WrittenOk(ls[y], u, s.grid.Lines()[y], s.grid.sx, s.cx, width, gc, gu);
    OneLineOk(ls, s.grid.Lines(), y, s.grid.sx);
    s.cx := s.cx + width;
  }

  lemma RowsOkAt(ls: seq<LineVal>, sx: nat, k: nat)
    requires RowsOk(ls, sx) && k < |ls|
    ensures RowOk(ls[k], sx)
  {
  }

  // The part of screen_write_cell for a character of no width.
  method CombineHere(s: Screen, gu: GridUtf8)
    requires Tidy(s)
    modifies s.grid`linedata, s.grid`live, s.grid.live
    ensures fresh(s.grid.live - old(s.grid.live))
    ensures Tidy(s)
    ensures s.cx == 0 ==> s.grid.Lines() == old(s.grid.Lines())
    ensures var y := s.grid.hsize + s.cy;
            s.cx > 0 ==>
              && OneLine(old(s.grid.Lines()), s.grid.Lines(), y)
              && ColumnSet(old(s.grid.Lines())[y], s.grid.Lines()[y], s.cx - 1,
                           Joined(Look(old(s.grid.Lines())[y], s.cx - 1), gu))
  {
    hide Owned, Buffers, Val, OkLine, RowsOk, ColumnSet, Covered;
    var y := s.grid.hsize + s.cy;
    ghost var ls := s.grid.Lines();
    RowsOkAt(ls, s.grid.sx, y);
    var ok := Combine(s.grid, s.cx, y, gu);
    if ok {
      JoinedOk(ls[y], s.grid.Lines()[y], s.grid.sx, s.cx - 1, gu);
      OneLineOk(ls, s.grid.Lines(), y, s.grid.sx);
    }
  }

  ghost predicate LineFedUnless(fits: bool, v: View<LineVal>, cy: nat, upper: nat, lower: nat, history: bool,
                                w: View<LineVal>, row: nat)
    requires v.hsize <= |v.lines| && upper <= lower && v.hsize + lower < |v.lines| && v.hsize + cy < |v.lines|
  {
    if fits then w == v && row == cy else LineFed(v, cy, upper, lower, history, true, w, row)
  }

  // screen_write_cell, when wrapping and not inserting: the lines after are
  // those before, or after a line feed where the character did not fit, but
  // for the character written over what was there.
  method WriteCell(s: Screen, gc: GridCell, gu: GridUtf8)
    requires Tidy(s) && WidthOf(gc, gu) <= UTF8_SIZE && WidthOf(gc, gu) <= s.grid.sx
    modifies s`cx, s`cy, s.grid`linedata, s.grid`live, s.grid`hsize, s.grid.live
    ensures fresh(s.grid.live - old(s.grid.live))
    ensures Tidy(s) && s.grid.hsize <= Max(old(s.grid.hsize), s.grid.hlimit)
    ensures Flag.Padding in gc.flags ==> Sight(s) == old(Sight(s)) && s.cx == old(s.cx) && s.cy == old(s.cy)
    ensures Flag.Padding !in gc.flags && WidthOf(gc, gu) == 0 ==>
              && s.cx == old(s.cx) && s.cy == old(s.cy) && s.grid.hsize == old(s.grid.hsize)
              && (s.cx == 0 ==> Sight(s) == old(Sight(s)))
              && var y := s.grid.hsize + s.cy;
                 (s.cx > 0 ==>
                   && OneLine(old(s.grid.Lines()), s.grid.Lines(), y)
                   && ColumnSet(old(s.grid.Lines())[y], s.grid.Lines()[y], s.cx - 1,
                                Joined(Look(old(s.grid.Lines())[y], s.cx - 1), gu)))
    ensures Flag.Padding !in gc.flags && WidthOf(gc, gu) != 0 ==>
              var width := WidthOf(gc, gu);
              var fits := old(s.cx) + width <= s.grid.sx;
              var (v, cy) := if fits then (old(Sight(s)), old(s.cy))
                             else Fed(old(Sight(s)), old(s.cy), s.rupper, s.rlower,
                                      s.grid.hlimit, s.grid.history, true);
              var cx := if fits then old(s.cx) else 0;
              var y := v.hsize + cy;
              && LineFedUnless(fits, old(Sight(s)), old(s.cy), s.rupper, s.rlower, s.grid.history, v, cy)
              && s.cx == cx + width && s.cy == cy && s.grid.hsize == v.hsize
              && OneLine(v.lines, s.grid.Lines(), y)
              && Written(v.lines[y], s.grid.Lines()[y], s.grid.sx, cx, width, gc, gu)
  {
    hide Owned, Buffers, Val, OkLine, RowsOk, Written, OneLine, ColumnSet, Fed, LineFed, ScrolledUp;
    // A padding cell is not written by itself.
    if Flag.Padding in gc.flags {
      return;
    }
    var width := WidthOf(gc, gu);
    if width == 0 {
      CombineHere(s, gu);
      return;
    }

    // A character that is too wide for what is left of the row goes on the next.
    if s.cx > s.grid.sx - width {
      Linefeed(s, true);
      s.cx := 0;
    }
    WriteHere(s, width, gc, gu);
  }

  datatype Char = Char(cell: GridCell, mark: GridUtf8)

  // From a new screen, any run of characters no wider than it is leaves every
  // row, on the screen and in the history, in order.
  method WriteRun(sx: nat, sy: nat, hlimit: nat, chars: seq<Char>) returns (s: Screen)
    requires 0 < sx < U32 && 0 < sy && 1 <= hlimit && hlimit + sy < MAX_LINES
    requires forall i :: 0 <= i < |chars| ==>
               WidthOf(chars[i].cell, chars[i].mark) <= UTF8_SIZE && WidthOf(chars[i].cell, chars[i].mark) <= sx
    ensures fresh(s) && fresh(s.grid) && Tidy(s) && s.grid.sx == sx && s.grid.sy == sy
    ensures s.grid.hsize <= hlimit
  {
    hide Owned, Buffers, Val, OkLine, RowOk, Fed, LineFed, LineFedUnless, Written, OneLine, ColumnSet, Joined;
    s := new Screen(sx, sy, hlimit);
    EmptyRow(sx);
    var i := 0;
    while i < |chars|
      invariant 0 <= i <= |chars| && fresh(s) && fresh(s.grid) && fresh(s.grid.live) && Tidy(s)
      invariant s.grid.sx == sx && s.grid.sy == sy && s.grid.hlimit == hlimit && s.grid.hsize <= hlimit
    {
      WriteCell(s, chars[i].cell, chars[i].mark);
      i := i + 1;
    }
  }
}
