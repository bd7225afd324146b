// Operations on the visible part of a grid, in coordinates of the screen.
module GridView {
  import opened Common
  import opened GridLines
  import opened Grid

  // ------------------------------------------------------------------
  // What is meant by inserting and deleting

  // ny blank lines at py push the rest of a region, down to lower, over its end.
  function Inserted<T>(ls: seq<T>, blank: T, lower: nat, py: nat, ny: nat): (r: seq<T>)
    requires py + ny <= lower + 1 <= |ls|
    ensures |r| == |ls|
  {
    ls[..py] + Filled(ny, blank) + ls[py..lower + 1 - ny] + ls[lower + 1..]
  }

  // ny lines at py are taken out of a region and blank ones added at its end.
  function Deleted<T>(ls: seq<T>, blank: T, lower: nat, py: nat, ny: nat): (r: seq<T>)
    requires py + ny <= lower + 1 <= |ls|
    ensures |r| == |ls|
  {
    ls[..py] + ls[py + ny..lower + 1] + Filled(ny, blank) + ls[lower + 1..]
  }

  // Deleting what was inserted leaves all but the lines pushed out.
  lemma DeleteInserted<T>(ls: seq<T>, blank: T, lower: nat, py: nat, ny: nat)
    requires py + ny <= lower + 1 <= |ls|
    ensures Deleted(Inserted(ls, blank, lower, py, ny), blank, lower, py, ny)
            == ls[..lower + 1 - ny] + Filled(ny, blank) + ls[lower + 1..]
  {
    var r := Inserted(ls, blank, lower, py, ny);
    assert r[..py] == ls[..py];
    assert r[py + ny..lower + 1] == ls[py..lower + 1 - ny];
    assert r[lower + 1..] == ls[lower + 1..];
    assert ls[..py] + ls[py..lower + 1 - ny] == ls[..lower + 1 - ny];
  }

  lemma InsertedAt<T>(ls: seq<T>, blank: T, lower: nat, py: nat, ny: nat, k: nat)
    requires py + ny <= lower + 1 <= |ls| && k < |ls|
    ensures Inserted(ls, blank, lower, py, ny)[k]
            == if k < py || lower < k then ls[k] else if k < py + ny then blank else ls[k - ny]
  {
  }

  // Moving lines down and clearing what that leaves is inserting.
  lemma InsertByMoving<T>(ls: seq<T>, blank: T, lower: nat, py: nat, ny: nat)
    requires py + ny <= lower + 1 <= |ls|
    ensures var n := lower + 1 - py - ny;
            var moved := MovedLines(ls, blank, py + ny, py, n);
            (if n <= ny then ClearedLines(moved, blank, py + n, ny - n) else moved)
            == Inserted(ls, blank, lower, py, ny)
  {
  }

  lemma DeletedAt<T>(ls: seq<T>, blank: T, lower: nat, py: nat, ny: nat, k: nat)
    requires py + ny <= lower + 1 <= |ls| && k < |ls|
    ensures Deleted(ls, blank, lower, py, ny)[k]
            == if k < py || lower < k then ls[k] else if k < lower + 1 - ny then ls[k + ny] else blank
  {
    var tail := Filled(ny, blank) + ls[lower + 1..];
    var mid := ls[py + ny..lower + 1] + tail;
    assert Deleted(ls, blank, lower, py, ny) == ls[..py] + mid;
  }

  lemma DeleteByMoving<T>(ls: seq<T>, blank: T, lower: nat, py: nat, ny: nat)
    requires py + ny <= lower + 1 <= |ls|
    ensures var n := lower + 1 - py - ny;
            var moved := MovedLines(ls, blank, py, py + ny, n);
            (if n <= ny then ClearedLines(moved, blank, py + n, ny - n) else moved)
            == Deleted(ls, blank, lower, py, ny)
  {
    hide Deleted;
    var n := lower + 1 - py - ny;
    var moved, want := MovedLines(ls, blank, py, py + ny, n), Deleted(ls, blank, lower, py, ny);
    var got := if n <= ny then ClearedLines(moved, blank, py + n, ny - n) else moved;
    forall k | 0 <= k < |ls| ensures got[k] == want[k] {
      DeletedAt(ls, blank, lower, py, ny, k);
    }
  }

  // Where the lines are only moved, what is inserted is not all blank: the
  // lines that are neither moved nor moved onto stay as they were.
  lemma InsertOnlyMoving<T>(ls: seq<T>, blank: T, lower: nat, py: nat, ny: nat)
    requires py + ny <= lower + 1 <= |ls|
    ensures MovedLines(ls, blank, py + ny, py, lower + 1 - py - ny) == Inserted(ls, blank, lower, py, ny)
            <==> forall k :: lower + 1 - ny <= k < py + ny ==> ls[k] == blank
  {
    var n := lower + 1 - py - ny;
    var moved, want := MovedLines(ls, blank, py + ny, py, n), Inserted(ls, blank, lower, py, ny);
    forall k | 0 <= k < |ls| ensures moved[k] == want[k] <==> lower + 1 - ny <= k < py + ny ==> ls[k] == blank {
    }
    if forall k :: lower + 1 - ny <= k < py + ny ==> ls[k] == blank {
      assert forall k :: 0 <= k < |ls| ==> moved[k] == want[k];
    } else {
      var k :| lower + 1 - ny <= k < py + ny && ls[k] != blank;
      assert moved[k] != want[k];
    }
  }

  // Three lines inserted at the top of a screen of four: the second and third
  // lines keep what they held.
  lemma InsertMayNotBlank()
    ensures MovedLines([1, 2, 3, 4], 0, 3, 0, 1) == [0, 2, 3, 1]
    ensures Inserted([1, 2, 3, 4], 0, 3, 0, 3) == [0, 0, 0, 1]
  {
  }

  // ------------------------------------------------------------------
  // The operations on lines

  // grid_view_insert_lines_region
  method InsertLinesRegion(gd: Grid, rlower: nat, py: nat, ny: nat)
    requires gd.Valid() && rlower < gd.sy && py + ny <= rlower + 1
    modifies gd`linedata, gd`live, gd.live
    ensures gd.Valid() && gd.live <= old(gd.live)
    ensures gd.Lines() == Inserted(old(gd.Lines()), EMPTY, gd.hsize + rlower, gd.hsize + py, ny)
  {
    hide Owned, Buffers, MovedLines, ClearedLines, Inserted, Wrap;
    var rlower, py := gd.hsize + rlower, gd.hsize + py;
    var ny2 := Wrap(rlower + 1 - py - ny);
    Wraps(rlower + 1 - py - ny);
    Wraps(ny - ny2);
    InsertByMoving(gd.Lines(), EMPTY, rlower, py, ny);
    gd.MoveLines(rlower + 1 - ny2, py, ny2);
    gd.Clear(0, py + ny2, gd.sx, Wrap(ny - ny2));
  }

  // grid_view_delete_lines_region
  method DeleteLinesRegion(gd: Grid, rlower: nat, py: nat, ny: nat)
    requires gd.Valid() && rlower < gd.sy && py + ny <= rlower + 1
    modifies gd`linedata, gd`live, gd.live
    ensures gd.Valid() && gd.live <= old(gd.live)
    ensures gd.Lines() == Deleted(old(gd.Lines()), EMPTY, gd.hsize + rlower, gd.hsize + py, ny)
  {
    hide Owned, Buffers, MovedLines, ClearedLines, Deleted, Wrap;
    var rlower, py := gd.hsize + rlower, gd.hsize + py;
    var ny2 := Wrap(rlower + 1 - py - ny);
    Wraps(rlower + 1 - py - ny);
    Wraps(ny - ny2);
    DeleteByMoving(gd.Lines(), EMPTY, rlower, py, ny);
    gd.MoveLines(py, py + ny, ny2);
    gd.Clear(0, py + ny2, gd.sx, Wrap(ny - ny2));
  }

  // grid_view_delete_lines
  method DeleteLines(gd: Grid, py: nat, ny: nat)
    requires gd.Valid() && py + ny <= gd.sy
    modifies gd`linedata, gd`live, gd.live
    ensures gd.Valid() && gd.live <= old(gd.live)
    ensures gd.Lines() == Deleted(old(gd.Lines()), EMPTY, gd.hsize + gd.sy - 1, gd.hsize + py, ny)
    ensures gd.Used() == Deleted(old(gd.Used()), BLANK, gd.hsize + gd.sy - 1, gd.hsize + py, ny)
  {
    hide Owned, Buffers, MovedLines, ClearedLines, Deleted, Wrap;
    var py, sy := gd.hsize + py, gd.hsize + gd.sy;
    Wraps(sy - py - ny);
    Wraps(py + ny - (sy - ny));
    DeleteByMoving(gd.Lines(), EMPTY, sy - 1, py, ny);
    DeleteByMoving(gd.Used(), BLANK, sy - 1, py, ny);
    gd.MoveLines(py, py + ny, Wrap(sy - py - ny));
    gd.Clear(0, sy - ny, gd.sx, Wrap(py + ny - (sy - ny)));
  }

  // grid_view_insert_lines: the lines are only moved.
  method InsertLines(gd: Grid, py: nat, ny: nat)
    requires gd.Valid() && py + ny <= gd.sy
    modifies gd`linedata, gd`live
    ensures gd.Valid() && gd.live <= old(gd.live)
    ensures gd.Lines() == MovedLines(old(gd.Lines()), EMPTY, gd.hsize + py + ny, gd.hsize + py, gd.sy - py - ny)
  {
    hide Owned, Buffers, MovedLines, Wrap;
    var py, sy := gd.hsize + py, gd.hsize + gd.sy;
    Wraps(sy - py - ny);
    gd.MoveLines(py + ny, py, Wrap(sy - py - ny));
  }

  // grid_view_scroll_region_down
  method ScrollRegionDown(gd: Grid, rupper: nat, rlower: nat)
    requires gd.Valid() && rupper <= rlower < gd.sy
    modifies gd`linedata, gd`live
    ensures gd.Valid() && gd.live <= old(gd.live)
    ensures gd.Lines() == if rupper == rlower then old(gd.Lines())
                          else Inserted(old(gd.Lines()), EMPTY, gd.hsize + rlower, gd.hsize + rupper, 1)
  {
    hide Owned, Buffers, MovedLines, Inserted, Wrap;
    var rupper, rlower := gd.hsize + rupper, gd.hsize + rlower;
    InsertOnlyMoving(gd.Lines(), EMPTY, rlower, rupper, 1);
    if rupper == rlower {
      MovedNowhere(gd.Lines(), EMPTY, rupper + 1, rupper, 0);
    }
    gd.MoveLines(rupper + 1, rupper, rlower - rupper);
  }

  // ------------------------------------------------------------------
  // Scrolling up

  datatype View<T> = View(lines: seq<T>, hsize: nat)

  function Collected<T>(v: View<T>, hlimit: nat): View<T>
    requires 1 <= hlimit && v.hsize <= |v.lines|
  {
    if v.hsize < hlimit then v else View(v.lines[Tenth(hlimit)..], v.hsize - Tenth(hlimit))
  }

  function ScrolledUp<T>(v: View<T>, blank: T, hlimit: nat, upper: nat, lower: nat): (r: View<T>)
    requires 1 <= hlimit && upper <= lower && v.hsize + lower < |v.lines|
    ensures |r.lines| - r.hsize == |v.lines| - v.hsize
  {
    var c := Collected(v, hlimit);
    View(IntoHistory(c.lines, blank, c.hsize, c.hsize + upper, c.hsize + lower), c.hsize + 1)
  }

  // The short way taken for the full screen gives what the way for a region does.
  lemma FullScreenPath<T>(ls: seq<T>, blank: T, hsize: nat)
    requires hsize < |ls|
    ensures ls + [blank] == IntoHistory(ls, blank, hsize, hsize, |ls| - 1)
  {
  }

  method RaiseWithoutHistory(gd: Grid, rupper: nat, rlower: nat)
    requires gd.Valid() && rupper <= rlower < gd.hsize + gd.sy
    modifies gd`linedata, gd`live
    ensures gd.Valid() && gd.live <= old(gd.live)
    ensures gd.Lines() == if rupper == rlower then old(gd.Lines())
                          else Deleted(old(gd.Lines()), EMPTY, rlower, rupper, 1)
  {
    hide Owned, Buffers, MovedLines, ClearedLines, Deleted, Wrap;
    if rupper < rlower {
      DeleteByMoving(gd.Lines(), EMPTY, rlower, rupper, 1);
      ClearedNone(MovedLines(gd.Lines(), EMPTY, rupper, rupper + 1, rlower - rupper), EMPTY, rlower);
    } else {
      MovedNowhere(gd.Lines(), EMPTY, rupper, rupper + 1, 0);
    }
    gd.MoveLines(rupper, rupper + 1, rlower - rupper);
  }

  // grid_view_scroll_region_up
  method ScrollRegionUp(gd: Grid, rupper: nat, rlower: nat)
    requires gd.Valid() && rupper <= rlower < gd.sy
    requires gd.history ==> 1 <= gd.hlimit && gd.hsize + gd.sy < MAX_LINES
    modifies gd`linedata, gd`live, gd`hsize
    ensures gd.Valid() && gd.live <= old(gd.live)
    ensures gd.history ==> View(gd.Lines(), gd.hsize)
                           == ScrolledUp(View(old(gd.Lines()), old(gd.hsize)), EMPTY, gd.hlimit, rupper, rlower)
    ensures !gd.history ==> gd.hsize == old(gd.hsize)
    ensures !gd.history ==>
              gd.Lines() == if rupper == rlower then old(gd.Lines())
                            else Deleted(old(gd.Lines()), EMPTY, gd.hsize + rlower, gd.hsize + rupper, 1)
  {
    hide Owned, Buffers, Val, OkLine, Deleted, Wrap, IntoHistory;
    if gd.history {
      gd.CollectHistory();
      RaiseIntoHistory(gd, rupper, rlower);
    } else {
      RaiseWithoutHistory(gd, gd.hsize + rupper, gd.hsize + rlower);
    }
  }

  method RaiseIntoHistory(gd: Grid, rupper: nat, rlower: nat)
    requires gd.Valid() && rupper <= rlower < gd.sy && gd.hsize + gd.sy < MAX_LINES
    modifies gd`linedata, gd`hsize
    ensures gd.Valid() && gd.hsize == old(gd.hsize) + 1
    ensures gd.Lines()
            == IntoHistory(old(gd.Lines()), EMPTY, old(gd.hsize), old(gd.hsize) + rupper, old(gd.hsize) + rlower)
  {
    hide Owned, Buffers, Val, OkLine;
    if rupper == 0 && rlower == gd.sy - 1 {
      FullScreenPath(gd.Lines(), EMPTY, gd.hsize);
      gd.ScrollHistory();
    } else {
      gd.ScrollHistoryRegion(gd.hsize + rupper, gd.hsize + rlower);
    }
  }

  // ------------------------------------------------------------------
  // The operations on cells

  // What becomes of a line where nx columns are inserted at px.
  ghost predicate CellsInserted(v: LineVal, w: LineVal, sx: nat, px: nat, nx: nat)
    requires px < sx && px + nx <= sx
  {
    if px == sx - 1 then w == (if px == 0 then EMPTY else ClearedCells(v, px, sx))
    else if nx == 0 || px + nx == sx then w == v
    else CellsMoved(v, w, px + nx, px, sx - px - nx)
  }

  predicate ColumnInserted(v: LineVal, w: LineVal, px: nat, nx: nat, x: nat) {
    Look(w, x) == if px <= x < px + nx then Single(DEFAULT) else if px + nx <= x then Look(v, x - nx) else Look(v, x)
  }

  // Each column moved keeps its character, but the columns inserted are all
  // blank just when those neither moved nor moved onto were.
  lemma InsertedColumns(v: LineVal, w: LineVal, sx: nat, px: nat, nx: nat)
    requires px < sx && 0 < nx && px + nx <= sx && Slots(v) && CellsInserted(v, w, sx, px, nx)
    ensures Slots(w)
    ensures (forall x: nat :: x < sx ==> ColumnInserted(v, w, px, nx, x))
            <==> px == sx - 1 || forall x: nat :: sx - nx <= x < px + nx ==> Look(v, x) == Single(DEFAULT)
  {
    hide CellsMoved, ClearedCells, Slots;
    if px == sx - 1 {
      LastColumn(v, w, sx, 0);
      forall x: nat | x < sx ensures ColumnInserted(v, w, px, nx, x) {
        LastColumn(v, w, sx, x);
      }
    } else if px + nx != sx {
      MovedSlots(v, w, px + nx, px, sx - px - nx);
    }
    if px != sx - 1 {
      forall x: nat | x < sx
        ensures ColumnInserted(v, w, px, nx, x) <==> (sx - nx <= x < px + nx ==> Look(v, x) == Single(DEFAULT))
      {
        if px + nx != sx {
          MovedLooks(v, w, px + nx, px, sx - px - nx, x);
        }
      }
    }
  }

  // Three columns inserted at the start of a line of four: the second and third
  // keep what they held.
  lemma InsertedMayNotBlank(a: GridCell, b: GridCell, c: GridCell, d: GridCell)
    requires b != DEFAULT
    ensures var v, w := LineVal([a, b, c, d], [], false), LineVal([DEFAULT, b, c, a], [], false);
            CellsInserted(v, w, 4, 0, 3) && !ColumnInserted(v, w, 0, 3, 1)
  {
    var v, w := LineVal([a, b, c, d], [], false), LineVal([DEFAULT, b, c, a], [], false);
    assert Padded(Padded(v, 1), 4) == v;
    assert MovedCells(v, 3, 0, 1) == w.cells;
  }

  lemma LastColumn(v: LineVal, w: LineVal, sx: nat, x: nat)
    requires x < sx && Slots(v) && CellsInserted(v, w, sx, sx - 1, 1)
    ensures Slots(w) && ColumnInserted(v, w, sx - 1, 1, x)
  {
    EmptyLooks();
    if sx > 1 {
      ClearedSlots(v, sx - 1, sx);
      ClearedLooks(v, sx - 1, 1, x);
    }
  }

  // grid_view_insert_cells: the cells are only moved, except in the last column.
  method InsertCells(gd: Grid, px: nat, py: nat, nx: nat)
    requires gd.Valid() && px < gd.sx && px + nx <= gd.sx && py < gd.sy
    modifies gd`linedata, gd`live, gd.live
    ensures gd.Valid() && fresh(gd.live - old(gd.live))
    ensures var y := gd.hsize + py;
            var v, w := old(gd.Lines())[y], gd.Lines()[y];
            && gd.Lines() == old(gd.Lines())[y := w]
            && CellsInserted(v, w, gd.sx, px, nx)
  {
    hide Owned, Buffers, Wrap, CellsMoved, ClearedCells;
    var py := gd.hsize + py;
    Wraps(gd.sx - px - nx);
    Wraps(px + 1);
    if px == gd.sx - 1 {
      gd.Clear(px, py, 1, 1);
    } else {
      gd.MoveCells(px + nx, px, py, Wrap(gd.sx - px - nx));
    }
  }

  // grid_view_delete_cells
  method DeleteCells(gd: Grid, px: nat, py: nat, nx: nat)
    requires gd.Valid() && px + nx <= gd.sx && py < gd.sy
    modifies gd`linedata, gd`live, gd.live
    ensures gd.Valid() && fresh(gd.live - old(gd.live))
    ensures gd.Lines() == old(gd.Lines())[gd.hsize + py := gd.Lines()[gd.hsize + py]]
    ensures CellsDeleted(old(gd.Lines())[gd.hsize + py], gd.Lines()[gd.hsize + py], gd.sx, px, nx)
  {
    hide Owned, Buffers, Wrap, Val, OkLine, CellsMoved, CellsDeleted, ClearedCells;
    var py, sx := gd.hsize + py, gd.sx;
    ghost var v := gd.Lines()[py];
    Wraps(sx - px - nx);
    Wraps(px + nx - (sx - nx));
    Wraps(px + nx);
    gd.MoveCells(px, px + nx, py, Wrap(sx - px - nx));
    ghost var w := gd.Lines()[py];
    gd.Clear(sx - nx, py, Wrap(px + nx - (sx - nx)), 1);
    assert Wrap(sx - nx + Wrap(px + nx - (sx - nx))) == px + nx by {
      WrapsAround(px + nx, sx - nx);
    }
    MovedThenCleared(v, w, gd.Lines()[py], sx, px, nx);
  }

  lemma WrapsAround(a: nat, b: nat)
    requires a < U32 && b < U32
    ensures Wrap(b + Wrap(a - b)) == a
  {
    Wraps(a - b);
  }

  lemma MovedThenCleared(v: LineVal, w: LineVal, u: LineVal, sx: nat, px: nat, nx: nat)
    requires px + nx <= sx
    requires if nx == 0 || px + nx == sx then w == v else CellsMoved(v, w, px, px + nx, sx - px - nx)
    requires if px + nx == sx - nx then u == w else if px == 0 && nx == sx then u == EMPTY
             else u == ClearedCells(w, sx - nx, px + nx)
    ensures CellsDeleted(v, u, sx, px, nx)
  {
    hide CellsMoved, Look, ClearedCells, Slots;
    if Slots(v) && !(px == 0 && nx == sx) {
      if w != v {
        MovedSlots(v, w, px, px + nx, sx - px - nx);
      }
      ClearedSlots(w, sx - nx, px + nx);
      forall x: nat | x < sx ensures ColumnDeleted(v, u, sx, px, nx, x)
      {
        if nx != 0 && px + nx != sx {
          MovedLooks(v, w, px, px + nx, sx - px - nx, x);
        }
        if sx - nx <= px + nx {
          ClearedLooks(w, sx - nx, px + nx - (sx - nx), x);
        }
      }
    } else if Slots(v) {
      EmptyLooks();
    }
  }

  lemma EmptyLooks()
    ensures Slots(EMPTY) && forall x :: 0 <= x ==> Look(EMPTY, x) == Single(DEFAULT)
  {
  }

  lemma ClearedSlots(v: LineVal, px: nat, end: nat)
    requires Slots(v)
    ensures Slots(ClearedCells(v, px, end))
    ensures end <= px ==> ClearedCells(v, px, end) == v
  {
  }

  // nx columns at px are gone, with what was in them, the rest of the line has
  // moved up, and the columns it left are blank.
  ghost predicate CellsDeleted(v: LineVal, w: LineVal, sx: nat, px: nat, nx: nat)
    requires px + nx <= sx
  {
    Slots(v) ==> Slots(w) && forall x: nat :: x < sx ==> ColumnDeleted(v, w, sx, px, nx, x)
  }

  predicate ColumnDeleted(v: LineVal, w: LineVal, sx: nat, px: nat, nx: nat, x: nat)
    requires px + nx <= sx
  {
    Look(w, x) == if px <= x < sx - nx then Look(v, x + nx)
                  else if sx - nx <= x then Single(DEFAULT) else Look(v, x)
  }
}
