// The grid: the history and the screen in one array of lines.
module Grid {
  import opened Common
  import opened GridLines

  const MAX_LINES := U32 / 2

  // What a screenful of new memory holds beyond the old is not known.
  method Realloc(ls: seq<GridLine>, n: nat) returns (r: seq<GridLine>)
    ensures |r| == n && forall k :: 0 <= k < |ls| && k < n ==> r[k] == ls[k]
  {
    r := if n <= |ls| then ls[..n] else ls + Filled(n - |ls|, BLANK);
  }

  method RaiseRegion(ls: seq<GridLine>, hsize: nat, sy: nat, upper: nat, lower: nat) returns (ld: seq<GridLine>)
    requires hsize <= upper <= lower < hsize + sy <= |ls|
    ensures ld == IntoHistory(ls[..hsize + sy], BLANK, hsize, upper, lower)
  {
    // One line more, and the screen one further down.
    ld := Realloc(ls, hsize + sy + 1);
    ld := Copied(ld, hsize + 1, hsize, sy);
    // The top line of the region becomes history, and the region goes up over it.
    var up, low := upper + 1, lower + 1;
    ld := ld[hsize := ld[up]];
    ld := Copied(ld, up, up + 1, low - up);
    ld := ld[low := BLANK];
  }

  // A tenth of the limit, and at least one line.
  function Tenth(hlimit: nat): (r: nat)
    ensures 1 <= r && (1 <= hlimit ==> r <= hlimit)
  {
    if hlimit / 10 < 1 then 1 else hlimit / 10
  }

  class Grid {
    var sx: nat
    var sy: nat
    var hsize: nat
    var hlimit: nat
    var history: bool
    var linedata: seq<GridLine>
    // The buffers allocated and not yet freed.
    ghost var live: set<object>

    ghost predicate Valid()
      reads this
    {
      && 0 < sx < U32 && 0 < sy && hsize + sy <= MAX_LINES && hsize + sy <= |linedata|
      && Owned(Used(), live) && this !in live
    }

    // The lines in use; there may be memory for more.
    function Used(): (ls: seq<GridLine>)
      requires hsize + sy <= |linedata|
      reads this
      ensures |ls| == hsize + sy
    {
      linedata[..hsize + sy]
    }

    ghost function Lines(): (vs: seq<LineVal>)
      requires Valid()
      reads this, live
      ensures |vs| == hsize + sy
    {
      ValsOf(Used(), live)
    }

    // grid_create
    constructor (sx: nat, sy: nat, hlimit: nat)
      requires 0 < sx < U32 && 0 < sy <= MAX_LINES
      ensures Valid() && Lines() == Filled(sy, EMPTY) && live == {}
      ensures this.sx == sx && this.sy == sy && hsize == 0 && this.hlimit == hlimit && history
    {
      this.sx, this.sy, this.hlimit, this.history, this.hsize := sx, sy, hlimit, true, 0;
      linedata := Filled(sy, BLANK);
      live := {};
      new;
      BlankLine();
      assert Used() == linedata;
    }

    // grid_clear_lines: free and blank the lines. A count that wraps past the
    // end of u_int passes the range checks but clears nothing.
    method ClearLines(py: nat, ny: nat)
      requires Valid() && py < U32 && ny < U32
      modifies this`linedata, this`live
      ensures Valid() && live <= old(live) && |linedata| == |old(linedata)|
      ensures Used() == if py + ny <= hsize + sy then ClearedLines(old(Used()), BLANK, py, ny) else old(Used())
      ensures Lines() == if py + ny <= hsize + sy then ClearedLines(old(Lines()), EMPTY, py, ny) else old(Lines())
    {
      hide Owned, Buffers, Val, OkLine;
      ghost var ls := Used();
      BlankLine();
      if ny == 0 || py >= hsize + sy || Wrap(py + ny - 1) >= hsize + sy {
        return;
      }
      var yy, end := py, Wrap(py + ny);
      assert if py + ny <= hsize + sy then end == py + ny else end <= py;
      while yy < end
        invariant py <= yy && (if py < end then yy <= end else yy == py) && end <= hsize + sy
        invariant Valid() && live <= old(live)
        invariant |linedata| == |old(linedata)| && Used() == ClearedLines(ls, BLANK, py, yy - py)
        invariant yy == py ==> live == old(live)
      {
        FreeLine(Used(), live, yy);
        live := live - Buffers(linedata[yy]);
        ghost var was := Used();
        linedata := linedata[yy := BLANK];
        assert Used() == was[yy := BLANK];
        yy := yy + 1;
      }
    }

    // grid_move_lines
    method MoveLines(dy: nat, py: nat, ny: nat)
      requires Valid() && dy < U32 && py < U32 && ny <= hsize + sy
      modifies this`linedata, this`live
      ensures Valid() && live <= old(live) && |linedata| == |old(linedata)|
      ensures Lines() == if py + ny <= hsize + sy && dy + ny <= hsize + sy
                         then MovedLines(old(Lines()), EMPTY, dy, py, ny) else old(Lines())
      ensures Used() == if py + ny <= hsize + sy && dy + ny <= hsize + sy
                        then MovedLines(old(Used()), BLANK, dy, py, ny) else old(Used())
    {
      hide Owned, Buffers, Val, OkLine, MovedLines;
      if ny == 0 || py == dy || py >= hsize + sy || Wrap(py + ny - 1) >= hsize + sy
         || dy >= hsize + sy || Wrap(dy + ny - 1) >= hsize + sy {
        if py + ny <= hsize + sy && dy + ny <= hsize + sy {
          MovedNowhere(Lines(), EMPTY, dy, py, ny);
          MovedNowhere(Used(), BLANK, dy, py, ny);
        }
        return;
      }
      Replace(dy, py, ny);
    }

    method Replace(dy: nat, py: nat, ny: nat)
      requires Valid() && dy + ny <= hsize + sy && py + ny <= hsize + sy
      modifies this`linedata, this`live
      ensures Valid() && live <= old(live) && |linedata| == |old(linedata)|
      ensures Lines() == MovedLines(old(Lines()), EMPTY, dy, py, ny)
      ensures Used() == MovedLines(old(Used()), BLANK, dy, py, ny)
    {
      hide Owned, Buffers, Val, OkLine;
      ghost var ls, owned, vs := Used(), live, Lines();
      FreeReplaced(dy, py, ny);
      ShiftLines(dy, py, ny);
      assert Used() == MovedLines(ls, BLANK, dy, py, ny);
      MovedVals(ls, owned, Used(), live, dy, py, ny);
      assert ValsOf(ls, owned) == vs;
    }

    // The rest of grid_move_lines: move the lines, then wipe, without freeing
    // them, those that have been moved.
    method ShiftLines(dy: nat, py: nat, ny: nat)
      requires Valid() && dy + ny <= hsize + sy && py + ny <= hsize + sy
      requires forall k :: dy <= k < dy + ny && !(py <= k < py + ny) ==> Used()[k] == BLANK
      modifies this`linedata
      ensures Valid() && |linedata| == |old(linedata)|
      ensures Used() == MovedLines(old(Used()), BLANK, dy, py, ny)
    {
      hide Owned, Buffers, Val, OkLine;
      MoveOwned(Used(), live, dy, py, ny);
      linedata := Copied(linedata, dy, py, ny);
      ghost var copied := linedata;
      var yy := py;
      while yy < py + ny
        invariant py <= yy <= py + ny && |linedata| == |copied|
        invariant forall k :: 0 <= k < |linedata| ==>
                    linedata[k] == if py <= k < yy && !(dy <= k < dy + ny) then BLANK else copied[k]
      {
        if !(dy <= yy < dy + ny) {
          linedata := linedata[yy := BLANK];
        }
        yy := yy + 1;
      }
      assert Used() == MovedLines(old(Used()), BLANK, dy, py, ny);
    }

    // The first loop of grid_move_lines: free the lines being replaced.
    method FreeReplaced(dy: nat, py: nat, ny: nat)
      requires Valid() && dy + ny <= hsize + sy && py + ny <= hsize + sy
      modifies this`linedata, this`live
      ensures Valid() && live <= old(live) && |linedata| == |old(linedata)|
      ensures forall k :: 0 <= k < hsize + sy ==>
                linedata[k] == (if dy <= k < dy + ny && !(py <= k < py + ny) then BLANK else old(linedata)[k])
    {
      hide Owned, Buffers, Val, OkLine;
      ghost var ls := Used();
      var yy := dy;
      while yy < dy + ny
        invariant dy <= yy <= dy + ny
        invariant Valid() && live <= old(live) && |linedata| == |old(linedata)|
        invariant forall k :: 0 <= k < |ls| ==>
                    Used()[k] == (if dy <= k < yy && !(py <= k < py + ny) then BLANK else ls[k])
      {
        if !(py <= yy < py + ny) {
          ClearLines(yy, 1);
        }
        yy := yy + 1;
      }
      assert forall k :: 0 <= k < hsize + sy ==> linedata[k] == Used()[k];
    }

    // grid_collect_history: a full history loses its oldest tenth.
    method CollectHistory()
      requires Valid() && 1 <= hlimit
      modifies this`linedata, this`live, this`hsize
      ensures Valid() && live <= old(live)
      ensures hsize == if old(hsize) < hlimit then old(hsize) else old(hsize) - Tenth(hlimit)
      ensures Lines() == old(Lines())[old(hsize) - hsize..]
    {
      hide Owned, Buffers, Val, OkLine;
      if hsize < hlimit {
        return;
      }
      var yy := hlimit / 10;
      if yy < 1 {
        yy := 1;
      }
      MoveLines(0, yy, hsize + sy - yy);
      Cut(hsize - yy);
    }

    // Blank lines at the end fall out of use.
    method Cut(newHsize: nat)
      requires Valid() && newHsize <= hsize
      requires AllBlank(Used(), BLANK, newHsize + sy)
      modifies this`hsize
      ensures Valid() && hsize == newHsize && Lines() == old(Lines())[..hsize + sy]
    {
      hide Owned, Buffers, Val, OkLine;
      CutOwned(Used(), live, newHsize + sy);
      ghost var ls := Used();
      hsize := newHsize;
      assert Used() == ls[..hsize + sy];
    }

    // grid_scroll_history: the screen's top line joins the history and a new
    // line is added at the bottom.
    method ScrollHistory()
      requires Valid() && hsize + sy < MAX_LINES
      modifies this`linedata, this`hsize
      ensures Valid() && hsize == old(hsize) + 1
      ensures Lines() == old(Lines()) + [EMPTY]
    {
      hide Owned, Buffers, Val, OkLine;
      BlankLine();
      ghost var ls := Used();
      GrowOwned(ls, live, 1);
      var yy := hsize + sy;
      var ld := Realloc(linedata, yy + 1);
      ld := ld[yy := BLANK];
      assert ld == ls + Filled(1, BLANK);
      Adopt(ld, hsize + 1);
    }

    // grid_scroll_history_region: the top line of a region joins the history
    // and a blank line is added at the region's bottom.
    method ScrollHistoryRegion(upper: nat, lower: nat)
      requires Valid() && hsize + sy < MAX_LINES && hsize <= upper <= lower < hsize + sy
      modifies this`linedata, this`hsize
      ensures Valid() && hsize == old(hsize) + 1
      ensures Lines() == IntoHistory(old(Lines()), EMPTY, old(hsize), upper, lower)
    {
      hide Owned, Buffers, Val, OkLine;
      BlankLine();
      ghost var ls, vs := Used(), Lines();
      HistoryVals(ls, live, hsize, upper, lower);
      var ld := RaiseRegion(linedata, hsize, sy, upper, lower);
      Adopt(ld, hsize + 1);
    }

    // The lines moved into their new places.
    method Adopt(ld: seq<GridLine>, newHsize: nat)
      requires Valid() && Owned(ld, live) && |ld| == newHsize + sy <= MAX_LINES
      modifies this`linedata, this`hsize
      ensures Valid() && hsize == newHsize && Lines() == old(ValsOf(ld, live))
    {
      hide Owned, Buffers, Val, OkLine;
      linedata, hsize := ld, newHsize;
      assert Used() == ld;
    }

    // ----------------------------------------------------------------
    // The memory for lines resized, where screen_resize_y does it

    method Shrink(newHsize: nat, newSy: nat)
      requires Valid() && 0 < newSy && newHsize + newSy <= hsize + sy
      requires AllBlank(Used(), BLANK, newHsize + newSy)
      modifies this`linedata, this`hsize, this`sy
      ensures Valid() && hsize == newHsize && sy == newSy
      ensures Lines() == old(Lines())[..newHsize + newSy]
    {
      hide Owned, Buffers, Val, OkLine;
      ghost var ls := Used();
      CutOwned(ls, live, newHsize + newSy);
      linedata := Realloc(linedata, newHsize + newSy);
      hsize, sy := newHsize, newSy;
      assert Used() == ls[..newHsize + newSy];
    }

    method Enlarge(newHsize: nat, newSy: nat, size: nat)
      requires Valid() && 0 < newSy && hsize + sy <= newHsize + newSy <= size && newHsize + newSy <= MAX_LINES
      modifies this`linedata, this`hsize, this`sy
      ensures Valid() && hsize == newHsize && sy == newSy
      ensures Lines() == old(Lines()) + Filled(newHsize + newSy - old(hsize) - old(sy), EMPTY)
    {
      hide Owned, Buffers, Val, OkLine;
      ghost var ls := Used();
      BlankLine();
      GrowOwned(ls, live, newHsize + newSy - hsize - sy);
      var ld := Realloc(linedata, size);
      var i := hsize + sy;
      while i < newHsize + newSy
        invariant hsize + sy <= i <= newHsize + newSy && |ld| == size
        invariant forall k :: 0 <= k < i ==> ld[k] == if k < |ls| then ls[k] else BLANK
      {
        ld := ld[i := BLANK];
        i := i + 1;
      }
      linedata, hsize, sy := ld, newHsize, newSy;
      assert Used() == ls + Filled(newHsize + newSy - |ls|, BLANK);
    }

    // ----------------------------------------------------------------
    // Cells

    // grid_peek_cell
    method PeekCell(px: nat, py: nat) returns (gc: GridCell)
      requires Valid()
      ensures gc == if py < hsize + sy then Peek(Lines()[py], px) else DEFAULT
    {
      hide Owned;
      if py >= hsize + sy {
        return DEFAULT;
      }
      Fine(Used(), live, py);
      if px >= linedata[py].cellsize {
        return DEFAULT;
      }
      return linedata[py].celldata[px];
    }

    // A line changed in its place, its buffers kept or new.
    method ReplaceLine(py: nat, l: GridLine)
      requires Valid() && py < hsize + sy && OkLine(l) && this !in Buffers(l)
      requires Buffers(l) !! (live - Buffers(linedata[py]))
      modifies this`linedata, this`live
      ensures Valid() && live == old(live) - Buffers(old(linedata)[py]) + Buffers(l)
      ensures linedata == old(linedata)[py := l]
      ensures Lines() == old(Lines())[py := old(Val(l))]
    {
      hide Owned, Buffers, Val, OkLine;
      ghost var ls := Used();
      ReplaceOwned(ls, live, py, l);
      live := live - Buffers(linedata[py]) + Buffers(l);
      linedata := linedata[py := l];
      assert Used() == ls[py := l];
    }

    // grid_expand_line: make the line long enough to have nx cells.
    method ExpandLine(py: nat, nx: nat)
      requires Valid() && py < hsize + sy
      modifies this`linedata, this`live
      ensures Valid() && fresh(live - old(live))
      ensures Lines() == old(Lines())[py := Padded(old(Lines())[py], nx)]
      ensures linedata[py].utf8data == old(linedata)[py].utf8data
    {
      hide Owned;
      Fine(Used(), live, py);
      var gl := linedata[py];
      if nx <= gl.cellsize {
        assert Lines()[py] == Val(gl);
        return;
      }
      var cells := Lengthened(gl.celldata, gl.cellsize, nx);
      var longer := gl.(cellsize := nx, celldata := cells);
      assert cells[..nx] == cells[..];
      assert Val(longer) == Padded(Val(gl), nx);
      ReplaceLine(py, longer);
    }

    // grid_expand_line_utf8: the new places are not set.
    method ExpandLineUtf8(py: nat, nx: nat)
      requires Valid() && py < hsize + sy
      modifies this`linedata, this`live
      ensures Valid() && fresh(live - old(live))
      ensures Lines() == old(Lines())[py := Lines()[py]]
      ensures Lines()[py].cells == old(Lines())[py].cells && Lines()[py].wrapped == old(Lines())[py].wrapped
      ensures old(Lines())[py].utf8 <= Lines()[py].utf8
      ensures |Lines()[py].utf8| == if nx <= |old(Lines())[py].utf8| then |old(Lines())[py].utf8| else nx
    {
      hide Owned;
      Fine(Used(), live, py);
      var gl := linedata[py];
      if nx <= gl.utf8size {
        return;
      }
      var chars := Reallocated(gl.utf8data, gl.utf8size, nx);
      assert chars[..] == chars[..nx] && Val(gl).utf8 == chars[..gl.utf8size];
      ReplaceLine(py, gl.(utf8size := nx, utf8data := chars));
    }

    // The cell at px, which must be there.
    method PutCell(px: nat, py: nat, gc: GridCell)
      requires Valid() && py < hsize + sy && px < |Lines()[py].cells|
      modifies live
      ensures Valid()
      ensures Lines() == old(Lines())[py := old(Lines())[py].(cells := old(Lines())[py].cells[px := gc])]
    {
      hide Owned;
      Fine(Used(), live, py);
      OthersApart(Used(), live, py);
      linedata[py].celldata[px] := gc;
    }

    // grid_set_cell
    method SetCell(px: nat, py: nat, gc: GridCell)
      requires Valid()
      modifies this`linedata, this`live, live
      ensures Valid() && fresh(live - old(live))
      ensures Lines() == if py < hsize + sy then old(Lines())[py := Put(old(Lines())[py], px, gc)] else old(Lines())
    {
      hide Owned, Buffers, Val, OkLine;
      if py >= hsize + sy {
        return;
      }
      ExpandLine(py, px + 1);
      PutCell(px, py, gc);
    }

    // grid_set_utf8
    method SetUtf8(px: nat, py: nat, gu: GridUtf8)
      requires Valid()
      modifies this`linedata, this`live, live
      ensures Valid() && fresh(live - old(live))
      ensures py >= hsize + sy ==> Lines() == old(Lines())
      ensures py < hsize + sy ==>
                Lines() == old(Lines())[py := Lines()[py]] && CharPut(old(Lines())[py], Lines()[py], px, gu)
    {
      hide Owned, Buffers, Val, OkLine;
      if py >= hsize + sy {
        return;
      }
      ExpandLineUtf8(py, px + 1);
      PutChar(px, py, gu);
    }

    method PutChar(px: nat, py: nat, gu: GridUtf8)
      requires Valid() && py < hsize + sy && px < |Lines()[py].utf8|
      modifies live
      ensures Valid()
      ensures Lines() == old(Lines())[py := old(Lines())[py].(utf8 := old(Lines())[py].utf8[px := gu])]
    {
      hide Owned;
      Fine(Used(), live, py);
      OthersApart(Used(), live, py);
      linedata[py].utf8data[px] := gu;
    }

    // The character at px of a line, as grid_get_utf8 gives it.
    method CharAt(px: nat, py: nat) returns (gu: GridUtf8)
      requires Valid() && py < hsize + sy && px < |Lines()[py].utf8|
      ensures gu == Lines()[py].utf8[px]
    {
      hide Owned;
      Fine(Used(), live, py);
      gu := linedata[py].utf8data[px];
    }

    // Whether a line goes on in the next.
    method SetWrapped(py: nat, wrapped: bool)
      requires Valid() && py < hsize + sy
      modifies this`linedata, this`live
      ensures Valid() && live <= old(live)
      ensures Lines() == old(Lines())[py := old(Lines())[py].(wrapped := wrapped)]
    {
      hide Owned;
      Fine(Used(), live, py);
      ReplaceLine(py, linedata[py].(wrapped := wrapped));
    }

    // The loop over the lines, from py on and before end.
    method ClearEach(px: nat, py: nat, nx: nat, end: nat)
      requires Valid() && px < U32 && nx < U32 && end <= hsize + sy
      modifies this`linedata, this`live, live
      ensures Valid() && live <= old(live)
      ensures Lines() == if py < end then ClearedRows(old(Lines()), px, Wrap(px + nx), py, end - py) else old(Lines())
    {
      hide Owned, Buffers, Val, OkLine, ClearedCells, ClearedRows, Wrap;
      ghost var vs := Lines();
      if py < end {
        ClearedRowsNone(vs, px, Wrap(px + nx), py);
      }
      var yy := py;
      while yy < end
        invariant py <= yy && (if py < end then yy <= end else yy == py)
        invariant Valid() && live <= old(live)
        invariant Lines() == if py < end then ClearedRows(vs, px, Wrap(px + nx), py, yy - py) else vs
      {
        ClearedRowsNext(vs, px, Wrap(px + nx), py, yy - py);
        ClearRow(px, yy, nx);
        yy := yy + 1;
      }
    }

    // grid_clear: clear an area. Counts that wrap past the end of u_int clear
    // nothing; clearing at the end of a line cuts it.
    method Clear(px: nat, py: nat, nx: nat, ny: nat)
      requires Valid() && px < U32 && py < U32 && nx < U32 && ny < U32
      modifies this`linedata, this`live, live
      ensures Valid() && live <= old(live)
      ensures Lines() == if nx == 0 || py + ny > hsize + sy then old(Lines())
                         else if px == 0 && nx == sx then ClearedLines(old(Lines()), EMPTY, py, ny)
                         else ClearedRows(old(Lines()), px, Wrap(px + nx), py, ny)
      ensures px == 0 && nx == sx ==>
                Used() == if py + ny <= hsize + sy then ClearedLines(old(Used()), BLANK, py, ny) else old(Used())
    {
      hide Owned, Buffers, Val, OkLine, ClearedCells, ClearedRows, ClearedLines;
      if nx == 0 || ny == 0 {
        if py + ny <= hsize + sy {
          ClearedRowsNone(Lines(), px, Wrap(px + nx), py);
          ClearedNone(Lines(), EMPTY, py);
          ClearedNone(Used(), BLANK, py);
        }
        return;
      }
      if px == 0 && nx == sx {
        ClearLines(py, ny);
        return;
      }
      if py >= hsize + sy || Wrap(py + ny - 1) >= hsize + sy {
        return;
      }
      assert if py + ny <= hsize + sy then Wrap(py + ny) == py + ny else Wrap(py + ny) <= py;
      ClearEach(px, py, nx, Wrap(py + ny));
    }

    // The body of the loop in grid_clear.
    method ClearRow(px: nat, yy: nat, nx: nat)
      requires Valid() && px < U32 && nx < U32 && yy < hsize + sy
      modifies this`linedata, this`live, live
      ensures Valid() && live <= old(live)
      ensures Lines() == old(Lines())[yy := ClearedCells(old(Lines())[yy], px, Wrap(px + nx))]
    {
      hide Owned, Buffers;
      Fine(Used(), live, yy);
      ghost var v := Lines()[yy];
      assert v == Val(linedata[yy]);
      if px >= linedata[yy].cellsize {
        return;
      }
      if Wrap(px + nx) >= linedata[yy].cellsize {
        CutRow(px, yy);
        return;
      }
      if px < Wrap(px + nx) {
        ClearedStep(v, px, px);
      }
      assert Lines()[yy] == ClearedCells(v, px, px);
      var xx := px;
      while xx < Wrap(px + nx)
        invariant px <= xx && (xx == px || xx <= Wrap(px + nx)) && Valid() && live == old(live)
        invariant linedata == old(linedata)
        invariant Lines() == old(Lines())[yy := ClearedCells(v, px, xx)]
      {
        if xx >= linedata[yy].cellsize {
          break;
        }
        ClearedStep(v, px, xx);
        PutCell(xx, yy, DEFAULT);
        xx := xx + 1;
      }
    }

    method CutRow(px: nat, yy: nat)
      requires Valid() && yy < hsize + sy && px < |Lines()[yy].cells|
      modifies this`linedata, this`live
      ensures Valid() && live <= old(live)
      ensures Lines() == old(Lines())[yy := old(Lines())[yy].(cells := old(Lines())[yy].cells[..px])]
    {
      hide Owned;
      Fine(Used(), live, yy);
      var shorter := linedata[yy].(cellsize := px);
      assert Val(shorter).cells == Val(linedata[yy]).cells[..px];
      ReplaceLine(yy, shorter);
    }

    // grid_move_cells
    method MoveCells(dx: nat, px: nat, py: nat, nx: nat)
      requires Valid() && px + nx < U32 && dx + nx < U32
      modifies this`linedata, this`live, live
      ensures Valid() && fresh(live - old(live))
      ensures nx == 0 || px == dx || py >= hsize + sy ==> Lines() == old(Lines())
      ensures nx != 0 && px != dx && py < hsize + sy ==>
                Lines() == old(Lines())[py := Lines()[py]] && CellsMoved(old(Lines())[py], Lines()[py], dx, px, nx)
    {
      hide Owned, Buffers, Val, OkLine, MovedCells, CharsMoved, Padded;
      if nx == 0 || px == dx || py >= hsize + sy {
        return;
      }
      ExpandLine(py, px + nx);
      ExpandLine(py, dx + nx);
      CopyCells(dx, px, py, nx);
      ghost var copied := Lines()[py].cells;
      MoveChars(dx, px, py, nx);
      WipeMoved(dx, px, py, nx);
      MovedByParts(old(Lines())[py], copied, Lines()[py].cells, dx, px, nx);
    }

    // Cells that moved leave defaults where nothing moved onto them.
    method WipeMoved(dx: nat, px: nat, py: nat, nx: nat)
      requires Valid() && py < hsize + sy && px + nx <= |Lines()[py].cells|
      modifies live
      ensures Valid()
      ensures Lines() == old(Lines())[py := old(Lines())[py].(cells := Lines()[py].cells)]
      ensures |Lines()[py].cells| == |old(Lines())[py].cells|
      ensures forall k :: 0 <= k < |Lines()[py].cells| ==>
                Lines()[py].cells[k] == if px <= k < px + nx && !(dx <= k < dx + nx) then DEFAULT
                                        else old(Lines())[py].cells[k]
    {
      hide Owned, Buffers, Val, OkLine;
      ghost var v := Lines()[py];
      var xx := px;
      while xx < px + nx
        invariant px <= xx <= px + nx && Valid()
        invariant Lines() == old(Lines())[py := v.(cells := Lines()[py].cells)]
        invariant |Lines()[py].cells| == |v.cells|
        invariant forall k :: 0 <= k < |v.cells| ==>
                    Lines()[py].cells[k] == if px <= k < xx && !(dx <= k < dx + nx) then DEFAULT else v.cells[k]
      {
        if !(dx <= xx < dx + nx) {
          PutCell(xx, py, DEFAULT);
        }
        xx := xx + 1;
      }
    }

    method CopyCells(dx: nat, px: nat, py: nat, nx: nat)
      requires Valid() && py < hsize + sy && 0 < nx && px + nx <= |Lines()[py].cells| && dx + nx <= |Lines()[py].cells|
      modifies live
      ensures Valid()
      ensures Lines() == old(Lines())[py := old(Lines())[py].(cells := Copied(old(Lines())[py].cells, dx, px, nx))]
    {
      hide Owned;
      Fine(Used(), live, py);
      OthersApart(Used(), live, py);
      var cells := linedata[py].celldata;
      CopyWithin(cells, linedata[py].cellsize, dx, px, nx);
    }

    // The part of grid_move_cells for characters kept apart.
    method MoveChars(dx: nat, px: nat, py: nat, nx: nat)
      requires Valid() && py < hsize + sy && 0 < nx
      modifies this`linedata, this`live, live
      ensures Valid() && fresh(live - old(live))
      ensures Lines() == old(Lines())[py := old(Lines())[py].(utf8 := Lines()[py].utf8)]
      ensures CharsMoved(old(Lines())[py].utf8, Lines()[py].utf8, dx, px, nx)
    {
      hide Owned, Copied;
      Fine(Used(), live, py);
      assert Lines()[py] == Val(linedata[py]);
      if linedata[py].utf8data != null {
        ExpandLineUtf8(py, px + nx);
        ExpandLineUtf8(py, dx + nx);
        CopiedChars(old(Lines())[py].utf8, Lines()[py].utf8, dx, px, nx);
        CopyChars(dx, px, py, nx);
      }
    }

    method CopyChars(dx: nat, px: nat, py: nat, nx: nat)
      requires Valid() && py < hsize + sy && 0 < nx && px + nx <= |Lines()[py].utf8| && dx + nx <= |Lines()[py].utf8|
      modifies live
      ensures Valid()
      ensures Lines() == old(Lines())[py := old(Lines())[py].(utf8 := Copied(old(Lines())[py].utf8, dx, px, nx))]
    {
      hide Owned;
      Fine(Used(), live, py);
      OthersApart(Used(), live, py);
      var chars := linedata[py].utf8data;
      CopyWithin(chars, linedata[py].utf8size, dx, px, nx);
    }
  }

  lemma Fine(ls: seq<GridLine>, live: set<object>, i: nat)
    requires Owned(ls, live) && i < |ls|
    ensures OkLine(ls[i]) && Buffers(ls[i]) <= live
  {
  }

  lemma OthersApart(ls: seq<GridLine>, live: set<object>, i: nat)
    requires Owned(ls, live) && i < |ls|
    ensures forall k :: 0 <= k < |ls| && k != i ==> OkLine(ls[k]) && Buffers(ls[k]) !! Buffers(ls[i])
  {
    hide Buffers, OkLine, Unshared;
    forall k | 0 <= k < |ls| && k != i ensures Buffers(ls[k]) !! Buffers(ls[i]) {
      Apart(ls, k, i);
    }
  }

  // realloc: what the memory beyond the old holds is not known.
  method Reallocated<T(0)>(a: array?<T>, used: nat, n: nat) returns (b: array<T>)
    requires used <= n && if a == null then used == 0 else used <= a.Length
    ensures fresh(b) && b.Length == n
    ensures a != null ==> b[..used] == a[..used]
  {
    b := new T[n];
    if a != null {
      forall k | 0 <= k < used {
        b[k] := a[k];
      }
    }
  }

  // memmove within an array.
  method CopyWithin<T>(a: array<T>, size: nat, dst: nat, src: nat, n: nat)
    requires dst + n <= size <= a.Length && src + n <= size
    modifies a
    ensures a[..size] == Copied(old(a[..size]), dst, src, n)
  {
    forall k | dst <= k < dst + n {
      a[k] := a[src + k - dst];
    }
  }

  // Cells reallocated and the new ones set to the default.
  method Lengthened(a: array?<GridCell>, used: nat, n: nat) returns (b: array<GridCell>)
    requires used <= n && if a == null then used == 0 else used <= a.Length
    ensures fresh(b)
    ensures b[..] == (if a == null then [] else a[..used]) + Filled(n - used, DEFAULT)
  {
    b := Reallocated(a, used, n);
    ghost var kept := b[..used];
    var xx := used;
    while xx < n
      invariant used <= xx <= n && b[..used] == kept
      invariant forall k :: used <= k < xx ==> b[k] == DEFAULT
    {
      b[xx] := DEFAULT;
      xx := xx + 1;
    }
  }
}
