// The lines of a grid: what a line's buffers hold, and who owns them.
module GridLines {
  datatype Flag = Fg256 | Bg256 | Padding | Utf8
  datatype Attr = Bright | Dim | Underscore | Blink | Reverse | Hidden | Italics | Charset

  datatype GridCell = GridCell(attr: set<Attr>, flags: set<Flag>, fg: nat, bg: nat, data: nat)

  const DEFAULT := GridCell({}, {}, 8, 8, 32)

  // A character of several bytes; the width is in columns.
  datatype GridUtf8 = GridUtf8(width: nat, data: seq<nat>)

  datatype GridLine = GridLine(cellsize: nat, celldata: array?<GridCell>,
                               utf8size: nat, utf8data: array?<GridUtf8>, wrapped: bool)

  const BLANK := GridLine(0, null, 0, null, false)

  // What a line holds, whatever the buffers it holds it in.
  datatype LineVal = LineVal(cells: seq<GridCell>, utf8: seq<GridUtf8>, wrapped: bool)

  const EMPTY := LineVal([], [], false)

  // What is seen in a column: cells past the end of a line read as default.
  function Peek(v: LineVal, px: nat): GridCell {
    if px < |v.cells| then v.cells[px] else DEFAULT
  }

  // A column with the character it shows, which is kept apart from its cell
  // when it takes several bytes.
  datatype Seen = Single(cell: GridCell) | Multi(cell: GridCell, mark: GridUtf8)

  function Look(v: LineVal, px: nat): Seen {
    if px >= |v.cells| then Single(DEFAULT)
    else if Utf8 in v.cells[px].flags && px < |v.utf8| then Multi(v.cells[px], v.utf8[px])
    else Single(v.cells[px])
  }

  // Every cell whose character is kept apart has a place for it.
  predicate Slots(v: LineVal) {
    forall x :: 0 <= x < |v.cells| && Utf8 in v.cells[x].flags ==> x < |v.utf8|
  }

  // A line long enough to have nx cells.
  function Padded(v: LineVal, nx: nat): (r: LineVal)
    ensures nx <= |r.cells| && |v.cells| <= |r.cells| && r.utf8 == v.utf8 && r.wrapped == v.wrapped
  {
    if nx <= |v.cells| then v else v.(cells := v.cells + Filled(nx - |v.cells|, DEFAULT))
  }

  lemma PaddedLooks(v: LineVal, nx: nat, x: nat)
    ensures Look(Padded(v, nx), x) == Look(v, x)
  {
  }

  function Put(v: LineVal, px: nat, gc: GridCell): LineVal {
    var p := Padded(v, px + 1);
    p.(cells := p.cells[px := gc])
  }

  // A line to which the character gu was added in column px; what the other
  // new places hold is not known.
  predicate CharPut(v: LineVal, w: LineVal, px: nat, gu: GridUtf8) {
    && w.cells == v.cells && w.wrapped == v.wrapped
    && |w.utf8| == (if px < |v.utf8| then |v.utf8| else px + 1) && w.utf8[px] == gu
    && forall x :: 0 <= x < |v.utf8| && x != px ==> w.utf8[x] == v.utf8[x]
  }

  // Clearing the columns from px to end; at the end of a line this cuts it.
  function ClearedCells(v: LineVal, px: nat, end: nat): LineVal {
    if px >= |v.cells| then v
    else if end >= |v.cells| then v.(cells := v.cells[..px])
    else v.(cells := ClearedLines(v.cells, DEFAULT, px, if px <= end then end - px else 0))
  }

  lemma ClearedStep(v: LineVal, px: nat, end: nat)
    requires px <= end && end + 1 < |v.cells|
    ensures |ClearedCells(v, px, end).cells| == |v.cells|
    ensures ClearedCells(v, px, px) == v
    ensures ClearedCells(v, px, end + 1)
            == ClearedCells(v, px, end).(cells := ClearedCells(v, px, end).cells[end := DEFAULT])
  {
  }

  lemma ClearedLooks(v: LineVal, px: nat, nx: nat, x: nat)
    ensures Look(ClearedCells(v, px, px + nx), x) == if px <= x < px + nx then Single(DEFAULT) else Look(v, x)
  {
  }

  function ClearedRows(ls: seq<LineVal>, px: nat, end: nat, py: nat, ny: nat): (r: seq<LineVal>)
    requires py + ny <= |ls|
    ensures |r| == |ls|
    ensures forall k :: 0 <= k < |ls| ==> r[k] == if py <= k < py + ny then ClearedCells(ls[k], px, end) else ls[k]
  {
    seq(|ls|, k requires 0 <= k < |ls| => if py <= k < py + ny then ClearedCells(ls[k], px, end) else ls[k])
  }

  lemma ClearedRowsNone(ls: seq<LineVal>, px: nat, end: nat, py: nat)
    requires py <= |ls|
    ensures ClearedRows(ls, px, end, py, 0) == ls
  {
    hide ClearedCells;
  }

  lemma ClearedRowsNext(ls: seq<LineVal>, px: nat, end: nat, py: nat, ny: nat)
    requires py + ny < |ls|
    ensures ClearedRows(ls, px, end, py, ny)[py + ny] == ls[py + ny]
    ensures ClearedRows(ls, px, end, py, ny)[py + ny := ClearedCells(ls[py + ny], px, end)]
            == ClearedRows(ls, px, end, py, ny + 1)
  {
    hide ClearedCells;
  }

  // The cells of v, px on and nx of them, moved to dx on.
  function MovedCells(v: LineVal, dx: nat, px: nat, nx: nat): seq<GridCell> {
    MovedLines(Padded(Padded(v, px + nx), dx + nx).cells, DEFAULT, dx, px, nx)
  }

  // The character that was in a column is now where its cell is.
  predicate CharMoved(before: seq<GridUtf8>, after: seq<GridUtf8>, dx: nat, px: nat, nx: nat, x: nat) {
    var from := if dx <= x < dx + nx then px + x - dx else x;
    from < |before| ==> x < |after| && after[x] == before[from]
  }

  // The characters moved with the cells; what else new places hold is not known.
  ghost predicate CharsMoved(before: seq<GridUtf8>, after: seq<GridUtf8>, dx: nat, px: nat, nx: nat) {
    forall x: nat :: CharMoved(before, after, dx, px, nx, x)
  }

  lemma CopiedChars(before: seq<GridUtf8>, longer: seq<GridUtf8>, dx: nat, px: nat, nx: nat)
    requires before <= longer && dx + nx <= |longer| && px + nx <= |longer|
    ensures CharsMoved(before, Copied(longer, dx, px, nx), dx, px, nx)
  {
  }

  ghost predicate CellsMoved(v: LineVal, w: LineVal, dx: nat, px: nat, nx: nat) {
    w.cells == MovedCells(v, dx, px, nx) && w.wrapped == v.wrapped && CharsMoved(v.utf8, w.utf8, dx, px, nx)
  }

  // Moving is copying, then wiping what was moved.
  lemma MovedByParts(v: LineVal, copied: seq<GridCell>, wiped: seq<GridCell>, dx: nat, px: nat, nx: nat)
    requires copied == Copied(Padded(Padded(v, px + nx), dx + nx).cells, dx, px, nx) && |wiped| == |copied|
    requires forall k :: 0 <= k < |wiped| ==>
               wiped[k] == if px <= k < px + nx && !(dx <= k < dx + nx) then DEFAULT else copied[k]
    ensures wiped == MovedCells(v, dx, px, nx)
  {
  }

  lemma MovedPeek(v: LineVal, w: LineVal, dx: nat, px: nat, nx: nat, x: nat)
    requires w.cells == MovedCells(v, dx, px, nx)
    ensures Peek(w, x) == if dx <= x < dx + nx then Peek(v, px + x - dx)
                          else if px <= x < px + nx then DEFAULT else Peek(v, x)
  {
    var p := Padded(Padded(v, px + nx), dx + nx);
    assert forall k :: 0 <= k < |p.cells| ==> p.cells[k] == Peek(v, k);
    assert dx <= x < dx + nx ==> w.cells[x] == p.cells[px + x - dx];
  }

  // Every column moves with its character, and the columns left are default.
  lemma MovedLooks(v: LineVal, w: LineVal, dx: nat, px: nat, nx: nat, x: nat)
    requires Slots(v) && CellsMoved(v, w, dx, px, nx)
    ensures x < |w.cells| && Utf8 in w.cells[x].flags ==> x < |w.utf8|
    ensures Look(w, x) == if dx <= x < dx + nx then Look(v, px + x - dx)
                          else if px <= x < px + nx then Single(DEFAULT) else Look(v, x)
  {
    hide MovedCells;
    MovedPeek(v, w, dx, px, nx, x);
    var from := if dx <= x < dx + nx then px + x - dx else x;
    assert CharMoved(v.utf8, w.utf8, dx, px, nx, x);
  }

  lemma MovedSlots(v: LineVal, w: LineVal, dx: nat, px: nat, nx: nat)
    requires Slots(v) && CellsMoved(v, w, dx, px, nx)
    ensures Slots(w)
  {
    hide MovedCells, CellsMoved;
    forall x | 0 <= x < |w.cells| && Utf8 in w.cells[x].flags ensures x < |w.utf8| {
      MovedLooks(v, w, dx, px, nx, x);
    }
  }

  predicate OkLine(l: GridLine) {
    && (if l.celldata == null then l.cellsize == 0 else l.cellsize <= l.celldata.Length)
    && (if l.utf8data == null then l.utf8size == 0 else l.utf8size <= l.utf8data.Length)
  }

  ghost function Buffers(l: GridLine): set<object> {
    var cells: set<object> := if l.celldata == null then {} else {l.celldata};
    var chars: set<object> := if l.utf8data == null then {} else {l.utf8data};
    cells + chars
  }

  ghost function Val(l: GridLine): LineVal
    requires OkLine(l)
    reads Buffers(l)
  {
    LineVal(if l.celldata == null then [] else l.celldata[..l.cellsize],
            if l.utf8data == null then [] else l.utf8data[..l.utf8size], l.wrapped)
  }

  ghost predicate LinesOk(ls: seq<GridLine>, live: set<object>) {
    forall i :: 0 <= i < |ls| ==> OkLine(ls[i]) && Buffers(ls[i]) <= live
  }

  ghost predicate Unshared(ls: seq<GridLine>) {
    forall i, j :: 0 <= i < j < |ls| ==> Buffers(ls[i]) !! Buffers(ls[j])
  }

  ghost predicate NoneLost(ls: seq<GridLine>, live: set<object>) {
    forall o :: o in live ==> exists i :: 0 <= i < |ls| && o in Buffers(ls[i])
  }

  // Every line is well formed, no buffer belongs to two lines, and the live
  // buffers are exactly those of the lines: none lost, none freed twice.
  ghost predicate Owned(ls: seq<GridLine>, live: set<object>) {
    LinesOk(ls, live) && Unshared(ls) && NoneLost(ls, live)
  }

  ghost function ValsOf(ls: seq<GridLine>, live: set<object>): (vs: seq<LineVal>)
    requires Owned(ls, live)
    reads live
    ensures |vs| == |ls| && forall i :: 0 <= i < |ls| ==> vs[i] == Val(ls[i])
  {
    seq(|ls|, i requires 0 <= i < |ls| reads live => Val(ls[i]))
  }

  // ------------------------------------------------------------------
  // The effect of line operations

  // Lines py on, ny of them, copied to dy on; those they leave become blank.
  function MovedLines<T>(ls: seq<T>, blank: T, dy: nat, py: nat, ny: nat): (r: seq<T>)
    requires dy + ny <= |ls| && py + ny <= |ls|
    ensures |r| == |ls|
    ensures forall k :: 0 <= k < |ls| ==>
              r[k] == if dy <= k < dy + ny then ls[py + k - dy] else if py <= k < py + ny then blank else ls[k]
  {
    seq(|ls|, k requires 0 <= k < |ls| =>
      if dy <= k < dy + ny then ls[py + k - dy] else if py <= k < py + ny then blank else ls[k])
  }

  lemma MovedNowhere<T>(ls: seq<T>, blank: T, dy: nat, py: nat, ny: nat)
    requires dy + ny <= |ls| && py + ny <= |ls| && (ny == 0 || dy == py)
    ensures MovedLines(ls, blank, dy, py, ny) == ls
  {
  }

  function ClearedLines<T>(ls: seq<T>, blank: T, py: nat, ny: nat): (r: seq<T>)
    requires py + ny <= |ls|
    ensures |r| == |ls|
    ensures forall k :: 0 <= k < |ls| ==> r[k] == if py <= k < py + ny then blank else ls[k]
  {
    seq(|ls|, k requires 0 <= k < |ls| => if py <= k < py + ny then blank else ls[k])
  }

  lemma ClearedNone<T>(ls: seq<T>, blank: T, py: nat)
    requires py <= |ls|
    ensures ClearedLines(ls, blank, py, 0) == ls
  {
  }

  // The line at upper joins the history, and the lines of its region below it
  // move up.
  function IntoHistory<T>(ls: seq<T>, blank: T, hsize: nat, upper: nat, lower: nat): (r: seq<T>)
    requires hsize <= upper <= lower < |ls|
    ensures |r| == |ls| + 1
    ensures forall k :: 0 <= k < |r| ==>
              r[k] == if k < hsize || upper < k <= lower then ls[k] else if k == hsize then ls[upper]
                      else if k == lower + 1 then blank else ls[k - 1]
  {
    seq(|ls| + 1, k requires 0 <= k <= |ls| =>
      if k < hsize || upper < k <= lower then ls[k] else if k == hsize then ls[upper]
      else if k == lower + 1 then blank else ls[k - 1])
  }

  function Filled<T>(n: nat, x: T): (r: seq<T>)
    ensures |r| == n && forall k :: 0 <= k < n ==> r[k] == x
  {
    seq(n, _ => x)
  }

  // Memory moved within an array of lines.
  function Copied<T>(ls: seq<T>, dst: nat, src: nat, n: nat): (r: seq<T>)
    requires dst + n <= |ls| && src + n <= |ls|
    ensures |r| == |ls|
    ensures forall k :: 0 <= k < |ls| ==> r[k] == if dst <= k < dst + n then ls[src + k - dst] else ls[k]
  {
    seq(|ls|, k requires 0 <= k < |ls| => if dst <= k < dst + n then ls[src + k - dst] else ls[k])
  }

  // ------------------------------------------------------------------
  // Ownership through line operations

  lemma BlankLine()
    ensures OkLine(BLANK) && Buffers(BLANK) == {} && Val(BLANK) == EMPTY
  {
  }

  lemma Apart(ls: seq<GridLine>, i: nat, j: nat)
    requires Unshared(ls) && i < |ls| && j < |ls| && i != j
    ensures Buffers(ls[i]) !! Buffers(ls[j])
  {
  }

  lemma UnsharedIntro(ls: seq<GridLine>)
    requires forall i, j :: 0 <= i < j < |ls| ==> Buffers(ls[i]) !! Buffers(ls[j])
    ensures Unshared(ls)
  {
  }

  // A line whose buffers are its own may take the place of another.
  lemma ReplaceOwned(ls: seq<GridLine>, live: set<object>, i: nat, l: GridLine)
    requires Owned(ls, live) && i < |ls| && OkLine(l)
    requires Buffers(l) !! (live - Buffers(ls[i]))
    ensures Owned(ls[i := l], live - Buffers(ls[i]) + Buffers(l))
  {
    hide Buffers, OkLine, Unshared;
    var r, left := ls[i := l], live - Buffers(ls[i]) + Buffers(l);
    forall j | 0 <= j < |r| ensures OkLine(r[j]) && Buffers(r[j]) <= left {
      if j != i {
        Apart(ls, i, j);
      }
    }
    forall j, k | 0 <= j < k < |r| ensures Buffers(r[j]) !! Buffers(r[k]) {
      Apart(ls, j, k);
      if j == i {
        Apart(ls, i, k);
      } else if k == i {
        Apart(ls, j, i);
      }
    }
    UnsharedIntro(r);
    forall o | o in left ensures exists j :: 0 <= j < |r| && o in Buffers(r[j]) {
      if o in Buffers(l) {
        assert o in Buffers(r[i]);
      } else {
        var j :| 0 <= j < |ls| && o in Buffers(ls[j]);
        assert r[j] == ls[j];
      }
    }
  }

  // Freeing a line's buffers.
  lemma FreeLine(ls: seq<GridLine>, live: set<object>, i: nat)
    requires Owned(ls, live) && i < |ls|
    ensures Owned(ls[i := BLANK], live - Buffers(ls[i]))
  {
    hide Buffers, OkLine, Owned;
    BlankLine();
    ReplaceOwned(ls, live, i, BLANK);
    assert live - Buffers(ls[i]) + Buffers(BLANK) == live - Buffers(ls[i]);
  }

  // r is made of lines of ls, each used once, and blanks; what is not used is
  // blank. Line k of r is line from[k] of ls, or blank when that is -1.
  ghost predicate Rearranged(ls: seq<GridLine>, r: seq<GridLine>, from: seq<int>) {
    && |from| == |r|
    && (forall k :: 0 <= k < |r| ==> -1 <= from[k] < |ls| && r[k] == if from[k] == -1 then BLANK else ls[from[k]])
    && (forall j, k :: 0 <= j < k < |r| && from[j] != -1 ==> from[j] != from[k])
    && (forall i :: 0 <= i < |ls| ==> ls[i] == BLANK || i in from)
  }

  // Shuffling lines leaves every buffer with its one owner.
  lemma RearrangedOwned(ls: seq<GridLine>, live: set<object>, r: seq<GridLine>, from: seq<int>)
    requires Owned(ls, live) && Rearranged(ls, r, from)
    ensures Owned(r, live)
  {
    hide Buffers, OkLine, Unshared;
    BlankLine();
    assert LinesOk(r, live);
    forall j, k | 0 <= j < k < |r| ensures Buffers(r[j]) !! Buffers(r[k]) {
      if from[j] != -1 && from[k] != -1 {
        Apart(ls, from[j], from[k]);
      }
    }
    UnsharedIntro(r);
    forall o | o in live ensures exists k :: 0 <= k < |r| && o in Buffers(r[k]) {
      var i :| 0 <= i < |ls| && o in Buffers(ls[i]);
      var k :| 0 <= k < |from| && from[k] == i;
      assert r[k] == ls[i];
    }
  }

  // Moving lines to places whose lines have been freed, and wiping where they
  // came from.
  lemma MoveOwned(ls: seq<GridLine>, live: set<object>, dy: nat, py: nat, ny: nat)
    requires Owned(ls, live) && dy + ny <= |ls| && py + ny <= |ls|
    requires forall k :: dy <= k < dy + ny && !(py <= k < py + ny) ==> ls[k] == BLANK
    ensures Owned(MovedLines(ls, BLANK, dy, py, ny), live)
  {
    hide Owned, Buffers;
    var r := MovedLines(ls, BLANK, dy, py, ny);
    var from := seq(|ls|, k requires 0 <= k < |ls| =>
      if dy <= k < dy + ny then py + k - dy else if py <= k < py + ny then -1 else k);
    forall i | 0 <= i < |ls| ensures ls[i] == BLANK || i in from {
      if py <= i < py + ny {
        assert from[dy + i - py] == i;
      } else if !(dy <= i < dy + ny) {
        assert from[i] == i;
      }
    }
    RearrangedOwned(ls, live, r, from);
  }

  // What is seen when lines are moved.
  lemma MovedVals(ls: seq<GridLine>, live: set<object>, r: seq<GridLine>, left: set<object>, dy: nat, py: nat, ny: nat)
    requires Owned(ls, live) && Owned(r, left) && dy + ny <= |ls| && py + ny <= |ls|
    requires r == MovedLines(ls, BLANK, dy, py, ny)
    ensures ValsOf(r, left) == MovedLines(ValsOf(ls, live), EMPTY, dy, py, ny)
  {
    hide Owned, Buffers, Val, OkLine;
    BlankLine();
    var vs, moved := ValsOf(r, left), MovedLines(ValsOf(ls, live), EMPTY, dy, py, ny);
    forall k | 0 <= k < |ls| ensures vs[k] == moved[k] {
    }
  }

  // From n on there is nothing.
  predicate AllBlank<T(==)>(ls: seq<T>, blank: T, n: nat) {
    forall k :: n <= k < |ls| ==> ls[k] == blank
  }

  // Blank lines may be cut off the end.
  lemma CutOwned(ls: seq<GridLine>, live: set<object>, n: nat)
    requires Owned(ls, live) && n <= |ls| && AllBlank(ls, BLANK, n)
    ensures Owned(ls[..n], live)
  {
    hide Owned, Buffers;
    var from := seq(n, k => k);
    assert forall i :: 0 <= i < n ==> from[i] == i;
    RearrangedOwned(ls, live, ls[..n], from);
  }

  // Blank lines may be added at the end.
  lemma GrowOwned(ls: seq<GridLine>, live: set<object>, n: nat)
    requires Owned(ls, live)
    ensures Owned(ls + Filled(n, BLANK), live)
  {
    hide Owned, Buffers;
    var r := ls + Filled(n, BLANK);
    var from := seq(|r|, k => if k < |ls| then k else -1);
    forall i | 0 <= i < |ls| ensures i in from {
      assert from[i] == i;
    }
    RearrangedOwned(ls, live, r, from);
  }

  lemma HistoryOwned(ls: seq<GridLine>, live: set<object>, hsize: nat, upper: nat, lower: nat)
    requires Owned(ls, live) && hsize <= upper <= lower < |ls|
    ensures Owned(IntoHistory(ls, BLANK, hsize, upper, lower), live)
  {
    hide Owned, Buffers;
    var r := IntoHistory(ls, BLANK, hsize, upper, lower);
    var from := IntoHistory(seq(|ls|, k => k), -1, hsize, upper, lower);
    HistoryFrom(|ls|, hsize, upper, lower, from);
    assert forall k :: 0 <= k < |r| ==> r[k] == if from[k] == -1 then BLANK else ls[from[k]];
    RearrangedOwned(ls, live, r, from);
  }

  // Where the lines come from: each from one place, and none is left out.
  lemma HistoryFrom(n: nat, hsize: nat, upper: nat, lower: nat, from: seq<int>)
    requires hsize <= upper <= lower < n && from == IntoHistory(seq(n, k => k), -1, hsize, upper, lower)
    ensures forall k :: 0 <= k < |from| ==> -1 <= from[k] < n
    ensures forall j, k :: 0 <= j < k < |from| && from[j] != -1 ==> from[j] != from[k]
    ensures forall i :: 0 <= i < n ==> i in from
  {
    var all := seq(n, k => k);
    assert forall k :: 0 <= k < n ==> all[k] == k;
    forall i | 0 <= i < n ensures i in from {
      assert from[if i < hsize || upper < i <= lower then i else if i == upper then hsize else i + 1] == i;
    }
  }

  lemma HistoryVals(ls: seq<GridLine>, live: set<object>, hsize: nat, upper: nat, lower: nat)
    requires Owned(ls, live) && hsize <= upper <= lower < |ls|
    ensures Owned(IntoHistory(ls, BLANK, hsize, upper, lower), live)
    ensures ValsOf(IntoHistory(ls, BLANK, hsize, upper, lower), live)
            == IntoHistory(ValsOf(ls, live), EMPTY, hsize, upper, lower)
  {
    hide Owned, Buffers, Val, OkLine;
    BlankLine();
    HistoryOwned(ls, live, hsize, upper, lower);
  }
}
