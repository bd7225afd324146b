// Wide characters in a row of a grid, and the padding after them.
module Padding {
  import opened Common
  import opened GridLines

  predicate Pad(v: LineVal, x: nat) {
    Flag.Padding in Peek(v, x).flags
  }

  // The columns that the character in a cell covers.
  function Width(v: LineVal, x: nat): nat {
    match Look(v, x)
    case Single(_) => 1
    case Multi(_, mark) => mark.width
  }

  // The column that the padding at x, if it is that, goes back to.
  function Head(v: LineVal, x: nat): (h: nat)
    ensures h <= x
  {
    if x == 0 || !Pad(v, x) then x else Head(v, x - 1)
  }

  // Column x is covered by one character, and the rest of that is padding.
  ghost predicate Covered(v: LineVal, sx: nat, x: nat) {
    var h := Head(v, x);
    && !Pad(v, h) && 1 <= Width(v, h) <= UTF8_SIZE && x < h + Width(v, h) <= sx
    && forall i :: h < i < h + Width(v, h) ==> Pad(v, i)
  }

  ghost predicate RowOk(v: LineVal, sx: nat) {
    Slots(v) && forall x: nat :: x < sx ==> Covered(v, sx, x)
  }

  lemma {:induction false} HeadIs(v: LineVal, h: nat, x: nat)
    requires h <= x && (h == 0 || !Pad(v, h)) && forall i :: h < i <= x ==> Pad(v, i)
    ensures Head(v, x) == h
    decreases x
  {
    if h < x {
      HeadIs(v, h, x - 1);
    }
  }

  lemma {:induction false} HeadRun(v: LineVal, x: nat)
    ensures forall i :: Head(v, x) < i <= x ==> Pad(v, i)
    ensures Head(v, x) > 0 ==> !Pad(v, Head(v, x))
    decreases x
  {
    if x != 0 && Pad(v, x) {
      HeadRun(v, x - 1);
    }
  }

  // A character that covers w columns is followed by exactly w - 1 columns of
  // padding, and padding belongs to such a character.
  lemma ExactPadding(v: LineVal, sx: nat, x: nat)
    requires RowOk(v, sx) && x < sx
    ensures !Pad(v, x) ==>
              && 1 <= Width(v, x) && x + Width(v, x) <= sx
              && (forall i :: x < i < x + Width(v, x) ==> Pad(v, i))
              && (x + Width(v, x) < sx ==> !Pad(v, x + Width(v, x)))
    ensures Pad(v, x) ==> exists h :: 0 <= h < x && !Pad(v, h) && x < h + Width(v, h)
  {
    assert Covered(v, sx, x);
    HeadRun(v, x);
    if !Pad(v, x) {
      var y := x + Width(v, x);
      if y < sx {
        assert Covered(v, sx, y);
        HeadBack(v, x, y);
      }
    }
  }

  lemma HeadBack(v: LineVal, h: nat, x: nat)
    requires h <= x && !Pad(v, h) && forall i :: h < i < x ==> Pad(v, i)
    ensures Pad(v, x) ==> Head(v, x) == h
  {
    if Pad(v, x) {
      HeadIs(v, h, x);
    }
  }

  lemma EmptyRow(sx: nat)
    ensures RowOk(EMPTY, sx)
  {
  }

  // ------------------------------------------------------------------
  // Writing a character over what was there

  // Where padding from x on ends.
  function PadEnd(v: LineVal, sx: nat, x: nat): (b: nat)
    requires x <= sx
    ensures x <= b <= sx
    ensures forall i :: x <= i < b ==> Pad(v, i)
    ensures b < sx ==> !Pad(v, b)
    decreases sx - x
  {
    if x == sx || !Pad(v, x) then x else PadEnd(v, sx, x + 1)
  }

  // What is left of a character part of which is to be overwritten is cleared:
  // back to the start of the one at cx, and on to the end of the last.
  ghost predicate Overwritten(v: LineVal, w: LineVal, sx: nat, cx: nat, width: nat)
    requires cx + width <= sx
  {
    && w.utf8 == v.utf8 && w.wrapped == v.wrapped
    && forall x: nat ::
         Peek(w, x) == if Head(v, cx) <= x <= cx && Pad(v, cx) then DEFAULT
                       else if cx + width <= x < PadEnd(v, sx, cx + width) then DEFAULT else Peek(v, x)
  }

  ghost predicate ClearedBack(v: LineVal, w: LineVal, cx: nat) {
    && w.utf8 == v.utf8 && w.wrapped == v.wrapped
    && forall x: nat :: Peek(w, x) == if Head(v, cx) <= x <= cx then DEFAULT else Peek(v, x)
  }

  ghost predicate ClearedOn(v: LineVal, w: LineVal, sx: nat, from: nat)
    requires from <= sx
  {
    && w.utf8 == v.utf8 && w.wrapped == v.wrapped
    && forall x: nat :: Peek(w, x) == if from <= x < PadEnd(v, sx, from) then DEFAULT else Peek(v, x)
  }

  lemma {:induction false} PadEndSame(v: LineVal, w: LineVal, sx: nat, x: nat)
    requires x <= sx && forall i: nat :: x <= i ==> Peek(w, i) == Peek(v, i)
    ensures PadEnd(w, sx, x) == PadEnd(v, sx, x)
    decreases sx - x
  {
    if x < sx && Pad(v, x) {
      assert Peek(w, x) == Peek(v, x);
      PadEndSame(v, w, sx, x + 1);
    } else if x < sx {
      assert Peek(w, x) == Peek(v, x);
    }
  }

  lemma PadEndIs(v: LineVal, sx: nat, x: nat, b: nat)
    requires x <= b <= sx && (forall i :: x <= i < b ==> Pad(v, i)) && (b < sx ==> !Pad(v, b))
    ensures PadEnd(v, sx, x) == b
  {
  }

  lemma BothCleared(v: LineVal, u: LineVal, w: LineVal, sx: nat, cx: nat, width: nat)
    requires 1 <= width && cx + width <= sx && (if Pad(v, cx) then ClearedBack(v, u, cx) else u == v)
    requires ClearedOn(u, w, sx, cx + width)
    ensures Overwritten(v, w, sx, cx, width)
  {
    PadEndSame(v, u, sx, cx + width);
  }

  // A character put at cx, the other columns it covers made padding.
  ghost predicate CharacterPut(v: LineVal, w: LineVal, cx: nat, width: nat, gc: GridCell, gu: GridUtf8) {
    && |v.utf8| <= |w.utf8|
    && (Utf8 in gc.flags ==> cx < |w.utf8| && w.utf8[cx] == gu)
    && (forall x: nat :: x < |v.utf8| && (x != cx || Utf8 !in gc.flags) ==> w.utf8[x] == v.utf8[x])
    && forall x: nat ::
         Peek(w, x) == if x == cx then gc
                       else if cx < x < cx + width then Peek(v, x).(flags := Peek(v, x).flags + {Flag.Padding})
                       else Peek(v, x)
  }

  predicate Writable(gc: GridCell, gu: GridUtf8, width: nat) {
    Flag.Padding !in gc.flags && 1 <= width <= UTF8_SIZE && width == if Utf8 in gc.flags then gu.width else 1
  }

  // Writing a character, over whatever part of others, keeps the row in order.
  lemma WrittenOk(v: LineVal, u: LineVal, w: LineVal, sx: nat, cx: nat, width: nat, gc: GridCell, gu: GridUtf8)
    requires RowOk(v, sx) && cx + width <= sx && Writable(gc, gu, width)
    requires Overwritten(v, u, sx, cx, width) && CharacterPut(u, w, cx, width, gc, gu)
    ensures RowOk(w, sx)
  {
    forall x: nat | x < sx ensures Covered(w, sx, x) {
      if x < cx {
        BeforeOk(v, u, w, sx, cx, width, gc, gu, x);
      } else if x < cx + width {
        WithinOk(u, w, sx, cx, width, gc, gu, x);
      } else {
        AfterOk(v, u, w, sx, cx, width, gc, gu, x);
      }
    }
    WrittenSlots(v, u, w, sx, cx, width, gc, gu);
  }

  lemma WrittenSlots(v: LineVal, u: LineVal, w: LineVal, sx: nat, cx: nat, width: nat, gc: GridCell, gu: GridUtf8)
    requires Slots(v) && cx + width <= sx && Overwritten(v, u, sx, cx, width) && CharacterPut(u, w, cx, width, gc, gu)
    ensures Slots(w)
  {
    forall x: nat | x < |w.cells| && Utf8 in w.cells[x].flags ensures x < |w.utf8| {
      assert Peek(w, x) == w.cells[x];
    }
  }

  lemma WithinOk(u: LineVal, w: LineVal, sx: nat, cx: nat, width: nat, gc: GridCell, gu: GridUtf8, x: nat)
    requires cx <= x < cx + width <= sx && Writable(gc, gu, width) && CharacterPut(u, w, cx, width, gc, gu)
    ensures Covered(w, sx, x)
  {
    HeadIs(w, cx, x);
  }

  // A column keeps its character when the columns of that do not change.
  lemma SameCover(v: LineVal, w: LineVal, sx: nat, x: nat)
    requires Covered(v, sx, x)
    requires forall i: nat :: Head(v, x) <= i < Head(v, x) + Width(v, Head(v, x)) ==> Peek(w, i) == Peek(v, i)
    requires Width(w, Head(v, x)) == Width(v, Head(v, x))
    ensures Covered(w, sx, x)
  {
    var h := Head(v, x);
    assert Peek(w, h) == Peek(v, h);
    forall i: nat | h < i < h + Width(v, h) ensures Pad(w, i) {
      assert Peek(w, i) == Peek(v, i) && Pad(v, i);
    }
    HeadIs(w, h, x);
  }

  lemma BeforeOk(v: LineVal, u: LineVal, w: LineVal, sx: nat, cx: nat, width: nat, gc: GridCell, gu: GridUtf8, x: nat)
    requires RowOk(v, sx) && x < cx && cx + width <= sx && Writable(gc, gu, width)
    requires Overwritten(v, u, sx, cx, width) && CharacterPut(u, w, cx, width, gc, gu)
    ensures Covered(w, sx, x)
  {
    var h := Head(v, cx);
    assert Covered(v, sx, cx) && Covered(v, sx, x);
    if h <= x {
      assert Peek(w, x) == DEFAULT;
    } else {
      // The character over x ends before the one over cx.
      HeadRun(v, x);
      SameCover(v, w, sx, x);
    }
  }

  lemma AfterOk(v: LineVal, u: LineVal, w: LineVal, sx: nat, cx: nat, width: nat, gc: GridCell, gu: GridUtf8, x: nat)
    requires RowOk(v, sx) && cx + width <= x < sx && Writable(gc, gu, width)
    requires Overwritten(v, u, sx, cx, width) && CharacterPut(u, w, cx, width, gc, gu)
    ensures Covered(w, sx, x)
  {
    var b := PadEnd(v, sx, cx + width);
    assert Covered(v, sx, x);
    if x < b {
      assert Peek(w, x) == DEFAULT;
    } else {
      HeadRun(v, x);
      SameCover(v, w, sx, x);
    }
  }

  // ------------------------------------------------------------------
  // Joining a character of no width to the column before the cursor

  const UNDERSCORE := 95

  // What a column shows once gu is joined to it: what does not fit is scrapped
  // and underscores put in its place.
  function Joined(s: Seen, gu: GridUtf8): Seen {
    var before := match s case Single(cell) => GridUtf8(1, [cell.data]) case Multi(_, mark) => mark;
    var marked := s.cell.(flags := s.cell.flags + {Utf8});
    if |before.data| + |gu.data| <= UTF8_SIZE then Multi(marked, GridUtf8(before.width, before.data + gu.data))
    else if before.width == 1 then Single(s.cell.(data := UNDERSCORE, flags := s.cell.flags - {Utf8}))
    else var n := if before.width <= UTF8_SIZE then before.width else UTF8_SIZE;
         Multi(marked, GridUtf8(n, Filled(n, UNDERSCORE)))
  }

  // Keeping a character apart first makes no difference.
  lemma JoinedAgain(cell: GridCell, gu: GridUtf8)
    requires Utf8 !in cell.flags
    ensures Joined(Multi(cell.(flags := cell.flags + {Utf8}), GridUtf8(1, [cell.data])), gu) == Joined(Single(cell), gu)
  {
    assert cell.flags + {Utf8} - {Utf8} == cell.flags;
    assert cell.flags + {Utf8} + {Utf8} == cell.flags + {Utf8};
  }

  function BytesOf(s: Seen): seq<nat> {
    match s
    case Single(cell) => [cell.data]
    case Multi(_, mark) => mark.data
  }

  function ColumnsOf(s: Seen): nat {
    match s
    case Single(_) => 1
    case Multi(_, mark) => mark.width
  }

  // In bytes: those of gu come after those there, or all are underscores, one a
  // column; the colours and attributes, and the columns taken, are as they were.
  lemma JoinedShows(s: Seen, gu: GridUtf8)
    requires ColumnsOf(s) <= UTF8_SIZE
    ensures var r := Joined(s, gu);
            && r.cell.attr == s.cell.attr && r.cell.fg == s.cell.fg && r.cell.bg == s.cell.bg
            && r.cell.flags - {Utf8} == s.cell.flags - {Utf8} && ColumnsOf(r) == ColumnsOf(s)
            && (|BytesOf(s)| + |gu.data| <= UTF8_SIZE ==> BytesOf(r) == BytesOf(s) + gu.data)
            && (|BytesOf(s)| + |gu.data| > UTF8_SIZE ==>
                  |BytesOf(r)| == ColumnsOf(s) && forall i :: 0 <= i < |BytesOf(r)| ==> BytesOf(r)[i] == UNDERSCORE)
  {
    assert s.cell.flags + {Utf8} - {Utf8} == s.cell.flags - {Utf8} - {Utf8};
  }

  // Column x of a row becomes as shown, and nothing else.
  ghost predicate ColumnSet(v: LineVal, w: LineVal, x: nat, shown: Seen) {
    && Look(w, x) == shown && (Utf8 in shown.cell.flags <==> shown.Multi?) && w.wrapped == v.wrapped
    && |v.utf8| <= |w.utf8| && (forall i: nat :: i < |v.utf8| && i != x ==> w.utf8[i] == v.utf8[i])
    && forall i: nat :: i != x ==> Peek(w, i) == Peek(v, i)
  }

  lemma ColumnSetTwice(v: LineVal, u: LineVal, w: LineVal, x: nat, first: Seen, shown: Seen)
    requires ColumnSet(v, u, x, first) && ColumnSet(u, w, x, shown)
    ensures ColumnSet(v, w, x, shown)
  {
  }

  lemma JoinedOk(v: LineVal, w: LineVal, sx: nat, x: nat, gu: GridUtf8)
    requires RowOk(v, sx) && x < sx && ColumnSet(v, w, x, Joined(Look(v, x), gu))
    ensures RowOk(w, sx)
  {
    assert Covered(v, sx, x);
    assert Pad(w, x) == Pad(v, x) && (!Pad(v, x) ==> Width(w, x) == Width(v, x)) by {
      JoinedWidth(v, x, gu);
    }
    forall y: nat | y < |w.cells| && Utf8 in w.cells[y].flags ensures y < |w.utf8| {
      assert Peek(w, y) == w.cells[y];
    }
    forall y: nat | y < sx ensures Covered(w, sx, y) {
      JoinedCover(v, w, sx, x, y);
    }
  }

  lemma JoinedWidth(v: LineVal, x: nat, gu: GridUtf8)
    requires !Pad(v, x) ==> 1 <= Width(v, x) <= UTF8_SIZE
    ensures var s := Joined(Look(v, x), gu);
            && (Flag.Padding in s.cell.flags <==> Pad(v, x))
            && (!Pad(v, x) ==> (if s.Multi? then s.mark.width else 1) == Width(v, x))
  {
  }

  lemma JoinedCover(v: LineVal, w: LineVal, sx: nat, x: nat, y: nat)
    requires RowOk(v, sx) && x < sx && y < sx
    requires Pad(w, x) == Pad(v, x) && (!Pad(v, x) ==> Width(w, x) == Width(v, x))
    requires |v.utf8| <= |w.utf8| && forall i: nat :: i < |v.utf8| && i != x ==> w.utf8[i] == v.utf8[i]
    requires forall i: nat :: i != x ==> Peek(w, i) == Peek(v, i)
    ensures Covered(w, sx, y)
  {
    assert Covered(v, sx, y);
    var h := Head(v, y);
    assert forall i: nat :: Pad(w, i) == Pad(v, i);
    HeadIs(w, h, y);
  }

  // The mark goes to the column before the cursor. The character that covers it
  // takes the mark just when that column is not its padding; the mark is lost
  // otherwise, as padding is not drawn, and every character is as before.
  lemma MarkTakenExactly(v: LineVal, w: LineVal, sx: nat, cx: nat, gu: GridUtf8)
    requires RowOk(v, sx) && 0 < cx <= sx && ColumnSet(v, w, cx - 1, Joined(Look(v, cx - 1), gu))
    ensures var h := Head(v, cx - 1);
            && (Joined(Look(v, h), gu) != Look(v, h) ==>
                  (Look(w, h) == Joined(Look(v, h), gu) <==> !Pad(v, cx - 1)))
            && (!Pad(v, cx - 1) ==> h == cx - 1 && Look(w, h) == Joined(Look(v, h), gu))
            && (Pad(v, cx - 1) ==> forall x: nat :: x < sx && !Pad(v, x) ==> Look(w, x) == Look(v, x))
  {
    var h := Head(v, cx - 1);
    assert Covered(v, sx, cx - 1);
    if Pad(v, cx - 1) {
      forall x: nat | x < sx && !Pad(v, x) ensures Look(w, x) == Look(v, x) {
        OtherLook(v, w, cx - 1, x, Joined(Look(v, cx - 1), gu));
      }
    }
  }

  lemma OtherLook(v: LineVal, w: LineVal, x: nat, y: nat, shown: Seen)
    requires ColumnSet(v, w, x, shown) && y != x && Slots(v)
    ensures Look(w, y) == Look(v, y)
  {
    assert Peek(w, y) == Peek(v, y);
    assert y < |v.utf8| ==> w.utf8[y] == v.utf8[y];
  }

  // Joining again comes to more bytes, or to underscores.
  lemma JoinedDiffers(s: Seen, gu: GridUtf8)
    requires s.Multi? && gu.data != [] && |s.mark.data| + |gu.data| <= UTF8_SIZE
    ensures Joined(s, gu) != s
  {
    assert |s.mark.data + gu.data| > |s.mark.data|;
  }

  // A character of two columns at the start of a row, and an accent written
  // after it: the character looks as before.
  lemma MarkMayBeLost(wide: GridCell, pad: GridCell, bytes: seq<nat>)
    requires wide.flags == {Utf8} && pad.flags == {Flag.Padding} && 1 <= |bytes| <= 4
    ensures var v := LineVal([wide, pad], [GridUtf8(2, bytes)], false);
            var accent := GridUtf8(0, [0xcc, 0x81]);
            var mark := GridUtf8(1, [pad.data, 0xcc, 0x81]);
            var w := LineVal([wide, pad.(flags := {Flag.Padding, Utf8})], [GridUtf8(2, bytes), mark], false);
            && RowOk(v, 2) && ColumnSet(v, w, 1, Joined(Look(v, 1), accent))
            && Look(w, 0) == Look(v, 0) != Joined(Look(v, 0), accent)
  {
    var v := LineVal([wide, pad], [GridUtf8(2, bytes)], false);
    var accent := GridUtf8(0, [0xcc, 0x81]);
    JoinedDiffers(Look(v, 0), accent);
    forall x: nat | x < 2 ensures Covered(v, 2, x) {
      assert Head(v, 0) == 0 && Head(v, 1) == 0;
    }
    assert [pad.data] + accent.data == [pad.data, 0xcc, 0x81];
    assert {Flag.Padding} + {Utf8} == {Flag.Padding, Utf8};
  }

  lemma PutPeek(v: LineVal, px: nat, gc: GridCell, x: nat)
    ensures Peek(Put(v, px, gc), x) == if x == px then gc else Peek(v, x)
    ensures Put(v, px, gc).utf8 == v.utf8 && Put(v, px, gc).wrapped == v.wrapped
  {
  }

  lemma CharPutSame(v: LineVal, w: LineVal, px: nat, gu: GridUtf8)
    requires CharPut(v, w, px, gu)
    ensures w.wrapped == v.wrapped && forall x: nat :: Peek(w, x) == Peek(v, x)
    ensures |v.utf8| <= |w.utf8| && px < |w.utf8| && w.utf8[px] == gu
    ensures forall x: nat :: x < |v.utf8| && x != px ==> w.utf8[x] == v.utf8[x]
  {
  }

  ghost predicate Written(v: LineVal, w: LineVal, sx: nat, cx: nat, width: nat, gc: GridCell, gu: GridUtf8)
    requires cx + width <= sx
  {
    exists u :: Overwritten(v, u, sx, cx, width) && CharacterPut(u, w, cx, width, gc, gu)
  }

  // The character that covers column x has part of it in the columns written.
  predicate Hit(v: LineVal, x: nat, cx: nat, width: nat) {
    Head(v, x) < cx + width && cx < Head(v, x) + Width(v, Head(v, x))
  }

  // What is seen of a character written: itself, padding for the rest of its
  // columns, and nothing of the characters it was written over; all others look
  // as they did.
  lemma WrittenLooks(v: LineVal, w: LineVal, sx: nat, cx: nat, width: nat, gc: GridCell, gu: GridUtf8, x: nat)
    requires RowOk(v, sx) && cx + width <= sx && Writable(gc, gu, width) && Written(v, w, sx, cx, width, gc, gu)
    ensures x == cx ==> Look(w, x) == if Utf8 in gc.flags then Multi(gc, gu) else Single(gc)
    ensures cx < x < cx + width ==> Pad(w, x)
    ensures x < cx || cx + width <= x ==>
              Look(w, x) == if x < sx && Hit(v, x, cx, width) then Single(DEFAULT) else Look(v, x)
  {
    var u :| Overwritten(v, u, sx, cx, width) && CharacterPut(u, w, cx, width, gc, gu);
    assert Peek(w, cx) == gc;
    if x < cx || cx + width <= x {
      SameSlot(v, w, x);
      if x < cx {
        HitBefore(v, sx, cx, width, x);
      } else if x < sx {
        HitAfter(v, sx, cx, width, x);
        HeadRun(v, cx);
      }
    }
  }

  lemma SameSlot(v: LineVal, w: LineVal, x: nat)
    requires Slots(v) && (x < |v.utf8| ==> x < |w.utf8| && w.utf8[x] == v.utf8[x])
    ensures Peek(w, x) == Peek(v, x) ==> Look(w, x) == Look(v, x)
    ensures Peek(w, x) == DEFAULT ==> Look(w, x) == Single(DEFAULT)
  {
  }

  lemma HitBefore(v: LineVal, sx: nat, cx: nat, width: nat, x: nat)
    requires RowOk(v, sx) && x < cx < sx && 1 <= width
    ensures Hit(v, x, cx, width) <==> Pad(v, cx) && Head(v, cx) <= x
  {
    assert Covered(v, sx, x) && Covered(v, sx, cx);
    var h := Head(v, x);
    HeadRun(v, cx);
    if cx < h + Width(v, h) {
      HeadIs(v, h, cx);
    } else if Head(v, cx) <= x {
      HeadIs(v, Head(v, cx), x);
    }
  }

  lemma HitAfter(v: LineVal, sx: nat, cx: nat, width: nat, x: nat)
    requires RowOk(v, sx) && 1 <= width && cx + width <= x < sx
    ensures Hit(v, x, cx, width) <==> x < PadEnd(v, sx, cx + width)
  {
    assert Covered(v, sx, x);
    HeadRun(v, x);
    var h := Head(v, x);
    if h < cx + width {
      assert Pad(v, cx + width);
      PadRun(v, sx, cx + width, x);
    }
  }

  lemma {:induction false} PadRun(v: LineVal, sx: nat, from: nat, x: nat)
    requires from <= x < sx && forall i :: from <= i <= x ==> Pad(v, i)
    ensures x < PadEnd(v, sx, from)
    decreases x - from
  {
    if from < x {
      PadRun(v, sx, from + 1, x);
    }
  }

  // Marking a line as going on in the next does not change its columns.
  lemma MarkedOk(v: LineVal, sx: nat, wrapped: bool)
    requires RowOk(v, sx)
    ensures RowOk(v.(wrapped := wrapped), sx)
  {
    var w := v.(wrapped := wrapped);
    forall x: nat | x < sx ensures Covered(w, sx, x) {
      assert Covered(v, sx, x);
      SameCover(v, w, sx, x);
    }
  }

  ghost predicate RowsOk(ls: seq<LineVal>, sx: nat) {
    forall k :: 0 <= k < |ls| ==> RowOk(ls[k], sx)
  }
}
