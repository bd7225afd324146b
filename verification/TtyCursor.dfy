// Where the cursor of a terminal goes: the terminal's side, and what tmux
// chooses to send it.
module TtyCursor {
  import opened Common

  datatype Code =
    | Home | Cub1 | Cuf1 | Cuu1 | Cud1 | Cub | Cuf | Cuu | Cud | Hpa | Vpa | Csr
    | Bold | DimCode | Sitm | Smso | Smul | BlinkCode | Rev | Invis | Sgr0
    | Setaf | Setab | Ax | Op | Acsc | Smacs | Rmacs

  // Control functions that move the cursor, as section 8.3 of ECMA-48 has them,
  // with DECSTBM for the margins.
  datatype Control =
    | CR | LF | HomeTo | Left(n: nat) | Right(n: nat) | Up(n: nat) | Down(n: nat)
    | Column(x: nat) | Row(y: nat) | Position(y: nat, x: nat) | Margins(top: nat, bottom: nat)

  // The terminal: its size, cursor and margins, whether the next character
  // wraps first, and how many times it has scrolled.
  datatype Terminal = Terminal(sx: nat, sy: nat, x: nat, y: nat, pending: bool, top: nat, bottom: nat, scrolled: nat)

  predicate Sane(t: Terminal) {
    && 0 < t.sx < UINT_MAX / 2 && 0 < t.sy < UINT_MAX / 2 && t.x < t.sx && t.y < t.sy
    && t.top <= t.bottom < t.sy
  }

  // Moving up or down stops at a margin that it would cross from inside; a line
  // feed at the bottom margin scrolls.
  function Obey(t: Terminal, c: Control): (r: Terminal)
    requires Sane(t)
    ensures r.sx == t.sx && r.sy == t.sy && r.x < r.sx && r.y < r.sy
    ensures (c.Margins? ==> c.top <= c.bottom < t.sy) ==> Sane(r)
  {
    match c
    case CR => t.(x := 0, pending := false)
    case LF =>
      if t.y == t.bottom then t.(pending := false, scrolled := t.scrolled + 1)
      else if t.y < t.sy - 1 then t.(y := t.y + 1, pending := false)
      else t.(pending := false)
    case HomeTo => t.(x := 0, y := 0, pending := false)
    case Left(n) => t.(x := Max(0, t.x - n), pending := false)
    case Right(n) => t.(x := Min(t.sx - 1, t.x + n), pending := false)
    case Up(n) => t.(y := if t.y >= t.top then Max(t.top, t.y - n) else Max(0, t.y - n), pending := false)
    case Down(n) =>
      t.(y := if t.y <= t.bottom then Min(t.bottom, t.y + n) else Min(t.sy - 1, t.y + n), pending := false)
    case Column(x) => t.(x := Min(t.sx - 1, x), pending := false)
    case Row(y) => t.(y := Min(t.sy - 1, y), pending := false)
    case Position(y, x) => t.(x := Min(t.sx - 1, x), y := Min(t.sy - 1, y), pending := false)
    case Margins(top, bottom) => t.(top := top, bottom := bottom, x := 0, y := 0, pending := false)
  }

  function ObeyAll(t: Terminal, cs: seq<Control>): (r: Terminal)
    requires Sane(t) && forall i :: 0 <= i < |cs| ==> cs[i].Margins? ==> cs[i].top <= cs[i].bottom < t.sy
    ensures Sane(r) && r.sx == t.sx && r.sy == t.sy
    decreases |cs|
  {
    if cs == [] then t else Obey(ObeyAll(t, cs[..|cs| - 1]), cs[|cs| - 1])
  }

  // What tmux tracks: the cursor and margins; all ones where not known or set.
  datatype Track = Track(cx: nat, cy: nat, rupper: nat, rlower: nat)

  // A tracked column on the screen means that the cursor is known, one past it
  // that it is not, or is about to wrap.
  predicate Located(t: Terminal, k: Track) {
    && Sane(t)
    && (k.cx < t.sx ==> k.cx == t.x && k.cy == t.y && !t.pending)
    && (k.cx >= t.sx ==> k.cy < t.sy || k.cy == UINT_MAX)
  }

  predicate Unknown(k: Track) {
    k.rupper == UINT_MAX && k.rlower == UINT_MAX
  }

  // What is tracked is so; margins not known were never set.
  predicate Matches(t: Terminal, k: Track) {
    && Located(t, k)
    && if Unknown(k) then t.top == 0 && t.bottom == t.sy - 1 else t.top == k.rupper && t.bottom == k.rlower
  }

  // Margins that are known, or that would stop the cursor nowhere on the screen
  // from where it is.
  predicate Unstopped(t: Terminal, k: Track) {
    if Unknown(k) then (t.y == t.top ==> t.top == 0) && (t.y <= t.bottom ==> t.bottom == t.sy - 1)
    else t.top == k.rupper && t.bottom == k.rlower
  }

  function Abs(x: int): nat {
    if x < 0 then -x else x
  }

  // What tty_cursor sends to move the cursor to (px, cy).
  function Moves(has: set<Code>, sx: nat, k: Track, px: nat, cy: nat): seq<Control>
    requires 0 < sx
  {
    var cx := Min(px, sx - 1);
    if cx == k.cx && cy == k.cy then []
    else if k.cx > sx - 1 then [Position(cy, cx)]
    else if cx == 0 && cy == 0 && Home in has then [HomeTo]
    else if cx == 0 && cy == Wrap(k.cy + 1) && k.cy != k.rlower then [CR, LF]
    else if cy == k.cy then Across(has, k.cx, cx, cy)
    else if cx == k.cx then Along(has, k, cx, cy)
    else [Position(cy, cx)]
  }

  // Moving the column only.
  function Across(has: set<Code>, thisx: nat, cx: nat, cy: nat): seq<Control> {
    var change := Signed(thisx - cx);
    if cx == 0 then [CR]
    else if cx == Wrap(thisx - 1) && Cub1 in has then [Left(1)]
    else if cx == Wrap(thisx + 1) && Cuf1 in has then [Right(1)]
    else if Abs(change) > cx && Hpa in has then [Column(cx)]
    else if change > 0 && Cub in has then [Left(change)]
    else if change < 0 && Cuf in has then [Right(-change)]
    else [Position(cy, cx)]
  }

  // Moving the row only.
  function Along(has: set<Code>, k: Track, cx: nat, cy: nat): seq<Control> {
    var change := Signed(k.cy - cy);
    if k.cy != k.rupper && cy == Wrap(k.cy - 1) && Cuu1 in has then [Up(1)]
    else if k.cy != k.rlower && cy == Wrap(k.cy + 1) && Cud1 in has then [Down(1)]
    else if Abs(change) > cy || (change < 0 && Wrap(cy - change) > k.rlower)
            || (change > 0 && Wrap(cy - change) < k.rupper)
    then if Vpa in has then [Row(cy)] else [Position(cy, cx)]
    else if change > 0 && Cuu in has then [Up(change)]
    else if change < 0 && Cud in has then [Down(-change)]
    else [Position(cy, cx)]
  }

  predicate Movements(cs: seq<Control>) {
    forall i :: 0 <= i < |cs| ==> !cs[i].Margins?
  }

  lemma MovesAreMovements(has: set<Code>, sx: nat, k: Track, px: nat, cy: nat)
    requires 0 < sx
    ensures Movements(Moves(has, sx, k, px, cy))
  {
  }

  lemma ObeyOne(t: Terminal, c: Control)
    requires Sane(t) && !c.Margins?
    ensures ObeyAll(t, [c]) == Obey(t, c)
  {
    assert [c][..0] == [];
    assert ObeyAll(t, []) == t;
  }

  lemma ObeyTwo(t: Terminal, c: Control, d: Control)
    requires Sane(t) && !c.Margins? && !d.Margins?
    ensures ObeyAll(t, [c, d]) == Obey(Obey(t, c), d)
  {
    assert [c, d][..1] == [c];
    ObeyOne(t, c);
  }

  lemma AcrossKinds(has: set<Code>, thisx: nat, cx: nat, cy: nat)
    requires thisx < UINT_MAX / 2 && cx < UINT_MAX / 2 && cx != thisx
    ensures var c := Across(has, thisx, cx, cy);
            || (c == [CR] && cx == 0) || c == [Column(cx)] || c == [Position(cy, cx)]
            || (cx < thisx && c == [Left(thisx - cx)]) || (thisx < cx && c == [Right(cx - thisx)])
  {
    hide Wrap, Signed;
    SignedIs(thisx - cx);
    Wraps(thisx - 1);
    Wraps(thisx + 1);
  }

  lemma AcrossArrives(has: set<Code>, t: Terminal, cx: nat)
    requires Sane(t) && cx < t.sx && cx != t.x && !t.pending
    ensures ObeyAll(t, Across(has, t.x, cx, t.y)) == t.(x := cx)
  {
    hide ObeyAll, Across;
    AcrossKinds(has, t.x, cx, t.y);
    ObeyOne(t, Across(has, t.x, cx, t.y)[0]);
  }

  // What is sent to move up, and down: nothing that a margin would stop.
  lemma AlongUp(has: set<Code>, t: Terminal, k: Track, cy: nat)
    requires Located(t, k) && Unstopped(t, k) && k.cx < t.sx && cy < t.y
    ensures var c := Along(has, k, t.x, cy);
            || c == [Row(cy)] || c == [Position(cy, t.x)]
            || (c == [Up(t.y - cy)] && (t.top <= t.y ==> t.top <= cy))
  {
    hide Wrap, Signed;
    SignedIs(t.y - cy);
    Wraps(t.y - 1);
    Wraps(t.y + 1);
    Wraps(cy - (t.y - cy));
  }

  lemma AlongDown(has: set<Code>, t: Terminal, k: Track, cy: nat)
    requires Located(t, k) && Unstopped(t, k) && k.cx < t.sx && t.y < cy < t.sy
    ensures var c := Along(has, k, t.x, cy);
            || c == [Row(cy)] || c == [Position(cy, t.x)]
            || (c == [Down(cy - t.y)] && (t.y <= t.bottom ==> cy <= t.bottom))
  {
    hide Wrap, Signed;
    SignedIs(t.y - cy);
    Wraps(t.y - 1);
    Wraps(t.y + 1);
    Wraps(cy - (t.y - cy));
  }

  lemma AlongArrives(has: set<Code>, t: Terminal, k: Track, cy: nat)
    requires Located(t, k) && Unstopped(t, k) && k.cx < t.sx && cy < t.sy && cy != t.y
    ensures ObeyAll(t, Along(has, k, t.x, cy)) == t.(y := cy)
  {
    hide ObeyAll, Along;
    if cy < t.y {
      AlongUp(has, t, k, cy);
      ObeyOne(t, Up(t.y - cy));
    } else {
      AlongDown(has, t, k, cy);
      ObeyOne(t, Down(cy - t.y));
    }
    ObeyOne(t, Row(cy));
    ObeyOne(t, Position(cy, t.x));
  }

  // The cursor gets there, nothing scrolls, and the margins stay.
  predicate Arrives(has: set<Code>, t: Terminal, k: Track, px: nat, cy: nat)
    requires Sane(t)
  {
    && Movements(Moves(has, t.sx, k, px, cy))
    && ObeyAll(t, Moves(has, t.sx, k, px, cy)) == t.(x := Min(px, t.sx - 1), y := cy, pending := false)
  }

  lemma MovesArriveFrom(has: set<Code>, t: Terminal, k: Track, px: nat, cy: nat)
    requires Located(t, k) && (k.cx < t.sx ==> Unstopped(t, k)) && cy < t.sy
    ensures Arrives(has, t, k, px, cy)
  {
    hide Across, Along, ObeyAll, Wrap, Movements;
    MovesAreMovements(has, t.sx, k, px, cy);
    var cx := Min(px, t.sx - 1);
    if k.cx < t.sx {
      Wraps(t.y + 1);
      if cx != t.x {
        AcrossArrives(has, t, cx);
      } else if cy != t.y {
        AlongArrives(has, t, k, cy);
      }
    }
    ObeyNone(t);
    ObeyOne(t, Position(cy, cx));
    ObeyOne(t, HomeTo);
    ObeyTwo(t, CR, LF);
  }

  // Whatever the terminal can do, and whatever row on the screen is wanted, the
  // cursor arrives.
  lemma MovesArrive(has: set<Code>, t: Terminal, k: Track, px: nat, cy: nat)
    requires Matches(t, k) && cy < t.sy
    ensures Arrives(has, t, k, px, cy)
  {
    hide Arrives;
    MovesArriveFrom(has, t, k, px, cy);
  }

  // tmux takes no terminal that cannot move down.
  predicate Accepted(has: set<Code>) {
    Cud1 in has || Cud in has
  }

  // Should margins have been set that are not known, the cursor arrives
  // wherever it is sent, whatever the terminal can do, just when they would stop
  // it nowhere.
  lemma UnknownMarginsExactly(t: Terminal, k: Track)
    requires Located(t, k) && k.cx < t.sx && Unknown(k)
    ensures Unstopped(t, k)
            <==> forall has, px: nat, cy: nat :: Accepted(has) && cy < t.sy ==> Arrives(has, t, k, px, cy)
  {
    hide Arrives;
    if Unstopped(t, k) {
      forall has, px: nat, cy: nat | Accepted(has) && cy < t.sy ensures Arrives(has, t, k, px, cy) {
        MovesArriveFrom(has, t, k, px, cy);
      }
    } else if t.y == t.top && t.top > 0 {
      StoppedAbove(t, k);
      assert Accepted({Cuu1, Cud1});
    } else {
      StoppedBelow(t, k);
      assert Accepted({Cud});
    }
  }

  lemma StoppedAbove(t: Terminal, k: Track)
    requires Located(t, k) && k.cx < t.sx && Unknown(k) && t.y == t.top > 0
    ensures !Arrives({Cuu1, Cud1}, t, k, t.x, t.y - 1)
  {
    hide Wrap, ObeyAll;
    Wraps(t.y - 1);
    Wraps(t.y + 1);
    ObeyOne(t, Up(1));
  }

  lemma StoppedBelow(t: Terminal, k: Track)
    requires Located(t, k) && k.cx < t.sx && Unknown(k) && t.y <= t.bottom < t.sy - 1
    ensures !Arrives({Cud}, t, k, t.x, t.bottom + 1)
  {
    hide Wrap, Signed, ObeyAll;
    Wraps(t.y - 1);
    Wraps(t.y + 1);
    SignedIs(t.y - (t.bottom + 1));
    Wraps(t.bottom + 1 - (t.y - (t.bottom + 1)));
    ObeyOne(t, Down(t.bottom + 1 - t.y));
    ObeyTwo(t, CR, LF);
  }

  lemma ObeyNone(t: Terminal)
    requires Sane(t)
    ensures ObeyAll(t, []) == t
  {
  }

  // ------------------------------------------------------------------
  // Margins

  // The margins after tty_region: the terminal, and what is tracked. DECSTBM
  // itself takes the cursor home.
  function Regioned(has: set<Code>, t: Terminal, k: Track, rupper: nat, rlower: nat): (Terminal, Track)
    requires Sane(t) && rupper <= rlower < t.sy
  {
    if (k.rlower == rlower && k.rupper == rupper) || Csr !in has then (t, k)
    else
      var tracked := k.(rupper := rupper, rlower := rlower);
      var first := if k.cx >= t.sx then Moves(has, t.sx, tracked, 0, k.cy) else [];
      var kept := if k.cx >= t.sx then tracked.(cx := 0) else tracked;
      MovesAreMovements(has, t.sx, tracked, 0, k.cy);
      MovesAreMovements(has, t.sx, kept, 0, 0);
      var set' := Obey(ObeyAll(t, first), Margins(rupper, rlower));
      (ObeyAll(set', Moves(has, t.sx, kept, 0, 0)), kept.(cx := 0, cy := 0))
  }

  // With the cursor already home, moving it there from wherever it is thought
  // to be leaves it, unless it is thought to be in the row before the first.
  lemma HomeStays(has: set<Code>, t: Terminal, k: Track)
    requires Sane(t) && t.x == 0 && t.y == 0 && !t.pending && k.cx < t.sx && (k.cy < t.sy || k.cy == UINT_MAX)
    requires k.rupper == t.top && k.rlower == t.bottom
    ensures Movements(Moves(has, t.sx, k, 0, 0))
    ensures k.cy < t.sy || Home in has ==> ObeyAll(t, Moves(has, t.sx, k, 0, 0)) == t
    ensures k.cx == 0 && k.cy == UINT_MAX && Home !in has ==>
              ObeyAll(t, Moves(has, t.sx, k, 0, 0)) == Obey(t, LF)
  {
    hide ObeyAll, Wrap, Signed, Movements;
    MovesAreMovements(has, t.sx, k, 0, 0);
    if k.cy < t.sy {
      Wraps(k.cy + 1);
      Wraps(k.cy - 1);
      SignedIs(k.cy);
      Wraps(0 - k.cy);
    } else {
      Wraps(k.cy + 1 - U32);
      WrapOver(k.cy + 1);
    }
    var cs := Moves(has, t.sx, k, 0, 0);
    if |cs| == 1 {
      ObeyOne(t, cs[0]);
    }
    ObeyNone(t);
    ObeyTwo(t, CR, LF);
  }

  lemma WrapOver(x: int)
    requires U32 <= x < 2 * U32
    ensures Wrap(x) == x - U32
  {
  }

  // Setting margins leaves the cursor home, where it is then tracked, except
  // where it was not known and the terminal has no code for home: then a line
  // is fed, for the row before the first is taken to be all ones.
  lemma RegionArrives(has: set<Code>, t: Terminal, k: Track, rupper: nat, rlower: nat)
    requires Matches(t, k) && rupper <= rlower < t.sy
    ensures var (r, n) := Regioned(has, t, k, rupper, rlower);
            if (k.rlower == rlower && k.rupper == rupper) || Csr !in has then r == t && n == k
            else
              && n == Track(0, 0, rupper, rlower)
              && (r == t.(x := 0, y := 0, pending := false, top := rupper, bottom := rlower)
                  <==> k.cx < t.sx || k.cy < t.sy || Home in has)
  {
    hide Moves, ObeyAll, Movements;
    if (k.rlower != rlower || k.rupper != rupper) && Csr in has {
      var tracked := k.(rupper := rupper, rlower := rlower);
      MovesAreMovements(has, t.sx, tracked, 0, k.cy);
      var first := if k.cx >= t.sx then Moves(has, t.sx, tracked, 0, k.cy) else [];
      var kept := if k.cx >= t.sx then tracked.(cx := 0) else tracked;
      if k.cx >= t.sx {
        ObeyOne(t, Position(k.cy, 0));
        FirstMove(has, t.sx, tracked);
      } else {
        ObeyNone(t);
      }
      var set' := Obey(ObeyAll(t, first), Margins(rupper, rlower));
      HomeStays(has, set', kept);
    }
  }

  // As on a terminal just started, with its cursor not known, and no code for
  // home.
  lemma RegionMayMiss()
    ensures var t := Terminal(80, 24, 0, 0, false, 0, 23, 0);
            var k := Track(UINT_MAX, UINT_MAX, UINT_MAX, UINT_MAX);
            && Matches(t, k) && Accepted({Csr, Cud1})
            && Regioned({Csr, Cud1}, t, k, 5, 10) == (t.(y := 1, top := 5, bottom := 10), Track(0, 0, 5, 10))
  {
    hide ObeyAll, Movements;
    var t := Terminal(80, 24, 0, 0, false, 0, 23, 0);
    var k := Track(UINT_MAX, UINT_MAX, 5, 10);
    MovesAreMovements({Csr, Cud1}, 80, k, 0, UINT_MAX);
    FirstMove({Csr, Cud1}, 80, k);
    ObeyOne(t, Position(UINT_MAX, 0));
    var set' := Obey(t.(y := 23), Margins(5, 10));
    HomeStays({Csr, Cud1}, set', k.(cx := 0));
  }

  lemma FirstMove(has: set<Code>, sx: nat, k: Track)
    requires 0 < sx <= k.cx
    ensures Moves(has, sx, k, 0, k.cy) == [Position(k.cy, 0)]
  {
  }
}
