// The record that tmux keeps of a terminal, and the output that changes both.
module Tty {
  import opened Common
  import opened GridLines
  import opened TtyCursor
  import opened TtyRendition

  class Tty {
    const term: Term
    const sx: nat
    const sy: nat
    // The cursor and margins tracked.
    var cx: nat
    var cy: nat
    var rupper: nat
    var rlower: nat
    // The cell last drawn with.
    var cell: GridCell
    // The terminal, as the output so far has left it.
    ghost var terminal: Terminal
    ghost var shown: Rendition

    function Track(): Track
      reads this
    {
      TtyCursor.Track(cx, cy, rupper, rlower)
    }

    ghost function Pen(): Pen
      reads this
    {
      TtyRendition.Pen(cell, shown)
    }

    ghost predicate Valid()
      reads this
    {
      Sane(terminal) && terminal.sx == sx && terminal.sy == sy
    }

    // The state that tty_start_tty leaves: the screen cleared, nothing known of
    // the cursor, no margins set and the default rendition.
    constructor (term: Term, sx: nat, sy: nat)
      requires 0 < sx < UINT_MAX / 2 && 0 < sy < UINT_MAX / 2
      ensures Valid() && this.term == term && this.sx == sx && this.sy == sy
      ensures Matches(terminal, Track()) && Agrees(term, Pen())
    {
      this.term, this.sx, this.sy := term, sx, sy;
      cx, cy, rupper, rlower := UINT_MAX, UINT_MAX, UINT_MAX, UINT_MAX;
      cell, shown := DEFAULT, PLAIN;
      terminal := Terminal(sx, sy, 0, 0, false, 0, sy - 1, 0);
      new;
      FreshAgrees(term);
    }

    // ----------------------------------------------------------------
    // The cursor

    method Put(c: Control)
      requires Valid() && (c.Margins? ==> c.top <= c.bottom < sy)
      modifies this`terminal
      ensures Valid() && terminal == Obey(old(terminal), c)
    {
      terminal := Obey(terminal, c);
    }

    // tty_cursor
    method Cursor(px: nat, py: nat)
      requires Valid()
      modifies this`cx, this`cy, this`terminal
      ensures Valid() && cx == Min(px, sx - 1) && cy == py
      ensures Movements(Moves(term.has, sx, old(Track()), px, py))
              && terminal == ObeyAll(old(terminal), Moves(term.has, sx, old(Track()), px, py))
      ensures Matches(old(terminal), old(Track())) && py < sy ==>
                && terminal == old(terminal).(x := Min(px, sx - 1), y := py, pending := false)
                && Matches(terminal, Track())
    {
      hide Obey, ObeyAll, Movements, Across, Along, Wrap, Signed;
      if Matches(terminal, Track()) && py < sy {
        MovesArrive(term.has, terminal, Track(), px, py);
      }
      MovesAreMovements(term.has, sx, Track(), px, py);
      ObeyNone(terminal);
      var tx := if px > sx - 1 then sx - 1 else px;
      if tx == cx && py == cy {
        return;
      }
      if cx > sx - 1 {
        Absolute(tx, py);
      } else if tx == 0 && py == 0 && Home in term.has {
        ObeyOne(terminal, HomeTo);
        Put(HomeTo);
      } else if tx == 0 && py == Wrap(cy + 1) && cy != rlower {
        ObeyTwo(terminal, CR, LF);
        Put(CR);
        Put(LF);
      } else if py == cy {
        Horizontal(tx);
      } else if tx == cx {
        Vertical(py);
      } else {
        Absolute(tx, py);
      }
      cx := tx;
      cy := py;
    }

    method Absolute(tx: nat, ty: nat)
      requires Valid()
      modifies this`terminal
      ensures Valid() && terminal == ObeyAll(old(terminal), [Position(ty, tx)])
    {
      ObeyOne(terminal, Position(ty, tx));
      Put(Position(ty, tx));
    }

    // Moving the column only.
    method Horizontal(tx: nat)
      requires Valid()
      modifies this`terminal
      ensures Valid() && Movements(Across(term.has, cx, tx, cy))
      ensures terminal == ObeyAll(old(terminal), Across(term.has, cx, tx, cy))
    {
      hide Obey, ObeyAll, Wrap, Signed;
      ObeyOne(terminal, Across(term.has, cx, tx, cy)[0]);
      if tx == 0 {
        Put(CR);
      } else if tx == Wrap(cx - 1) && Cub1 in term.has {
        Put(Left(1));
      } else if tx == Wrap(cx + 1) && Cuf1 in term.has {
        Put(Right(1));
      } else {
        var change := Signed(cx - tx);
        if Abs(change) > tx && Hpa in term.has {
          Put(Column(tx));
        } else if change > 0 && Cub in term.has {
          Put(Left(change));
        } else if change < 0 && Cuf in term.has {
          Put(Right(-change));
        } else {
          Put(Position(cy, tx));
        }
      }
    }

    // Moving the row only.
    method Vertical(ty: nat)
      requires Valid()
      modifies this`terminal
      ensures Valid() && Movements(Along(term.has, Track(), cx, ty))
      ensures terminal == ObeyAll(old(terminal), Along(term.has, Track(), cx, ty))
    {
      hide Obey, ObeyAll, Wrap, Signed;
      ObeyOne(terminal, Along(term.has, Track(), cx, ty)[0]);
      if cy != rupper && ty == Wrap(cy - 1) && Cuu1 in term.has {
        Put(Up(1));
      } else if cy != rlower && ty == Wrap(cy + 1) && Cud1 in term.has {
        Put(Down(1));
      } else {
        var change := Signed(cy - ty);
        // Use VPA if the change is larger than absolute or would cross the
        // scroll region.
        if Abs(change) > ty || (change < 0 && Wrap(ty - change) > rlower)
           || (change > 0 && Wrap(ty - change) < rupper)
        {
          if Vpa in term.has {
            Put(Row(ty));
          } else {
            Put(Position(ty, cx));
          }
        } else if change > 0 && Cuu in term.has {
          Put(Up(change));
        } else if change < 0 && Cud in term.has {
          Put(Down(-change));
        } else {
          Put(Position(ty, cx));
        }
      }
    }

    // tty_region
    method Region(upper: nat, lower: nat)
      requires Valid() && upper <= lower < sy
      modifies this`cx, this`cy, this`rupper, this`rlower, this`terminal
      ensures Valid()
      ensures (terminal, Track()) == Regioned(term.has, old(terminal), old(Track()), upper, lower)
      ensures Matches(old(terminal), old(Track())) && Csr in term.has && (rupper, rlower) != old((rupper, rlower)) ==>
                && Track() == TtyCursor.Track(0, 0, upper, lower)
                && (terminal == old(terminal).(x := 0, y := 0, pending := false, top := upper, bottom := lower)
                    <==> old(cx) < sx || old(cy) < sy || Home in term.has)
    {
      hide Obey, Moves, Movements;
      if Matches(terminal, Track()) {
        RegionArrives(term.has, terminal, Track(), upper, lower);
      }
      if rlower == lower && rupper == upper {
        return;
      }
      if Csr !in term.has {
        return;
      }
      rupper := upper;
      rlower := lower;
      ObeyNone(terminal);
      // Some terminals do not take the cursor home from past the last column.
      if cx >= sx {
        Cursor(0, cy);
      }
      Put(Margins(rupper, rlower));
      Cursor(0, 0);
    }

    // ----------------------------------------------------------------
    // The rendition

    // A code with no argument, where the terminal has it.
    method PutCode(c: Code)
      requires c in ATTRIBUTES + {Sgr0, Smacs, Rmacs}
      modifies this`shown
      ensures shown == if c !in term.has then old(shown)
                       else if c == Sgr0 then old(shown).(codes := {}, fg := Default, bg := Default)
                       else if c == Smacs then old(shown).(acs := true)
                       else if c == Rmacs then old(shown).(acs := false)
                       else old(shown).(codes := old(shown).codes + {c})
    {
      if c in term.has {
        shown := if c == Sgr0 then shown.(codes := {}, fg := Default, bg := Default)
                 else if c == Smacs then shown.(acs := true)
                 else if c == Rmacs then shown.(acs := false)
                 else shown.(codes := shown.codes + {c});
      }
    }

    // A code for a colour, where the terminal has it.
    method PutColour(c: Code, n: nat)
      requires c == Setaf || c == Setab
      modifies this`shown
      ensures shown == if c !in term.has then old(shown)
                       else if c == Setaf then old(shown).(fg := Basic(n)) else old(shown).(bg := Basic(n))
    {
      if c in term.has {
        shown := if c == Setaf then shown.(fg := Basic(n)) else shown.(bg := Basic(n));
      }
    }

    // A sequence for a colour, sent whatever the terminal has.
    method PutSequence(foreground: bool, colour: Colour)
      modifies this`shown
      ensures shown == if foreground then old(shown).(fg := colour) else old(shown).(bg := colour)
    {
      shown := if foreground then shown.(fg := colour) else shown.(bg := colour);
    }

    // tty_reset
    method Reset()
      modifies this`cell, this`shown
      ensures Pen() == TtyRendition.Reset(term, old(Pen()))
    {
      if cell == DEFAULT {
        return;
      }
      if Attr.Charset in cell.attr && UsesAcs(term) {
        PutCode(Rmacs);
      }
      PutCode(Sgr0);
      cell := DEFAULT;
    }

    // tty_colours_fg
    method ColoursFg(gc: GridCell)
      modifies this`cell, this`shown
      ensures Pen() == TtyRendition.ColoursFg(term, old(Pen()), gc)
    {
      var fg := gc.fg;
      if Fg256 in gc.flags {
        if term.is256 {
          PutSequence(true, Index(fg));
        } else if term.is88 {
          PutSequence(true, Index(term.to88(fg)));
        } else {
          // tty_check_fg leaves no other colour.
          return;
        }
      } else if 90 <= fg <= 97 {
        PutSequence(true, Colour.Bright(fg));
      } else {
        PutColour(Setaf, fg);
      }
      cell := cell.(fg := fg, flags := cell.flags - {Fg256});
      cell := cell.(flags := cell.flags + gc.flags * {Fg256});
    }

    // tty_colours_bg
    method ColoursBg(gc: GridCell)
      modifies this`cell, this`shown
      ensures Pen() == TtyRendition.ColoursBg(term, old(Pen()), gc)
    {
      var bg := gc.bg;
      if Bg256 in gc.flags {
        if term.is256 {
          PutSequence(false, Index(bg));
        } else if term.is88 {
          PutSequence(false, Index(term.to88(bg)));
        } else {
          return;
        }
      } else if 100 <= bg <= 107 && term.colours >= 16 {
        PutSequence(false, Colour.Bright(bg));
      } else {
        if 100 <= bg <= 107 {
          bg := bg - 100;
        }
        PutColour(Setab, bg);
      }
      cell := cell.(bg := bg, flags := cell.flags - {Bg256});
      cell := cell.(flags := cell.flags + gc.flags * {Bg256});
    }

    // The part of tty_colours for default colours.
    method DefaultColours(gc: GridCell)
      modifies this`cell, this`shown
      ensures Pen() == TtyRendition.DefaultColours(term, old(Pen()), gc)
    {
      if !FgDefault(gc) && !BgDefault(gc) {
        return;
      }
      // OP may be the same as SGR0, so reset if there is only that.
      var haveAx := Ax in term.has;
      if !haveAx && Op in term.has {
        Reset();
        return;
      }
      if FgDefault(gc) && !FgDefault(cell) {
        if haveAx {
          PutSequence(true, Default);
        } else if cell.fg != 7 || Fg256 in cell.flags {
          PutColour(Setaf, 7);
        }
        cell := cell.(fg := 8, flags := cell.flags - {Fg256});
      }
      if BgDefault(gc) && !BgDefault(cell) {
        if haveAx {
          PutSequence(false, Default);
        } else if cell.bg != 0 || Bg256 in cell.flags {
          PutColour(Setab, 0);
        }
        cell := cell.(bg := 8, flags := cell.flags - {Bg256});
      }
    }

    // tty_colours
    method Colours(gc: GridCell)
      modifies this`cell, this`shown
      ensures Pen() == TtyRendition.Colours(term, old(Pen()), gc)
    {
      hide TtyRendition.DefaultColours, TtyRendition.ColoursFg, TtyRendition.ColoursBg;
      // The terminal has both colours.
      if SameFg(cell, gc) && SameBg(cell, gc) {
        return;
      }
      DefaultColours(gc);
      if !FgDefault(gc) && !SameFg(cell, gc) {
        ColoursFg(gc);
      }
      // ColoursFg may reset, which would undo a background set before it.
      if !BgDefault(gc) && !SameBg(cell, gc) {
        ColoursBg(gc);
      }
    }

    // An attribute set, if it is one of those to be.
    method PutAttr(a: Attr, changed: set<Attr>)
      modifies this`shown
      ensures shown == old(shown).(codes := old(shown).codes + OneCodes(term, a, changed),
                                   acs := old(shown).acs || (a == Attr.Charset && AcsFor(term, changed)))
    {
      if a in changed {
        match a
        case Bright => PutCode(Bold);
        case Dim => PutCode(DimCode);
        case Italics => if Sitm in term.has { PutCode(Sitm); } else { PutCode(Smso); }
        case Underscore => PutCode(Smul);
        case Blink => PutCode(BlinkCode);
        case Reverse => if Rev in term.has { PutCode(Rev); } else if Smso in term.has { PutCode(Smso); }
        case Hidden => PutCode(Invis);
        case Charset => if UsesAcs(term) { PutCode(Smacs); }
      }
    }

    // The end of tty_attributes.
    method SetAttrs(attrs: set<Attr>)
      modifies this`cell, this`shown
      ensures Pen() == TtyRendition.SetAttrs(term, old(Pen()), attrs)
    {
      hide OneCodes, CodesFor, AcsFor;
      // Filter out attributes already set, then set the rest.
      var changed := attrs - cell.attr;
      cell := cell.(attr := attrs);
      EachCode(term, changed);
      PutAttr(Attr.Bright, changed);
      PutAttr(Attr.Dim, changed);
      PutAttr(Attr.Italics, changed);
      PutAttr(Attr.Underscore, changed);
      PutAttr(Attr.Blink, changed);
      PutAttr(Attr.Reverse, changed);
      PutAttr(Attr.Hidden, changed);
      PutAttr(Attr.Charset, changed);
    }

    // tty_attributes
    method Attributes(gc: GridCell)
      modifies this`cell, this`shown
      ensures Pen() == TtyRendition.Attributes(term, old(Pen()), gc)
      ensures Tabled(term) && Undoes(term) && Agrees(term, old(Pen())) ==>
                && Agrees(term, Pen())
                && Same(term, shown, TtyRendition.Attributes(term, FRESH, gc).shown)
    {
      hide TtyRendition.Reset, TtyRendition.Colours, TtyRendition.SetAttrs, Agrees, Undoes, Same, Checked;
      if Tabled(term) && Undoes(term) && Agrees(term, Pen()) {
        AttributesAgree(term, Pen(), gc);
        Enough(term, Pen(), gc);
      }
      // Fix up the reverse attribute and the colours if necessary.
      var gc2 := Checked(term, gc);
      // There is no code that clears one attribute.
      if cell.attr - gc2.attr != {} {
        Reset();
      }
      // Colours may reset as well, so attributes are set after it.
      Colours(gc2);
      SetAttrs(gc2.attr);
    }
  }

  function OneCodes(t: Term, a: Attr, attrs: set<Attr>): set<Code> {
    if a in attrs then AttrCodes(t, a) else {}
  }

  // The codes for some attributes are those for each of them.
  lemma EachCode(t: Term, attrs: set<Attr>)
    ensures CodesFor(t, attrs)
            == OneCodes(t, Attr.Bright, attrs) + OneCodes(t, Attr.Dim, attrs) + OneCodes(t, Attr.Italics, attrs)
               + OneCodes(t, Attr.Underscore, attrs) + OneCodes(t, Attr.Blink, attrs)
               + OneCodes(t, Attr.Reverse, attrs) + OneCodes(t, Attr.Hidden, attrs)
               + OneCodes(t, Attr.Charset, attrs)
  {
    hide AttrCodes;
    forall c | c in CodesFor(t, attrs)
      ensures || c in OneCodes(t, Attr.Bright, attrs) || c in OneCodes(t, Attr.Dim, attrs)
              || c in OneCodes(t, Attr.Italics, attrs) || c in OneCodes(t, Attr.Underscore, attrs)
              || c in OneCodes(t, Attr.Blink, attrs) || c in OneCodes(t, Attr.Reverse, attrs)
              || c in OneCodes(t, Attr.Hidden, attrs) || c in OneCodes(t, Attr.Charset, attrs)
    {
      var a :| a in attrs && c in AttrCodes(t, a);
      assert c in OneCodes(t, a, attrs);
      match a
      case Bright =>
      case Dim =>
      case Italics =>
      case Underscore =>
      case Blink =>
      case Reverse =>
      case Hidden =>
      case Charset =>
    }
  }
}
