// What a terminal shows of a cell, said of the cell and of what the terminal can
// do alone.
module TtyLooks {
  import opened GridLines
  import opened TtyCursor
  import opened TtyRendition

  // 256 or 88 colours.
  predicate Palette(t: Term) {
    t.is256 || t.is88
  }

  // The foreground: plain colours by number; bright ones as such or, on terminals
  // that have fewer than 16, as plain; those of 256 by number, by the table of 88
  // or, by that of 16, as plain. Without SETAF there is only the default.
  lemma FgShown(t: Term, p: Pen, gc: GridCell)
    requires Tabled(t) && Undoes(t) && Agrees(t, p)
    ensures var fg := Attributes(t, p, gc).shown.fg;
            && (Setaf !in t.has || (gc.fg == 8 && Fg256 !in gc.flags) ==> Alike(t, fg, Default, Basic(7)))
            && (Setaf in t.has && Fg256 !in gc.flags && gc.fg != 8 && !(90 <= gc.fg <= 97) ==>
                  Alike(t, fg, Basic(gc.fg), Basic(7)))
            && (Setaf in t.has && Fg256 !in gc.flags && 90 <= gc.fg <= 97 ==>
                  if t.colours >= 16 then fg == Colour.Bright(gc.fg) else Alike(t, fg, Basic(gc.fg - 90), Basic(7)))
            && (Fg256 in gc.flags && Palette(t) ==> fg == Index(if t.is256 then gc.fg else t.to88(gc.fg)))
            && (Setaf in t.has && Fg256 in gc.flags && !Palette(t) ==>
                  Alike(t, fg, Basic(if t.to16(gc.fg) < 8 then t.to16(gc.fg) else t.to16(gc.fg) - 8), Basic(7)))
  {
    hide Attributes, CodesFor;
    AttributesAgree(t, p, gc);
  }

  // And the background; but bright ones come out ten too large on terminals with
  // fewer than 16 colours.
  lemma BgShown(t: Term, p: Pen, gc: GridCell)
    requires Tabled(t) && Undoes(t) && Agrees(t, p)
    ensures var bg := Attributes(t, p, gc).shown.bg;
            && (Setab !in t.has || (gc.bg == 8 && Bg256 !in gc.flags) ==> Alike(t, bg, Default, Basic(0)))
            && (Setab in t.has && Bg256 !in gc.flags && gc.bg != 8 && !(100 <= gc.bg <= 107) ==>
                  Alike(t, bg, Basic(gc.bg), Basic(0)))
            && (Setab in t.has && Bg256 !in gc.flags && 100 <= gc.bg <= 107 ==>
                  bg == if t.colours >= 16 then Colour.Bright(gc.bg) else Basic(gc.bg - 100 + 10))
            && (Bg256 in gc.flags && Palette(t) ==> bg == Index(if t.is256 then gc.bg else t.to88(gc.bg)))
            && (Setab in t.has && Bg256 in gc.flags && !Palette(t) ==>
                  Alike(t, bg, Basic(if t.to16(gc.bg) < 8 then t.to16(gc.bg) else t.to16(gc.bg) - 8), Basic(0)))
  {
    hide Attributes, CodesFor;
    AttributesAgree(t, p, gc);
  }

  // A bright background is shown, as such or as the plain one, just on terminals
  // with 16 colours.
  lemma BrightBgExactly(t: Term, p: Pen, gc: GridCell)
    requires Tabled(t) && Undoes(t) && Agrees(t, p) && Setab in t.has
    requires Bg256 !in gc.flags && 100 <= gc.bg <= 107
    ensures Attributes(t, p, gc).shown.bg in {Colour.Bright(gc.bg), Basic(gc.bg - 100)} <==> t.colours >= 16
  {
    hide Attributes;
    BgShown(t, p, gc);
  }

  // The first of them on a terminal of 8 colours.
  lemma BrightBgMayMiss()
    ensures var t := Term({Setaf, Setab, Sgr0}, 8, false, false, true, (c: nat) => c % 16, (c: nat) => c);
            Tabled(t) && Undoes(t) && Attributes(t, FRESH, DEFAULT.(bg := 100)).shown.bg == Basic(10)
  {
    hide Attributes;
    var t := Term({Setaf, Setab, Sgr0}, 8, false, false, true, (c: nat) => c % 16, (c: nat) => c);
    FreshAgrees(t);
    BgShown(t, FRESH, DEFAULT.(bg := 100));
  }

  // Bright: asked for, or standing in for a bright colour, of those that are
  // looked at last.
  predicate Bolder(t: Term, gc: GridCell) {
    if Bg256 in gc.flags && !Palette(t) then false
    else if Bg256 !in gc.flags && 100 <= gc.bg <= 107 && t.colours < 16 then true
    else if Fg256 in gc.flags then (if Palette(t) then Attr.Bright in gc.attr else t.to16(gc.fg) >= 8)
    else Attr.Bright in gc.attr || (90 <= gc.fg <= 97 && t.colours < 16)
  }

  // Reverse: as asked for where the background can be set, and otherwise just
  // where it is asked for and the foreground is white or the default, or is not
  // and the background is neither black nor the default.
  predicate Reversed(t: Term, gc: GridCell) {
    if Setab in t.has then Attr.Reverse in gc.attr
    else if Attr.Reverse in gc.attr then gc.fg == 7 || gc.fg == 8
    else gc.bg != 0 && gc.bg != 8
  }

  // Each attribute is shown by its own code, where the terminal has it; standout
  // takes the place of italics and of reverse.
  lemma AttributesShown(t: Term, p: Pen, gc: GridCell)
    requires Tabled(t) && Undoes(t) && Agrees(t, p)
    ensures var r := Attributes(t, p, gc).shown;
            && (Bold in r.codes <==> Bold in t.has && Bolder(t, gc))
            && (DimCode in r.codes <==> DimCode in t.has && Attr.Dim in gc.attr)
            && (Smul in r.codes <==> Smul in t.has && Attr.Underscore in gc.attr)
            && (BlinkCode in r.codes <==> BlinkCode in t.has && Attr.Blink in gc.attr)
            && (Invis in r.codes <==> Invis in t.has && Attr.Hidden in gc.attr)
            && (Sitm in r.codes <==> Sitm in t.has && Attr.Italics in gc.attr)
            && (Rev in r.codes <==> Rev in t.has && Reversed(t, gc))
            && (Smso in r.codes <==>
                  && Smso in t.has
                  && ((Attr.Italics in gc.attr && Sitm !in t.has) || (Reversed(t, gc) && Rev !in t.has)))
            && r.codes <= ATTRIBUTES
            && (r.acs <==> Attr.Charset in gc.attr && Acsc in t.has && !t.utf8 && Smacs in t.has)
  {
    hide Attributes, Undoes, CheckFg, CheckBg;
    AttributesAgree(t, p, gc);
    CheckedAttrs(t, gc);
    CodesShown(t, Checked(t, gc).attr);
  }

  lemma CheckedAttrs(t: Term, gc: GridCell)
    requires Tabled(t)
    ensures forall a :: a != Attr.Bright && a != Attr.Reverse ==> (a in Checked(t, gc).attr <==> a in gc.attr)
    ensures Attr.Bright in Checked(t, gc).attr <==> Bolder(t, gc)
    ensures Attr.Reverse in Checked(t, gc).attr <==> Reversed(t, gc)
  {
  }

  lemma CodesShown(t: Term, attrs: set<Attr>)
    ensures var codes := CodesFor(t, attrs);
            && (Bold in codes <==> Bold in t.has && Attr.Bright in attrs)
            && (DimCode in codes <==> DimCode in t.has && Attr.Dim in attrs)
            && (Smul in codes <==> Smul in t.has && Attr.Underscore in attrs)
            && (BlinkCode in codes <==> BlinkCode in t.has && Attr.Blink in attrs)
            && (Invis in codes <==> Invis in t.has && Attr.Hidden in attrs)
            && (Sitm in codes <==> Sitm in t.has && Attr.Italics in attrs)
            && (Rev in codes <==> Rev in t.has && Attr.Reverse in attrs)
            && (Smso in codes <==>
                  && Smso in t.has
                  && ((Attr.Italics in attrs && Sitm !in t.has) || (Attr.Reverse in attrs && Rev !in t.has)))
            && codes <= ATTRIBUTES
  {
    forall c: Code ensures c in CodesFor(t, attrs) <==> exists a :: a in attrs && c in AttrCodes(t, a) {
    }
    assert forall a :: a in attrs ==> AttrCodes(t, a) <= CodesFor(t, attrs);
  }
}
