// What a terminal draws characters with: what tmux remembers of it, and what
// the terminal has been told.
module TtyRendition {
  import opened GridLines
  import opened TtyCursor

  // What the terminal can do. The tables that turn 256 colours to 16 and to 88
  // may be any.
  datatype Term = Term(has: set<Code>, colours: nat, is256: bool, is88: bool, utf8: bool,
                       to16: nat -> nat, to88: nat -> nat)

  // The table of 16 colours has only those.
  ghost predicate Tabled(t: Term) {
    forall c: nat :: t.to16(c) < 16
  }

  // A colour on the terminal: the default, one set by its own code, a bright
  // one or one of a palette set by a sequence of SGR (section 8.3.117 of
  // ECMA-48).
  datatype Colour = Default | Basic(n: nat) | Bright(n: nat) | Index(n: nat)

  // The codes in effect that set attributes, the character set and the colours.
  datatype Rendition = Rendition(codes: set<Code>, acs: bool, fg: Colour, bg: Colour)

  const PLAIN := Rendition({}, false, Default, Default)

  // ------------------------------------------------------------------
  // The commands sent, and what the terminal makes of them

  function UsesAcs(t: Term): bool {
    Acsc in t.has && !t.utf8
  }

  // The code for an attribute, where the terminal has one.
  function AttrCodes(t: Term, a: Attr): set<Code> {
    match a
    case Bright => {Bold} * t.has
    case Dim => {DimCode} * t.has
    case Italics => if Sitm in t.has then {Sitm} else {Smso} * t.has
    case Underscore => {Smul} * t.has
    case Blink => {BlinkCode} * t.has
    case Reverse => if Rev in t.has then {Rev} else {Smso} * t.has
    case Hidden => {Invis} * t.has
    case Charset => {}
  }

  function CodesFor(t: Term, attrs: set<Attr>): (cs: set<Code>) {
    set a, c | a in attrs && c in AttrCodes(t, a) :: c
  }

  function AcsFor(t: Term, attrs: set<Attr>): bool {
    Attr.Charset in attrs && UsesAcs(t) && Smacs in t.has
  }

  // tty_putcode of SGR0, with RMACS.
  function Cleared(t: Term, r: Rendition, rmacs: bool): Rendition {
    var s := if rmacs && Rmacs in t.has then r.(acs := false) else r;
    if Sgr0 in t.has then s.(codes := {}, fg := Default, bg := Default) else s
  }

  // ------------------------------------------------------------------
  // tmux's side: the cell remembered, with the terminal

  datatype Pen = Pen(cell: GridCell, shown: Rendition)

  // tty_reset
  function Reset(t: Term, p: Pen): Pen {
    if p.cell == DEFAULT then p
    else Pen(DEFAULT, Cleared(t, p.shown, Attr.Charset in p.cell.attr && UsesAcs(t)))
  }

  // tty_check_fg
  function CheckFg(t: Term, gc: GridCell): GridCell {
    if Fg256 in gc.flags then
      if t.is88 || t.is256 then gc
      else
        var fg := t.to16(gc.fg);
        if fg / 8 % 2 == 1
        then gc.(fg := fg % 8, attr := gc.attr + {Attr.Bright}, flags := gc.flags - {Fg256})
        else gc.(fg := fg, attr := gc.attr - {Attr.Bright}, flags := gc.flags - {Fg256})
    else if 90 <= gc.fg <= 97 && t.colours < 16
    then gc.(fg := gc.fg - 90, attr := gc.attr + {Attr.Bright})
    else gc
  }

  // tty_check_bg
  function CheckBg(t: Term, gc: GridCell): GridCell {
    if Bg256 in gc.flags then
      if t.is88 || t.is256 then gc
      else
        var bg := t.to16(gc.bg);
        gc.(bg := if bg / 8 % 2 == 1 then bg % 8 else bg, attr := gc.attr - {Attr.Bright}, flags := gc.flags - {Bg256})
    else if 100 <= gc.bg <= 107 && t.colours < 16
    then gc.(bg := gc.bg - 90, attr := gc.attr + {Attr.Bright})
    else gc
  }

  // The start of tty_attributes: reverse stands for a background that can't be
  // set, and the colours are made ones that the terminal has.
  function Checked(t: Term, gc: GridCell): GridCell {
    var g :=
      if Setab in t.has then gc
      else if Attr.Reverse in gc.attr then
        if gc.fg != 7 && gc.fg != 8 then gc.(attr := gc.attr - {Attr.Reverse}) else gc
      else if gc.bg != 0 && gc.bg != 8 then gc.(attr := gc.attr + {Attr.Reverse}) else gc;
    CheckBg(t, CheckFg(t, g))
  }

  // tty_colours_fg, with tty_try_256 and tty_try_88
  function ColoursFg(t: Term, p: Pen, gc: GridCell): Pen {
    if Fg256 in gc.flags && !t.is256 && !t.is88 then p
    else
      var c := p.cell.(fg := gc.fg, flags := p.cell.flags - {Fg256} + gc.flags * {Fg256});
      Pen(c, p.shown.(fg := FgSent(t, gc, p.shown.fg)))
  }

  function FgSent(t: Term, gc: GridCell, before: Colour): Colour {
    if Fg256 in gc.flags then Index(if t.is256 then gc.fg else t.to88(gc.fg))
    else if 90 <= gc.fg <= 97 then Colour.Bright(gc.fg)
    else if Setaf in t.has then Basic(gc.fg) else before
  }

  // tty_colours_bg
  function ColoursBg(t: Term, p: Pen, gc: GridCell): Pen {
    if Bg256 in gc.flags && !t.is256 && !t.is88 then p
    else
      var bg := if Bg256 !in gc.flags && 100 <= gc.bg <= 107 && t.colours < 16 then gc.bg - 100 else gc.bg;
      var c := p.cell.(bg := bg, flags := p.cell.flags - {Bg256} + gc.flags * {Bg256});
      Pen(c, p.shown.(bg := BgSent(t, gc.(bg := bg), p.shown.bg)))
  }

  function BgSent(t: Term, gc: GridCell, before: Colour): Colour {
    if Bg256 in gc.flags then Index(if t.is256 then gc.bg else t.to88(gc.bg))
    else if 100 <= gc.bg <= 107 then Colour.Bright(gc.bg)
    else if Setab in t.has then Basic(gc.bg) else before
  }

  function FgDefault(gc: GridCell): bool {
    gc.fg == 8 && Fg256 !in gc.flags
  }

  function BgDefault(gc: GridCell): bool {
    gc.bg == 8 && Bg256 !in gc.flags
  }

  function SameFg(c: GridCell, gc: GridCell): bool {
    c.fg == gc.fg && (Fg256 in c.flags <==> Fg256 in gc.flags)
  }

  function SameBg(c: GridCell, gc: GridCell): bool {
    c.bg == gc.bg && (Bg256 in c.flags <==> Bg256 in gc.flags)
  }

  // The default foreground, without OP: by its own sequence, or as colour 7.
  function DefaultFg(t: Term, p: Pen): Pen {
    if FgDefault(p.cell) then p
    else Pen(p.cell.(fg := 8, flags := p.cell.flags - {Fg256}),
             p.shown.(fg := if Ax in t.has then Default
                           else if (p.cell.fg != 7 || Fg256 in p.cell.flags) && Setaf in t.has then Basic(7)
                           else p.shown.fg))
  }

  function DefaultBg(t: Term, p: Pen): Pen {
    if BgDefault(p.cell) then p
    else Pen(p.cell.(bg := 8, flags := p.cell.flags - {Bg256}),
             p.shown.(bg := if Ax in t.has then Default
                           else if (p.cell.bg != 0 || Bg256 in p.cell.flags) && Setab in t.has then Basic(0)
                           else p.shown.bg))
  }

  // The part of tty_colours for default colours.
  function DefaultColours(t: Term, p: Pen, gc: GridCell): Pen {
    if !FgDefault(gc) && !BgDefault(gc) then p
    else if Ax !in t.has && Op in t.has then Reset(t, p)
    else
      var q := if FgDefault(gc) then DefaultFg(t, p) else p;
      if BgDefault(gc) then DefaultBg(t, q) else q
  }

  // tty_colours
  function Colours(t: Term, p: Pen, gc: GridCell): Pen {
    if SameFg(p.cell, gc) && SameBg(p.cell, gc) then p
    else
      var q := DefaultColours(t, p, gc);
      var r := if !FgDefault(gc) && !SameFg(q.cell, gc) then ColoursFg(t, q, gc) else q;
      if !BgDefault(gc) && !SameBg(r.cell, gc) then ColoursBg(t, r, gc) else r
  }

  // The end of tty_attributes: set the attributes not yet set.
  function SetAttrs(t: Term, p: Pen, attrs: set<Attr>): Pen {
    var changed := attrs - p.cell.attr;
    Pen(p.cell.(attr := attrs),
        p.shown.(codes := p.shown.codes + CodesFor(t, changed), acs := p.shown.acs || AcsFor(t, changed)))
  }

  // tty_attributes
  function Attributes(t: Term, p: Pen, gc: GridCell): Pen {
    var gc2 := Checked(t, gc);
    var q := if p.cell.attr - gc2.attr != {} then Reset(t, p) else p;
    SetAttrs(t, Colours(t, q, gc2), gc2.attr)
  }

  // ------------------------------------------------------------------
  // The cache and the terminal agree

  // 256 or 88 colours, or bright ones, set without a code of the terminal's.
  predicate Rich(t: Term) {
    t.is256 || t.is88 || t.colours >= 16
  }

  // A cell as it is remembered once its colours have been made ones that the
  // terminal has.
  predicate Remembered(t: Term, c: GridCell) {
    && c.data == DEFAULT.data && c.flags <= {Fg256, Bg256}
    && (Fg256 in c.flags ==> t.is256 || t.is88) && (Fg256 !in c.flags && 90 <= c.fg <= 97 ==> t.colours >= 16)
    && (Bg256 in c.flags ==> t.is256 || t.is88) && (Bg256 !in c.flags && 100 <= c.bg <= 107 ==> t.colours >= 16)
  }

  function FgOf(t: Term, c: GridCell): Colour {
    if FgDefault(c) then Default else FgSent(t, c, Default)
  }

  function BgOf(t: Term, c: GridCell): Colour {
    if BgDefault(c) then Default else BgSent(t, c, Default)
  }

  // Where the terminal has neither AX nor OP the default can't be told from
  // the colour that stands for it.
  predicate Alike(t: Term, a: Colour, b: Colour, standin: Colour) {
    a == b || (Ax !in t.has && Op !in t.has && a in {Default, standin} && b in {Default, standin})
  }

  predicate Same(t: Term, r: Rendition, s: Rendition) {
    && r.codes == s.codes && r.acs == s.acs
    && Alike(t, r.fg, s.fg, Basic(7)) && Alike(t, r.bg, s.bg, Basic(0))
  }

  // What a cell looks like on a terminal told of it and of nothing else.
  function Drawn(t: Term, c: GridCell): Rendition {
    Rendition(CodesFor(t, c.attr), AcsFor(t, c.attr), FgOf(t, c), BgOf(t, c))
  }

  predicate Agrees(t: Term, p: Pen) {
    Remembered(t, p.cell) && Same(t, p.shown, Drawn(t, p.cell))
  }

  const FRESH := Pen(DEFAULT, PLAIN)

  // Telling the terminal only of differences comes to the same as resetting it
  // and telling it all.
  predicate Faithful(t: Term, p: Pen, gc: GridCell) {
    Same(t, Attributes(t, p, gc).shown, Attributes(t, FRESH, gc).shown)
  }

  const ATTRIBUTES: set<Code> := {Bold, DimCode, Sitm, Smso, Smul, BlinkCode, Rev, Invis}

  // What the terminal must be able to do: undo what it can do.
  predicate Undoes(t: Term) {
    && (Rich(t) ==> Setaf in t.has && Setab in t.has)
    && (Sgr0 in t.has || (ATTRIBUTES !! t.has && Setaf !in t.has && Setab !in t.has))
    && (UsesAcs(t) && Smacs in t.has ==> Rmacs in t.has)
  }

  // ------------------------------------------------------------------
  // That is enough

  lemma CodesUnion(t: Term, a: set<Attr>, b: set<Attr>)
    ensures CodesFor(t, a + b) == CodesFor(t, a) + CodesFor(t, b)
    ensures AcsFor(t, a + b) == (AcsFor(t, a) || AcsFor(t, b))
  {
  }

  lemma NoCodes(t: Term, attrs: set<Attr>)
    requires ATTRIBUTES !! t.has
    ensures CodesFor(t, attrs) == {}
  {
  }

  lemma ResetAgrees(t: Term, p: Pen)
    requires Undoes(t) && Agrees(t, p)
    ensures Agrees(t, Reset(t, p)) && Reset(t, p).cell == DEFAULT
  {
    if Sgr0 !in t.has {
      NoCodes(t, p.cell.attr);
    }
    assert CodesFor(t, {}) == {};
  }

  // A cell with the colours of another.
  function WithFg(c: GridCell, gc: GridCell): GridCell {
    c.(fg := gc.fg, flags := c.flags - {Fg256} + gc.flags * {Fg256})
  }

  function WithBg(c: GridCell, gc: GridCell): GridCell {
    c.(bg := gc.bg, flags := c.flags - {Bg256} + gc.flags * {Bg256})
  }

  // A foreground remembered in place of another is drawn as it is, whatever the
  // background.
  lemma FgAgrees(t: Term, p: Pen, c: GridCell, fg: Colour)
    requires Agrees(t, p) && Remembered(t, c) && c == WithFg(p.cell, c)
    requires Alike(t, fg, FgOf(t, c), Basic(7))
    ensures Agrees(t, Pen(c, p.shown.(fg := fg)))
  {
  }

  lemma BgAgrees(t: Term, p: Pen, c: GridCell, bg: Colour)
    requires Agrees(t, p) && Remembered(t, c) && c == WithBg(p.cell, c)
    requires Alike(t, bg, BgOf(t, c), Basic(0))
    ensures Agrees(t, Pen(c, p.shown.(bg := bg)))
  {
  }

  // A cell with its colours made ones that the terminal has.
  predicate Usable(t: Term, gc: GridCell) {
    && (Fg256 in gc.flags ==> t.is256 || t.is88) && (Fg256 !in gc.flags && 90 <= gc.fg <= 97 ==> t.colours >= 16)
    && (Bg256 in gc.flags ==> t.is256 || t.is88) && (Bg256 !in gc.flags && 100 <= gc.bg <= 107 ==> t.colours >= 16)
  }

  lemma CheckedUsable(t: Term, gc: GridCell)
    requires Tabled(t)
    ensures Usable(t, Checked(t, gc))
  {
  }

  lemma DefaultFgAgrees(t: Term, p: Pen)
    requires Undoes(t) && Agrees(t, p) && (Ax in t.has || Op !in t.has)
    ensures Agrees(t, DefaultFg(t, p)) && FgDefault(DefaultFg(t, p).cell)
    ensures DefaultFg(t, p).cell == p.cell.(fg := 8, flags := p.cell.flags - {Fg256})
  {
  }

  lemma DefaultBgAgrees(t: Term, p: Pen)
    requires Undoes(t) && Agrees(t, p) && (Ax in t.has || Op !in t.has)
    ensures Agrees(t, DefaultBg(t, p)) && BgDefault(DefaultBg(t, p).cell)
    ensures DefaultBg(t, p).cell == p.cell.(bg := 8, flags := p.cell.flags - {Bg256})
  {
  }

  lemma ColoursFgAgree(t: Term, p: Pen, gc: GridCell)
    requires Undoes(t) && Agrees(t, p) && Usable(t, gc) && !FgDefault(gc)
    ensures Agrees(t, ColoursFg(t, p, gc)) && ColoursFg(t, p, gc).cell == WithFg(p.cell, gc)
  {
    FgAgrees(t, p, WithFg(p.cell, gc), FgSent(t, gc, p.shown.fg));
  }

  lemma ColoursBgAgree(t: Term, p: Pen, gc: GridCell)
    requires Undoes(t) && Agrees(t, p) && Usable(t, gc) && !BgDefault(gc)
    ensures Agrees(t, ColoursBg(t, p, gc)) && ColoursBg(t, p, gc).cell == WithBg(p.cell, gc)
  {
    BgAgrees(t, p, WithBg(p.cell, gc), BgSent(t, gc, p.shown.bg));
  }

  lemma DefaultColoursAgree(t: Term, p: Pen, gc: GridCell)
    requires Undoes(t) && Agrees(t, p) && Usable(t, gc)
    ensures var q := DefaultColours(t, p, gc);
            && Agrees(t, q) && (FgDefault(gc) ==> FgDefault(q.cell)) && (BgDefault(gc) ==> BgDefault(q.cell))
            && (q.cell.attr == p.cell.attr || q.cell.attr == {})
  {
    hide DefaultFg, DefaultBg, Undoes, Agrees, Reset;
    if FgDefault(gc) || BgDefault(gc) {
      if Ax !in t.has && Op in t.has {
        ResetAgrees(t, p);
      } else {
        var q := if FgDefault(gc) then DefaultFg(t, p) else p;
        if FgDefault(gc) {
          DefaultFgAgrees(t, p);
        }
        if BgDefault(gc) {
          DefaultBgAgrees(t, q);
        }
      }
    }
  }

  // The colours remembered afterwards are those wanted.
  lemma ColoursAgree(t: Term, p: Pen, gc: GridCell)
    requires Undoes(t) && Agrees(t, p) && Usable(t, gc)
    ensures var r := Colours(t, p, gc);
            && Agrees(t, r) && SameFg(r.cell, gc) && SameBg(r.cell, gc)
            && (r.cell.attr == p.cell.attr || r.cell.attr == {})
  {
    hide DefaultColours, ColoursFg, ColoursBg, Undoes, Agrees;
    DefaultColoursAgree(t, p, gc);
    var q := DefaultColours(t, p, gc);
    var r := if !FgDefault(gc) && !SameFg(q.cell, gc) then ColoursFg(t, q, gc) else q;
    if !FgDefault(gc) && !SameFg(q.cell, gc) {
      ColoursFgAgree(t, q, gc);
    }
    if !BgDefault(gc) && !SameBg(r.cell, gc) {
      ColoursBgAgree(t, r, gc);
    }
  }

  lemma SetAttrsAgree(t: Term, p: Pen, attrs: set<Attr>)
    requires Agrees(t, p) && p.cell.attr <= attrs
    ensures Agrees(t, SetAttrs(t, p, attrs))
  {
    CodesUnion(t, p.cell.attr, attrs - p.cell.attr);
    assert p.cell.attr + (attrs - p.cell.attr) == attrs;
  }

  // The cache still matches, and remembers just what was wanted.
  lemma AttributesAgree(t: Term, p: Pen, gc: GridCell)
    requires Tabled(t) && Undoes(t) && Agrees(t, p)
    ensures var r, gc2 := Attributes(t, p, gc), Checked(t, gc);
            && Agrees(t, r)
            && r.cell == GridCell(gc2.attr, gc2.flags * {Fg256, Bg256}, gc2.fg, gc2.bg, DEFAULT.data)
  {
    hide Undoes, Reset, Colours, SetAttrs, Checked, Same, Drawn;
    var gc2 := Checked(t, gc);
    CheckedUsable(t, gc);
    ResetAgrees(t, p);
    var q := if p.cell.attr - gc2.attr != {} then Reset(t, p) else p;
    assert forall a :: a in p.cell.attr && a !in gc2.attr ==> a in p.cell.attr - gc2.attr;
    ColoursAgree(t, q, gc2);
    SetAttrsAgree(t, Colours(t, q, gc2), gc2.attr);
    SetAttrsCell(t, Colours(t, q, gc2), gc2.attr);
    var c := Colours(t, q, gc2).cell;
    assert c.flags == gc2.flags * {Fg256, Bg256};
  }

  lemma SetAttrsCell(t: Term, p: Pen, attrs: set<Attr>)
    ensures SetAttrs(t, p, attrs).cell == p.cell.(attr := attrs)
  {
  }

  lemma FreshAgrees(t: Term)
    ensures Agrees(t, FRESH)
  {
  }

  lemma Enough(t: Term, p: Pen, gc: GridCell)
    requires Tabled(t) && Undoes(t) && Agrees(t, p)
    ensures Faithful(t, p, gc)
  {
    hide Undoes, Attributes, Drawn;
    FreshAgrees(t);
    AttributesAgree(t, p, gc);
    AttributesAgree(t, FRESH, gc);
  }

  // ------------------------------------------------------------------
  // Nothing less is

  lemma OneCode(t: Term, a: Attr)
    ensures CodesFor(t, {a}) == AttrCodes(t, a)
  {
  }

  // A cell drawn truly.
  function True(t: Term, c: GridCell): Pen {
    Pen(c, Drawn(t, c))
  }

  // An attribute stays in effect when it can't be reset.
  lemma StuckAttribute(t: Term, a: Attr)
    requires Sgr0 !in t.has && AttrCodes(t, a) != {}
    ensures Agrees(t, True(t, DEFAULT.(attr := {a}))) && !Faithful(t, True(t, DEFAULT.(attr := {a})), DEFAULT)
  {
    OneCode(t, a);
    assert CodesFor(t, {}) == {};
  }

  lemma SomeAttribute(t: Term) returns (a: Attr)
    requires !(ATTRIBUTES !! t.has)
    ensures AttrCodes(t, a) != {}
  {
    var c :| c in ATTRIBUTES && c in t.has;
    a := if c == Bold then Attr.Bright else if c == DimCode then Attr.Dim
         else if c == Sitm || c == Smso then Attr.Italics else if c == Smul then Attr.Underscore
         else if c == BlinkCode then Attr.Blink else if c == Rev then Attr.Reverse else Attr.Hidden;
    assert if c == Smso && Sitm in t.has then Sitm in AttrCodes(t, a) else c in AttrCodes(t, a);
  }

  // So does the other character set.
  lemma StuckCharset(t: Term)
    requires UsesAcs(t) && Smacs in t.has && Rmacs !in t.has
    ensures var p := True(t, DEFAULT.(attr := {Attr.Charset})); Agrees(t, p) && !Faithful(t, p, DEFAULT)
  {
  }

  // And a colour, when clearing an attribute is taken to have reset it.
  lemma StuckColour(t: Term)
    requires Sgr0 !in t.has && (Setaf in t.has || Setab in t.has)
    ensures var c := DEFAULT.(attr := {Attr.Bright});
            var p := True(t, if Setaf in t.has then c.(fg := 1) else c.(bg := 1));
            Agrees(t, p) && !Faithful(t, p, DEFAULT)
  {
    var c := DEFAULT.(attr := {Attr.Bright});
    var p := True(t, if Setaf in t.has then c.(fg := 1) else c.(bg := 1));
    assert Checked(t, DEFAULT) == DEFAULT;
    assert Attr.Bright in p.cell.attr - DEFAULT.attr;
    assert Attributes(t, p, DEFAULT).shown.fg == p.shown.fg && Attributes(t, p, DEFAULT).shown.bg == p.shown.bg;
  }

  // A colour set by a sequence stays when one that needs a code is wanted.
  lemma StuckFg(t: Term)
    requires Rich(t) && Setaf !in t.has
    ensures var c := DEFAULT.(bg := 0);
            var p := True(t, if t.is256 || t.is88 then c.(fg := 1, flags := {Fg256}) else c.(fg := 90));
            Agrees(t, p) && !Faithful(t, p, c.(fg := 1))
  {
    assert CodesFor(t, {}) == {};
  }

  lemma StuckBg(t: Term)
    requires Rich(t) && Setaf in t.has && Setab !in t.has
    ensures var c := DEFAULT.(fg := 1);
            var p := True(t, if t.is256 || t.is88 then c.(bg := 1, flags := {Bg256}) else c.(bg := 100));
            Agrees(t, p) && !Faithful(t, p, c.(bg := 0))
  {
    assert CodesFor(t, {}) == {};
  }

  // Telling a terminal only of differences comes to the same as telling it all,
  // from every state that agrees with the cache and for every cell, just when
  // it can undo what it can do.
  lemma FaithfulExactly(t: Term)
    requires Tabled(t)
    ensures Undoes(t) <==> forall p, gc :: Agrees(t, p) ==> Faithful(t, p, gc)
  {
    hide Undoes, Agrees, Faithful;
    if Undoes(t) {
      forall p, gc | Agrees(t, p) ensures Faithful(t, p, gc) {
        Enough(t, p, gc);
      }
    } else {
      var p, gc := Needed(t);
    }
  }

  lemma Needed(t: Term) returns (p: Pen, gc: GridCell)
    requires !Undoes(t)
    ensures Agrees(t, p) && !Faithful(t, p, gc)
  {
    hide Agrees, Faithful;
    gc := DEFAULT;
    if Rich(t) && Setaf !in t.has {
      StuckFg(t);
      var c := DEFAULT.(bg := 0);
      p := True(t, if t.is256 || t.is88 then c.(fg := 1, flags := {Fg256}) else c.(fg := 90));
      gc := c.(fg := 1);
    } else if Rich(t) && Setab !in t.has {
      StuckBg(t);
      var c := DEFAULT.(fg := 1);
      p := True(t, if t.is256 || t.is88 then c.(bg := 1, flags := {Bg256}) else c.(bg := 100));
      gc := c.(bg := 0);
    } else if UsesAcs(t) && Smacs in t.has && Rmacs !in t.has {
      StuckCharset(t);
      p := True(t, DEFAULT.(attr := {Attr.Charset}));
    } else if !(ATTRIBUTES !! t.has) {
      var a := SomeAttribute(t);
      StuckAttribute(t, a);
      p := True(t, DEFAULT.(attr := {a}));
    } else {
      StuckColour(t);
      var c := DEFAULT.(attr := {Attr.Bright});
      p := True(t, if Setaf in t.has then c.(fg := 1) else c.(bg := 1));
    }
  }

  // ------------------------------------------------------------------
  // Runs

  function AttributesAll(t: Term, p: Pen, gcs: seq<GridCell>): Pen
    decreases |gcs|
  {
    if gcs == [] then p else Attributes(t, AttributesAll(t, p, gcs[..|gcs| - 1]), gcs[|gcs| - 1])
  }

  // However many cells have been drawn, the last looks as it would on its own.
  lemma {:induction false} LastLooksFresh(t: Term, gcs: seq<GridCell>)
    requires Tabled(t) && Undoes(t)
    ensures Agrees(t, AttributesAll(t, FRESH, gcs))
    ensures gcs != [] ==>
              Same(t, AttributesAll(t, FRESH, gcs).shown, Attributes(t, FRESH, gcs[|gcs| - 1]).shown)
    decreases |gcs|
  {
    hide Attributes, Agrees, Undoes, Same;
    FreshAgrees(t);
    if gcs != [] {
      var p := AttributesAll(t, FRESH, gcs[..|gcs| - 1]);
      LastLooksFresh(t, gcs[..|gcs| - 1]);
      AttributesAgree(t, p, gcs[|gcs| - 1]);
      Enough(t, p, gcs[|gcs| - 1]);
    }
  }
}
