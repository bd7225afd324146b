// Text, controls, escapes and strings in terminal input: what each is carried
// out as.
module InputText {
  import opened Common
  import opened InputTable
  import opened InputParser

  // ------------------------------------------------------------------
  // Text

  // Bytes that are printed as they are: those of ASCII, and those that start no
  // character of UTF-8, which none does when that is off.
  predicate Printed(ch: nat, utf8: bool) {
    0x20 <= ch <= 0x7e || (0x80 <= ch <= 0xff && (utf8 ==> ch <= 0xc1 || 0xf5 <= ch))
  }

  predicate Carried(ch: nat) {
    IsControl(ch) || ch == 0x18 || ch == 0x1a
  }

  lemma GroundFound(ch: nat)
    requires ch < 256 && ch != 0x1b
    ensures var t := Found(Ground, ch);
            && (Carried(ch) ==> t.handler == C0Dispatch && t.next in {Stay, To(Ground)})
            && ((0x20 <= ch <= 0x7e || 0x80 <= ch <= 0xc1 || 0xf5 <= ch) ==> t.handler == Print && t.next == Stay)
            && (ch == 0x7f ==> t.handler == NoHandler && t.next == Stay)
            && (0xc2 <= ch <= 0xf4 ==> t.handler == Handler.Utf8Open)
  {
    hide Search, Fits;
    Total(Ground, ch);
  }

  // Outside sequences a byte is printed, or carried out if it is a control, and
  // nothing else changes; DEL is ignored.
  lemma GroundStep(c: Ctx, ch: nat, utf8: bool)
    requires c.state == Ground && ch < 256
    ensures Printed(ch, utf8) ==> Step(c, ch, utf8) == (c, [PrintByte(ch)])
    ensures Carried(ch) ==> Step(c, ch, utf8) == (c, [Control(ch)])
    ensures ch == 0x7f ==> Step(c, ch, utf8) == (c, [])
  {
    hide Found;
    if ch != 0x1b {
      GroundFound(ch);
      var none: seq<Action> := [];
      assert [Control(ch)] + none == [Control(ch)];
      assert c.(state := Ground) == c;
    }
  }

  function TextAction(ch: nat): Action {
    if 0x20 <= ch then PrintByte(ch) else Control(ch)
  }

  function TextActions(s: seq<nat>): (acts: seq<Action>)
    ensures |acts| == |s| && forall i :: 0 <= i < |s| ==> acts[i] == TextAction(s[i])
  {
    seq(|s|, i requires 0 <= i < |s| => TextAction(s[i]))
  }

  // Text with controls in it: each byte once, in order, and nothing remembered.
  lemma {:induction false} TextPrinted(c: Ctx, s: seq<nat>, utf8: bool)
    requires c.state == Ground && forall i :: 0 <= i < |s| ==> Printed(s[i], utf8) || Carried(s[i])
    ensures Bytes(s) && Run(c, s, utf8) == (c, TextActions(s))
    decreases |s|
  {
    hide Step;
    if s != [] {
      GroundStep(c, s[0], utf8);
      TextPrinted(c, s[1..], utf8);
      assert TextActions(s) == [TextAction(s[0])] + TextActions(s[1..]);
    }
  }

  // ------------------------------------------------------------------
  // Escapes

  // The bytes after ESC that start something longer.
  predicate Starts(ch: nat) {
    ch in {0x50, 0x58, 0x5b, 0x5d, 0x5e, 0x5f, 0x6b}
  }

  lemma EscapeNext(ch: nat)
    requires 0x20 <= ch <= 0x7e
    ensures var t := Found(EscEnter, ch);
            && (ch <= 0x2f ==> t.handler == Intermediate && t.next == To(EscIntermediate))
            && (0x30 <= ch && !Starts(ch) ==> t.handler == Handler.EscDispatch && t.next == To(Ground))
            && (Starts(ch) ==> t.handler == NoHandler && t.next == To(
                  match ch
                  case 0x50 => DcsEnter
                  case 0x5b => CsiEnter
                  case 0x5d => OscString
                  case 0x5f => ApcString
                  case 0x6b => RenameString
                  case _ => ConsumeSt))
    ensures var t := Found(EscIntermediate, ch);
            && (ch <= 0x2f ==> t.handler == Intermediate && t.next == Stay)
            && (0x30 <= ch ==> t.handler == Handler.EscDispatch && t.next == To(Ground))
  {
    hide Search, Fits;
    Total(EscEnter, ch);
    Total(EscIntermediate, ch);
  }

  // ESC, from any state that it leaves: what was being collected is ended.
  lemma Escaped(c: Ctx, utf8: bool)
    requires Escapable(c.state)
    ensures Run(c, [0x1b], utf8) == (Ctx(EscEnter, [], [], [], false, c.wide), Exit(c))
  {
    hide Found, Exit, Run;
    EscapeFound(c.state);
    assert [] + Exit(c) == Exit(c);
    RunOne(c, 0x1b, utf8);
  }

  // Controls after ESC are carried out at once, and bytes past ASCII ignored.
  lemma EscapeOther(c: Ctx, ch: nat, utf8: bool)
    requires c.state in {EscEnter, EscIntermediate} && ch < 256
    ensures IsControl(ch) ==> Step(c, ch, utf8) == (c, [Control(ch)])
    ensures 0x7f <= ch ==> Step(c, ch, utf8) == (c, [])
  {
    hide Search, Fits;
    Total(EscEnter, ch);
    Total(EscIntermediate, ch);
  }

  lemma {:induction false} RunEscIntermediates(c: Ctx, s: seq<nat>, utf8: bool)
    requires c.state in {EscEnter, EscIntermediate} && |c.interm| <= INTERM_MAX
    requires forall i :: 0 <= i < |s| ==> 0x20 <= s[i] <= 0x2f
    ensures Bytes(s)
    ensures Run(c, s, utf8)
            == (c.(state := if s == [] then c.state else EscIntermediate, interm := Take(c.interm + s, INTERM_MAX),
                   discard := c.discard || |c.interm| + |s| > INTERM_MAX), [])
    decreases |s|
  {
    hide Step, Run, Take;
    if s == [] {
      RunNone(c, utf8);
      TakeAll(c.interm, INTERM_MAX);
    } else {
      var d := Collect(c, Intermediate, s[0]).(state := EscIntermediate);
      IntermediateStep(c, s[0], utf8);
      RunEscIntermediates(d, s[1..], utf8);
      RunQuietly(c, s, utf8);
      TakeStep(c.interm, s, INTERM_MAX);
    }
  }

  lemma IntermediateStep(c: Ctx, ch: nat, utf8: bool)
    requires c.state in {EscEnter, EscIntermediate} && 0x20 <= ch <= 0x2f
    ensures Step(c, ch, utf8) == (Collect(c, Intermediate, ch).(state := EscIntermediate), [])
  {
    hide Found;
    EscapeNext(ch);
    var none: seq<Action> := [];
    assert none + none == none;
  }

  lemma EscFinalStep(c: Ctx, ch: nat, utf8: bool)
    requires c.state in {EscEnter, EscIntermediate} && 0x30 <= ch <= 0x7e && (c.state == EscEnter ==> !Starts(ch))
    ensures Step(c, ch, utf8) == (c.(state := Ground), DispatchEsc(c, ch))
  {
    hide Found, DispatchEsc;
    EscapeNext(ch);
    var done := DispatchEsc(c, ch);
    assert done + [] == done;
  }

  // An escape is carried out as the table has it, with exactly its intermediates
  // and final byte, or not at all where there are more than there is room for.
  lemma EscapeParsed(c: Ctx, interms: seq<nat>, final: nat, utf8: bool)
    requires Escapable(c.state) && (forall i :: 0 <= i < |interms| ==> 0x20 <= interms[i] <= 0x2f)
    requires 0x30 <= final <= 0x7e && (interms == [] ==> !Starts(final))
    ensures Bytes([0x1b] + interms + [final])
    ensures var r := Run(c, [0x1b] + interms + [final], utf8);
            && r.0.state == Ground
            && r.1 == Exit(c) + if |interms| > INTERM_MAX then []
                                else match Lookup(ESC_TABLE, final, interms)
                                     case None => []
                                     case Some(e) => [Escape(e)]
  {
    hide Step, Run, Exit, Take, Lookup;
    Escaped(c, utf8);
    var d := Run(c, [0x1b], utf8).0;
    RunEscIntermediates(d, interms, utf8);
    var e := Run(d, interms, utf8).0;
    EscFinalStep(e, final, utf8);
    RunOne(e, final, utf8);
    RunAppend(c, [0x1b], interms, utf8);
    RunAppend(c, [0x1b] + interms, [final], utf8);
    if |interms| <= INTERM_MAX {
      TakeFits(interms);
    }
    assert Exit(c) + [] == Exit(c);
  }

  lemma TakeFits(s: seq<nat>)
    requires |s| <= INTERM_MAX
    ensures Take([] + s, INTERM_MAX) == s
  {
    assert [] + s == s;
  }

  // ------------------------------------------------------------------
  // Strings

  predicate Stringy(s: State) {
    s in {OscString, ApcString, RenameString, ConsumeSt}
  }

  // Bytes that do not end a string.
  predicate Inside(kind: State, ch: nat) {
    ch < 256 && ch !in {0x18, 0x1a, 0x1b} && (kind == OscString ==> ch != 0x07)
  }

  lemma StringFound(kind: State, ch: nat)
    requires Stringy(kind) && ch < 256
    ensures var t := Found(kind, ch);
            && (Inside(kind, ch) ==>
                  t.next == Stay && t.handler == if 0x20 <= ch && kind != ConsumeSt then Handler.Input else NoHandler)
            && (ch in {0x18, 0x1a} ==> t.handler == C0Dispatch && t.next == To(Ground))
            && (kind == OscString && ch == 0x07 ==> t.handler == NoHandler && t.next == To(Ground))
  {
    hide Search, Fits;
    Total(kind, ch);
  }

  // The bytes of a string that count: its controls are ignored.
  function Visible(s: seq<nat>): seq<nat> {
    if s == [] then [] else (if 0x20 <= s[0] then [s[0]] else []) + Visible(s[1..])
  }

  lemma StringStep(c: Ctx, ch: nat, utf8: bool)
    requires Stringy(c.state) && Inside(c.state, ch)
    ensures Step(c, ch, utf8)
            == (if 0x20 <= ch && c.state != ConsumeSt then Collect(c, Handler.Input, ch) else c, [])
  {
    hide Found;
    StringFound(c.state, ch);
  }

  lemma {:induction false} RunString(c: Ctx, s: seq<nat>, utf8: bool)
    requires Stringy(c.state) && |c.input| <= INPUT_MAX && forall i :: 0 <= i < |s| ==> Inside(c.state, s[i])
    ensures Bytes(s)
    ensures Run(c, s, utf8)
            == (if c.state == ConsumeSt then c
                else c.(input := Take(c.input + Visible(s), INPUT_MAX),
                        discard := c.discard || |c.input| + |Visible(s)| > INPUT_MAX), [])
    decreases |s|
  {
    hide Step, Run, Take;
    if s == [] {
      RunNone(c, utf8);
      TakeAll(c.input, INPUT_MAX);
    } else {
      StringStep(c, s[0], utf8);
      var d := Step(c, s[0], utf8).0;
      RunString(d, s[1..], utf8);
      RunQuietly(c, s, utf8);
      if 0x20 <= s[0] && c.state != ConsumeSt {
        assert Visible(s)[0] == s[0] && Visible(s)[1..] == Visible(s[1..]);
        TakeStep(c.input, Visible(s), INPUT_MAX);
      } else if 0x20 > s[0] {
        assert Visible(s) == Visible(s[1..]);
      }
    }
  }

  // What a string is delivered as: an OSC string has to start with a digit.
  function Delivered(kind: State, data: seq<nat>): seq<Action> {
    if |data| > INPUT_MAX then []
    else
      match kind
      case OscString => if data != [] && 0x30 <= data[0] <= 0x39 then [Osc(data)] else []
      case ApcString => [Apc(data)]
      case RenameString => [Rename(data)]
      case _ => []
  }

  function Opener(kind: State): nat {
    match kind
    case OscString => 0x5d
    case ApcString => 0x5f
    case RenameString => 0x6b
    case _ => 0x58
  }

  lemma StringOpened(c: Ctx, kind: State, utf8: bool)
    requires Escapable(c.state) && Stringy(kind)
    ensures Run(c, [0x1b, Opener(kind)], utf8) == (Ctx(kind, [], [], [], false, c.wide), Exit(c))
  {
    hide Found, Exit, Run;
    Escaped(c, utf8);
    var d := Ctx(EscEnter, [], [], [], false, c.wide);
    EscapeNext(Opener(kind));
    EscExits(d);
    assert [] + Exit(d) == [] && Exit(c) + [] == Exit(c);
    RunOne(d, Opener(kind), utf8);
    RunAppend(c, [0x1b], [Opener(kind)], utf8);
    assert [0x1b] + [Opener(kind)] == [0x1b, Opener(kind)];
  }

  lemma ExitDelivers(c: Ctx, kind: State, data: seq<nat>)
    requires Stringy(kind) && c.state == kind
    requires kind != ConsumeSt ==> c.discard == (|data| > INPUT_MAX) && (|data| <= INPUT_MAX ==> c.input == data)
    ensures Exit(c) == Delivered(kind, data)
  {
  }

  // A string is delivered when it ends, with exactly its bytes that are not
  // controls, or not at all when they are more than there is room for. ESC and
  // what comes after it, BEL for an OSC string, CAN or SUB end it.
  lemma StringDelivered(c: Ctx, kind: State, s: seq<nat>, last: nat, utf8: bool)
    requires Escapable(c.state) && Stringy(kind) && forall i :: 0 <= i < |s| ==> Inside(kind, s[i])
    requires last < 256 && !Inside(kind, last)
    ensures Bytes([0x1b, Opener(kind)] + s + [last])
    ensures var r := Run(c, [0x1b, Opener(kind)] + s + [last], utf8);
            && r.0.state == (if last == 0x1b then EscEnter else Ground)
            && r.1 == Exit(c) + (if last in {0x18, 0x1a} then [Control(last)] else []) + Delivered(kind, Visible(s))
  {
    hide Step, Run, Exit, Take, Delivered;
    StringOpened(c, kind, utf8);
    var d := Run(c, [0x1b, Opener(kind)], utf8).0;
    RunString(d, s, utf8);
    var e := Run(d, s, utf8).0;
    if |Visible(s)| <= INPUT_MAX {
      InputFits(Visible(s));
    }
    ExitDelivers(e, kind, Visible(s));
    EndStep(e, last, utf8);
    RunOne(e, last, utf8);
    RunAppend(c, [0x1b, Opener(kind)], s, utf8);
    RunAppend(c, [0x1b, Opener(kind)] + s, [last], utf8);
    assert Exit(c) + [] == Exit(c);
    var control := if last in {0x18, 0x1a} then [Control(last)] else [];
    assert Exit(c) + (control + Exit(e)) == Exit(c) + control + Exit(e);
  }

  lemma InputFits(s: seq<nat>)
    requires |s| <= INPUT_MAX
    ensures Take([] + s, INPUT_MAX) == s
  {
    assert [] + s == s;
  }

  lemma EndStep(c: Ctx, ch: nat, utf8: bool)
    requires Stringy(c.state) && ch < 256 && !Inside(c.state, ch)
    ensures var (d, done) := Step(c, ch, utf8);
            && d.state == (if ch == 0x1b then EscEnter else Ground)
            && done == (if ch in {0x18, 0x1a} then [Control(ch)] else []) + Exit(c)
  {
    hide Found, Exit;
    if ch == 0x1b {
      EscapeFound(c.state);
    } else {
      StringFound(c.state, ch);
    }
  }

  // ------------------------------------------------------------------
  // The commands

  // The final bytes that section 8.3 of ECMA-48 gives its control functions, with
  // CHA taken for HPA and HVP for CUP: those that move the cursor and edit;
  lemma EditingCommands()
    ensures Lookup(CSI_TABLE, '@' as int, []) == Some(ICH)
    ensures Lookup(CSI_TABLE, 'A' as int, []) == Some(CUU)
    ensures Lookup(CSI_TABLE, 'B' as int, []) == Some(CUD)
    ensures Lookup(CSI_TABLE, 'C' as int, []) == Some(CUF)
    ensures Lookup(CSI_TABLE, 'D' as int, []) == Some(CUB)
    ensures Lookup(CSI_TABLE, 'G' as int, []) == Some(HPA)
    ensures Lookup(CSI_TABLE, 'H' as int, []) == Some(CUP)
    ensures Lookup(CSI_TABLE, 'L' as int, []) == Some(IL)
    ensures Lookup(CSI_TABLE, 'M' as int, []) == Some(DL)
    ensures Lookup(CSI_TABLE, 'P' as int, []) == Some(DCH)
    ensures Lookup(CSI_TABLE, 'Z' as int, []) == Some(CBT)
    ensures Lookup(CSI_TABLE, 'd' as int, []) == Some(VPA)
    ensures Lookup(CSI_TABLE, 'f' as int, []) == Some(CUP)
  {
    hide Lookup;
    TablesAscending();
    LookupIs(CSI_TABLE, 0x40, [], 0);
    LookupIs(CSI_TABLE, 0x41, [], 1);
    LookupIs(CSI_TABLE, 0x42, [], 2);
    LookupIs(CSI_TABLE, 0x43, [], 3);
    LookupIs(CSI_TABLE, 0x44, [], 4);
    LookupIs(CSI_TABLE, 0x47, [], 5);
    LookupIs(CSI_TABLE, 0x48, [], 6);
    LookupIs(CSI_TABLE, 0x4c, [], 9);
    LookupIs(CSI_TABLE, 0x4d, [], 10);
    LookupIs(CSI_TABLE, 0x50, [], 11);
    LookupIs(CSI_TABLE, 0x5a, [], 12);
    LookupIs(CSI_TABLE, 0x64, [], 14);
    LookupIs(CSI_TABLE, 0x66, [], 15);
  }

  // those that erase, and the others.
  lemma StandardCommands()
    ensures Lookup(CSI_TABLE, 'J' as int, []) == Some(ED)
    ensures Lookup(CSI_TABLE, 'K' as int, []) == Some(EL)
    ensures Lookup(CSI_TABLE, 'c' as int, []) == Some(DA)
    ensures Lookup(CSI_TABLE, 'g' as int, []) == Some(TBC)
    ensures Lookup(CSI_TABLE, 'h' as int, []) == Some(SM)
    ensures Lookup(CSI_TABLE, 'l' as int, []) == Some(RM)
    ensures Lookup(CSI_TABLE, 'm' as int, []) == Some(SGR)
    ensures Lookup(CSI_TABLE, 'n' as int, []) == Some(DSR)
  {
    hide Lookup;
    TablesAscending();
    LookupIs(CSI_TABLE, 0x4a, [], 7);
    LookupIs(CSI_TABLE, 0x4b, [], 8);
    LookupIs(CSI_TABLE, 0x63, [], 13);
    LookupIs(CSI_TABLE, 0x67, [], 16);
    LookupIs(CSI_TABLE, 0x68, [], 17);
    LookupIs(CSI_TABLE, 0x6c, [], 19);
    LookupIs(CSI_TABLE, 0x6d, [], 21);
    LookupIs(CSI_TABLE, 0x6e, [], 22);
  }

  // Those private to DEC: modes after a question mark, the shape of the cursor
  // and the margins.
  lemma PrivateCommands()
    ensures Lookup(CSI_TABLE, 'h' as int, ['?' as int]) == Some(SM_PRIVATE)
    ensures Lookup(CSI_TABLE, 'l' as int, ['?' as int]) == Some(RM_PRIVATE)
    ensures Lookup(CSI_TABLE, 'q' as int, [' ' as int]) == Some(DECSCUSR)
    ensures Lookup(CSI_TABLE, 'r' as int, []) == Some(DECSTBM)
  {
    hide Lookup;
    TablesAscending();
    LookupIs(CSI_TABLE, 0x68, [0x3f], 18);
    LookupIs(CSI_TABLE, 0x6c, [0x3f], 20);
    LookupIs(CSI_TABLE, 0x71, [0x20], 23);
    LookupIs(CSI_TABLE, 0x72, [], 24);
  }

  // And those after ESC alone.
  lemma EscapeCommands()
    ensures Lookup(ESC_TABLE, '0' as int, ['(' as int]) == Some(SCSOFF_G0)
    ensures Lookup(ESC_TABLE, '7' as int, []) == Some(DECSC)
    ensures Lookup(ESC_TABLE, '8' as int, []) == Some(DECRC)
    ensures Lookup(ESC_TABLE, '8' as int, ['#' as int]) == Some(DECALN)
    ensures Lookup(ESC_TABLE, '=' as int, []) == Some(DECKPAM)
    ensures Lookup(ESC_TABLE, '>' as int, []) == Some(DECKPNM)
    ensures Lookup(ESC_TABLE, 'B' as int, ['(' as int]) == Some(SCSON_G0)
    ensures Lookup(ESC_TABLE, 'D' as int, []) == Some(IND)
    ensures Lookup(ESC_TABLE, 'E' as int, []) == Some(NEL)
    ensures Lookup(ESC_TABLE, 'H' as int, []) == Some(HTS)
    ensures Lookup(ESC_TABLE, 'M' as int, []) == Some(RI)
    ensures Lookup(ESC_TABLE, 'c' as int, []) == Some(RIS)
  {
    hide Lookup;
    TablesAscending();
    LookupIs(ESC_TABLE, 0x30, [0x28], 0);
    LookupIs(ESC_TABLE, 0x37, [], 1);
    LookupIs(ESC_TABLE, 0x38, [], 2);
    LookupIs(ESC_TABLE, 0x38, [0x23], 3);
    LookupIs(ESC_TABLE, 0x3d, [], 4);
    LookupIs(ESC_TABLE, 0x3e, [], 5);
    LookupIs(ESC_TABLE, 0x42, [0x28], 6);
    LookupIs(ESC_TABLE, 0x44, [], 7);
    LookupIs(ESC_TABLE, 0x45, [], 8);
    LookupIs(ESC_TABLE, 0x48, [], 9);
    LookupIs(ESC_TABLE, 0x4d, [], 10);
    LookupIs(ESC_TABLE, 0x63, [], 11);
  }
}
