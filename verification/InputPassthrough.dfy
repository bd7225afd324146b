// Bytes passed on to the outer terminal: a device control string that starts
// with tmux; has every ESC in it doubled.
module InputPassthrough {
  import opened InputTable
  import opened InputParser

  function Doubled(data: seq<nat>): (s: seq<nat>)
    ensures Bytes(data) ==> Bytes(s)
  {
    if data == [] then [] else (if data[0] == 0x1b then [0x1b, 0x1b] else [data[0]]) + Doubled(data[1..])
  }

  lemma DcsFound(ch: nat)
    requires ch < 256
    ensures var t := Found(DcsHandler, ch);
            if ch == 0x1b then t.handler == NoHandler && t.next == To(DcsEscape)
            else t.handler == Handler.Input && t.next == Stay
    ensures var t := Found(DcsEscape, ch);
            if ch == 0x5c then t.handler == DcsDispatch && t.next == To(Ground)
            else t.handler == Handler.Input && t.next == To(DcsHandler)
  {
    hide Search, Fits;
    Total(DcsHandler, ch);
    Total(DcsEscape, ch);
  }

  lemma DcsEntered()
    ensures Found(EscEnter, 0x50).handler == NoHandler && Found(EscEnter, 0x50).next == To(DcsEnter)
  {
    hide Search, Fits;
    Total(EscEnter, 0x50);
  }

  lemma DcsFirst()
    ensures Found(DcsEnter, TMUX[0]).handler == Handler.Input && Found(DcsEnter, TMUX[0]).next == To(DcsHandler)
  {
    hide Search, Fits;
    Total(DcsEnter, TMUX[0]);
  }

  lemma HandlerStep(c: Ctx, ch: nat, utf8: bool)
    requires c.state == DcsHandler && ch < 256
    ensures Step(c, ch, utf8) == (if ch == 0x1b then c.(state := DcsEscape) else Collect(c, Handler.Input, ch), [])
  {
    hide Found;
    DcsFound(ch);
    var none: seq<Action> := [];
    assert none + none == none;
  }

  lemma EscapeStep(c: Ctx, ch: nat, utf8: bool)
    requires c.state == DcsEscape && ch < 256
    ensures Step(c, ch, utf8) == if ch == 0x5c then (c.(state := Ground), DispatchDcs(c))
                                 else (Collect(c, Handler.Input, ch).(state := DcsHandler), [])
  {
    hide Found, DispatchDcs;
    DcsFound(ch);
    var none: seq<Action> := [];
    var done := DispatchDcs(c);
    assert none + none == none && done + none == done;
  }

  lemma FirstStep(c: Ctx, utf8: bool)
    requires c.state == DcsEnter && c.input == []
    ensures Step(c, TMUX[0], utf8) == (c.(state := DcsHandler, input := [TMUX[0]]), [])
  {
    hide Found;
    DcsFirst();
    var none: seq<Action> := [];
    assert none + none == none && c.input + [TMUX[0]] == [TMUX[0]];
  }

  // A byte of the data, doubled where it is ESC, is collected once.
  lemma DoubledByte(c: Ctx, b: nat, utf8: bool)
    requires c.state == DcsHandler && b < 256
    ensures Run(c, if b == 0x1b then [0x1b, 0x1b] else [b], utf8) == (Collect(c, Handler.Input, b), [])
  {
    hide Step, Run;
    HandlerStep(c, b, utf8);
    if b == 0x1b {
      EscapeStep(c.(state := DcsEscape), b, utf8);
      assert [0x1b, 0x1b][1..] == [0x1b];
      RunQuietly(c, [0x1b, 0x1b], utf8);
      RunOne(c.(state := DcsEscape), 0x1b, utf8);
    } else {
      RunOne(c, b, utf8);
    }
  }

  // Everything collected is what was doubled, up to the room there is.
  lemma {:induction false} RunDoubled(c: Ctx, data: seq<nat>, utf8: bool)
    requires c.state == DcsHandler && |c.input| <= INPUT_MAX && Bytes(data)
    ensures Run(c, Doubled(data), utf8)
            == (c.(input := Take(c.input + data, INPUT_MAX),
                   discard := c.discard || |c.input| + |data| > INPUT_MAX), [])
    decreases |data|
  {
    hide Step, Run, Take;
    if data == [] {
      RunNone(c, utf8);
      TakeAll(c.input, INPUT_MAX);
    } else {
      var d := Collect(c, Handler.Input, data[0]);
      var head := if data[0] == 0x1b then [0x1b, 0x1b] else [data[0]];
      DoubledByte(c, data[0], utf8);
      RunDoubled(d, data[1..], utf8);
      RunAppend(c, head, Doubled(data[1..]), utf8);
      TakeStep(c.input, data, INPUT_MAX);
      var none: seq<Action> := [];
      assert none + none == none;
    }
  }

  // The start of the string, from any state that ESC leaves.
  lemma Opened(c: Ctx, utf8: bool)
    requires Escapable(c.state)
    ensures Run(c, [0x1b, 0x50], utf8) == (Ctx(DcsEnter, [], [], [], false, c.wide), Exit(c))
  {
    hide Found, Exit, Run;
    EscapeFound(c.state);
    DcsEntered();
    var d := Enter(c, EscEnter);
    EscExits(d);
    assert [] + Exit(c) == Exit(c) && Exit(c) + [] == Exit(c) && [] + Exit(d) == [];
    assert Step(c, 0x1b, utf8) == (d, Exit(c));
    assert Step(d, 0x50, utf8) == (Enter(d, DcsEnter), []);
    RunOne(c, 0x1b, utf8);
    RunOne(d, 0x50, utf8);
    RunAppend(c, [0x1b], [0x50], utf8);
    assert [0x1b] + [0x50] == [0x1b, 0x50];
  }

  lemma PrefixRead(c: Ctx, utf8: bool)
    requires c.state == DcsEnter && c.input == [] && !c.discard
    ensures Run(c, TMUX, utf8) == (c.(state := DcsHandler, input := TMUX), [])
  {
    hide Step, Run, Take;
    var d := c.(state := DcsHandler, input := [TMUX[0]]);
    FirstStep(c, utf8);
    RunQuietly(c, TMUX, utf8);
    PlainDoubled();
    RunDoubled(d, TMUX[1..], utf8);
    assert [TMUX[0]] + TMUX[1..] == TMUX;
    TakeWhole(TMUX);
  }

  lemma TakeWhole(s: seq<nat>)
    requires |s| <= INPUT_MAX
    ensures Take(s, INPUT_MAX) == s
  {
  }

  lemma PlainDoubled()
    ensures Doubled(TMUX[1..]) == TMUX[1..]
  {
    PlainTail(TMUX[1..]);
  }

  lemma {:induction false} PlainTail(s: seq<nat>)
    requires forall i :: 0 <= i < |s| ==> s[i] != 0x1b
    ensures Doubled(s) == s
  {
    if s != [] {
      PlainTail(s[1..]);
      assert s == [s[0]] + s[1..];
    }
  }

  lemma Closed(c: Ctx, utf8: bool)
    requires c.state == DcsHandler
    ensures Run(c, [0x1b, 0x5c], utf8) == (c.(state := Ground), DispatchDcs(c))
  {
    hide Step, Run, DispatchDcs;
    HandlerStep(c, 0x1b, utf8);
    var d := c.(state := DcsEscape);
    EscapeStep(d, 0x5c, utf8);
    DispatchesAlike(c);
    RunOne(d, 0x5c, utf8);
    assert [0x1b, 0x5c][1..] == [0x5c];
    RunQuietly(c, [0x1b, 0x5c], utf8);
  }

  lemma DispatchesAlike(c: Ctx)
    ensures DispatchDcs(c.(state := DcsEscape)) == DispatchDcs(c)
  {
  }

  lemma DispatchIs(c: Ctx, data: seq<nat>)
    requires c.discard || c.input == TMUX + data
    ensures DispatchDcs(c) == if c.discard then [] else [Raw(data)]
  {
    if !c.discard {
      assert (TMUX + data)[|TMUX|..] == data;
    }
  }

  // The outer terminal is given exactly the data, or nothing when it and its
  // prefix are more than there is room for.
  lemma PassedThrough(c: Ctx, data: seq<nat>, utf8: bool)
    requires Escapable(c.state) && Bytes(data)
    ensures Bytes([0x1b, 0x50] + TMUX + Doubled(data) + [0x1b, 0x5c])
    ensures var r := Run(c, [0x1b, 0x50] + TMUX + Doubled(data) + [0x1b, 0x5c], utf8);
            && r.0.state == Ground
            && r.1 == Exit(c) + if |TMUX| + |data| <= INPUT_MAX then [Raw(data)] else []
  {
    hide Step, Run, Exit, DispatchDcs, Take;
    Opened(c, utf8);
    var d := Run(c, [0x1b, 0x50], utf8).0;
    PrefixRead(d, utf8);
    var e := Run(d, TMUX, utf8).0;
    RunDoubled(e, data, utf8);
    var f := Run(e, Doubled(data), utf8).0;
    Closed(f, utf8);
    if |TMUX + data| <= INPUT_MAX {
      TakeWhole(TMUX + data);
    }
    DispatchIs(f, data);
    RunAppend(c, [0x1b, 0x50], TMUX, utf8);
    RunAppend(c, [0x1b, 0x50] + TMUX, Doubled(data), utf8);
    RunAppend(c, [0x1b, 0x50] + TMUX + Doubled(data), [0x1b, 0x5c], utf8);
    NothingAdded(Exit(c), DispatchDcs(f));
  }

  lemma NothingAdded(a: seq<Action>, b: seq<Action>)
    ensures a + [] + [] + b == a + b
  {
  }

  // ------------------------------------------------------------------
  // Device control strings with parameters and intermediates

  // The handler and the state for a byte before the data.
  function DcsNext(s: State, ch: nat): (Handler, Next)
    requires s in {DcsEnter, DcsParameter, DcsIntermediate}
  {
    if ch < 0x20 || 0x7f <= ch then (NoHandler, Stay)
    else if 0x40 <= ch then (Handler.Input, To(DcsHandler))
    else if ch <= 0x2f then (Intermediate, if s == DcsIntermediate then Stay else To(DcsIntermediate))
    else if s == DcsIntermediate || ch == 0x3a then (NoHandler, To(DcsIgnore))
    else if ch < 0x3c then (Parameter, if s == DcsParameter then Stay else To(DcsParameter))
    else if s == DcsEnter then (Intermediate, To(DcsParameter))
    else (NoHandler, To(DcsIgnore))
  }

  lemma DcsNextFound(s: State, ch: nat)
    requires s in {DcsEnter, DcsParameter, DcsIntermediate} && ch < 256 && ch !in {0x18, 0x1a, 0x1b}
    ensures (Found(s, ch).handler, Found(s, ch).next) == DcsNext(s, ch)
  {
    hide Search, Fits;
    match s
    case DcsEnter => Total(DcsEnter, ch);
    case DcsParameter => Total(DcsParameter, ch);
    case DcsIntermediate => Total(DcsIntermediate, ch);
  }

  lemma IgnoreFound(ch: nat)
    requires ch < 256 && ch !in {0x18, 0x1a, 0x1b}
    ensures Found(DcsIgnore, ch).handler == NoHandler && Found(DcsIgnore, ch).next == Stay
  {
    hide Search, Fits;
    Total(DcsIgnore, ch);
  }

  // What a byte does before the data.
  lemma DcsStep(c: Ctx, ch: nat, utf8: bool)
    requires c.state in {DcsEnter, DcsParameter, DcsIntermediate} && ch < 256 && ch !in {0x18, 0x1a, 0x1b}
    ensures Step(c, ch, utf8).1 == []
    ensures c.state != DcsIntermediate && (Digit(ch) || ch == SEMICOLON) ==>
              Step(c, ch, utf8).0 == Collect(c, Parameter, ch).(state := DcsParameter)
    ensures 0x20 <= ch <= 0x2f ==> Step(c, ch, utf8).0 == Collect(c, Intermediate, ch).(state := DcsIntermediate)
    ensures 0x40 <= ch <= 0x7e ==> Step(c, ch, utf8).0 == Collect(c, Handler.Input, ch).(state := DcsHandler)
    ensures ch == 0x3a ==> Step(c, ch, utf8).0 == c.(state := DcsIgnore)
  {
    hide Found;
    DcsNextFound(c.state, ch);
    var none: seq<Action> := [];
    assert none + none == none;
  }

  lemma {:induction false} DcsParameters(c: Ctx, s: seq<nat>, utf8: bool)
    requires c.state in {DcsEnter, DcsParameter} && Parameters(s) && |c.param| <= PARAM_MAX
    ensures Bytes(s)
    ensures Run(c, s, utf8)
            == (c.(state := if s == [] then c.state else DcsParameter, param := Take(c.param + s, PARAM_MAX),
                   discard := c.discard || |c.param| + |s| > PARAM_MAX), [])
    decreases |s|
  {
    hide Step, Run, Take;
    if s == [] {
      RunNone(c, utf8);
      TakeAll(c.param, PARAM_MAX);
    } else {
      DcsStep(c, s[0], utf8);
      DcsParameters(Step(c, s[0], utf8).0, s[1..], utf8);
      RunQuietly(c, s, utf8);
      TakeStep(c.param, s, PARAM_MAX);
    }
  }

  lemma {:induction false} DcsIntermediates(c: Ctx, s: seq<nat>, utf8: bool)
    requires c.state in {DcsEnter, DcsParameter, DcsIntermediate} && |c.interm| <= INTERM_MAX
    requires forall i :: 0 <= i < |s| ==> 0x20 <= s[i] <= 0x2f
    ensures Bytes(s)
    ensures Run(c, s, utf8)
            == (c.(state := if s == [] then c.state else DcsIntermediate, interm := Take(c.interm + s, INTERM_MAX),
                   discard := c.discard || |c.interm| + |s| > INTERM_MAX), [])
    decreases |s|
  {
    hide Step, Run, Take;
    if s == [] {
      RunNone(c, utf8);
      TakeAll(c.interm, INTERM_MAX);
    } else {
      DcsStep(c, s[0], utf8);
      DcsIntermediates(Step(c, s[0], utf8).0, s[1..], utf8);
      RunQuietly(c, s, utf8);
      TakeStep(c.interm, s, INTERM_MAX);
    }
  }

  lemma DoubledFirst(data: seq<nat>)
    requires Bytes(data) && data != [] && data[0] != 0x1b
    ensures Doubled(data) != [] && Doubled(data)[0] == data[0] && Doubled(data)[1..] == Doubled(data[1..])
  {
  }

  // The data, its first byte ending what comes before.
  lemma DataRead(c: Ctx, data: seq<nat>, utf8: bool)
    requires c.state in {DcsEnter, DcsParameter, DcsIntermediate} && c.input == []
    requires Bytes(data) && data != [] && 0x40 <= data[0] <= 0x7e
    ensures Run(c, Doubled(data), utf8)
            == (c.(state := DcsHandler, input := Take(data, INPUT_MAX), discard := c.discard || |data| > INPUT_MAX), [])
  {
    hide Step, Run, Take, Doubled;
    DcsStep(c, data[0], utf8);
    var d := c.(state := DcsHandler, input := [data[0]]);
    assert c.input + [data[0]] == [data[0]];
    DoubledFirst(data);
    RunQuietly(c, Doubled(data), utf8);
    RunDoubled(d, data[1..], utf8);
    assert [data[0]] + data[1..] == data;
  }

  lemma DispatchedIs(c: Ctx, data: seq<nat>)
    requires c.discard || c.input == data
    ensures DispatchDcs(c) == if !c.discard && TMUX <= data then [Raw(data[|TMUX|..])] else []
  {
  }

  // Whatever comes before it, data that starts with tmux; is passed on, if all
  // of the string has room, and no other is.
  lemma DeviceString(c: Ctx, params: seq<nat>, interms: seq<nat>, data: seq<nat>, utf8: bool)
    requires Escapable(c.state) && Parameters(params) && forall i :: 0 <= i < |interms| ==> 0x20 <= interms[i] <= 0x2f
    requires Bytes(data) && data != [] && 0x40 <= data[0] <= 0x7e
    ensures Bytes([0x1b, 0x50] + params + interms + Doubled(data) + [0x1b, 0x5c])
    ensures var r := Run(c, [0x1b, 0x50] + params + interms + Doubled(data) + [0x1b, 0x5c], utf8);
            var fits := |params| <= PARAM_MAX && |interms| <= INTERM_MAX && |data| <= INPUT_MAX;
            && r.0.state == Ground
            && r.1 == Exit(c) + if fits && TMUX <= data then [Raw(data[|TMUX|..])] else []
  {
    hide Step, Run, Exit, DispatchDcs, Take;
    Opened(c, utf8);
    var d := Run(c, [0x1b, 0x50], utf8).0;
    DcsParameters(d, params, utf8);
    var e := Run(d, params, utf8).0;
    DcsIntermediates(e, interms, utf8);
    var f := Run(e, interms, utf8).0;
    DataRead(f, data, utf8);
    var g := Run(f, Doubled(data), utf8).0;
    Closed(g, utf8);
    if |data| <= INPUT_MAX {
      TakeWhole(data);
    }
    DispatchedIs(g, data);
    RunAppend(c, [0x1b, 0x50], params, utf8);
    RunAppend(c, [0x1b, 0x50] + params, interms, utf8);
    RunAppend(c, [0x1b, 0x50] + params + interms, Doubled(data), utf8);
    RunAppend(c, [0x1b, 0x50] + params + interms + Doubled(data), [0x1b, 0x5c], utf8);
    NothingAdded(Exit(c), []);
    NothingAdded(Exit(c), DispatchDcs(g));
  }

  lemma IgnoreStep(c: Ctx, ch: nat, utf8: bool)
    requires c.state == DcsIgnore && ch < 256 && ch !in {0x18, 0x1a, 0x1b}
    ensures Step(c, ch, utf8) == (c, [])
  {
    hide Found;
    IgnoreFound(ch);
  }

  lemma {:induction false} RunIgnored(c: Ctx, s: seq<nat>, utf8: bool)
    requires c.state == DcsIgnore && forall i :: 0 <= i < |s| ==> s[i] < 256 && s[i] !in {0x18, 0x1a, 0x1b}
    ensures Bytes(s) && Run(c, s, utf8) == (c, [])
    decreases |s|
  {
    hide Step, Run;
    if s == [] {
      RunNone(c, utf8);
    } else {
      IgnoreStep(c, s[0], utf8);
      RunIgnored(c, s[1..], utf8);
      RunQuietly(c, s, utf8);
    }
  }

  // A string with a colon before its data is ignored to its end.
  lemma DeviceIgnored(c: Ctx, params: seq<nat>, s: seq<nat>, utf8: bool)
    requires Escapable(c.state) && Parameters(params)
    requires forall i :: 0 <= i < |s| ==> s[i] < 256 && s[i] !in {0x18, 0x1a, 0x1b}
    ensures Bytes([0x1b, 0x50] + params + [0x3a] + s)
    ensures var r := Run(c, [0x1b, 0x50] + params + [0x3a] + s, utf8);
            r.0.state == DcsIgnore && r.1 == Exit(c)
  {
    hide Step, Run, Exit, Take;
    Opened(c, utf8);
    var d := Run(c, [0x1b, 0x50], utf8).0;
    DcsParameters(d, params, utf8);
    var e := Run(d, params, utf8).0;
    DcsStep(e, 0x3a, utf8);
    RunOne(e, 0x3a, utf8);
    RunIgnored(e.(state := DcsIgnore), s, utf8);
    RunAppend(c, [0x1b, 0x50], params, utf8);
    RunAppend(c, [0x1b, 0x50] + params, [0x3a], utf8);
    RunAppend(c, [0x1b, 0x50] + params + [0x3a], s, utf8);
    assert Exit(c) + [] == Exit(c);
  }
}
