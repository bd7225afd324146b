// The parser of terminal input as a machine over values: what each byte does
// to what has been collected, and what is carried out.
module InputParser {
  import opened Common
  import opened InputTable
  import opened Utf8

  // Room for intermediates, parameters and strings, less the zero that ends
  // each, and the length of the list of parameters.
  const INTERM_MAX := 3
  const PARAM_MAX := 63
  const INPUT_MAX := 255
  const LIST_MAX := 24

  datatype Ctx = Ctx(state: State, interm: seq<nat>, param: seq<nat>, input: seq<nat>, discard: bool, wide: Char)

  const START := Ctx(Ground, [], [], [], false, Char([], 0))

  // What is carried out.
  datatype Action =
    | PrintByte(ch: nat) | PrintWide(bytes: seq<nat>) | Control(ch: nat)
    | Escape(esc: EscCommand) | Csi(csi: CsiCommand, params: seq<int>)
    | Raw(input: seq<nat>) | Osc(input: seq<nat>) | Apc(input: seq<nat>) | Rename(input: seq<nat>)

  // ------------------------------------------------------------------
  // Parameters

  predicate Parameters(s: seq<nat>) {
    forall i :: 0 <= i < |s| ==> Digit(s[i]) || s[i] == SEMICOLON
  }

  // The fields between semicolons.
  function Fields(s: seq<nat>): (fs: seq<seq<nat>>)
    ensures fs != []
    decreases |s|
  {
    if s == [] then [[]]
    else
      var fs := Fields(s[..|s| - 1]);
      var b := s[|s| - 1];
      if b == SEMICOLON then fs + [[]] else fs[|fs| - 1 := fs[|fs| - 1] + [b]]
  }

  function Number(digits: seq<nat>): int
    decreases |digits|
  {
    if digits == [] then 0 else Number(digits[..|digits| - 1]) * 10 + digits[|digits| - 1] - 0x30
  }

  // A field's number, as strtonum limits it, or -1 where it is empty.
  function FieldOf(f: seq<nat>): Option<int> {
    if f == [] then Some(-1) else if Number(f) > INT_MAX then None else Some(Number(f))
  }

  function FieldsOf(fs: seq<seq<nat>>): Option<seq<int>>
    decreases |fs|
  {
    if fs == [] then Some([])
    else
      match FieldsOf(fs[..|fs| - 1])
      case None => None
      case Some(ns) =>
        match FieldOf(fs[|fs| - 1])
        case None => None
        case Some(n) => Some(ns + [n])
  }

  // input_split: the list is refused when it fills.
  function Split(param: seq<nat>): Option<seq<int>> {
    if param == [] then Some([])
    else if |Fields(param)| >= LIST_MAX then None
    else FieldsOf(Fields(param))
  }

  // ------------------------------------------------------------------
  // The handlers

  // Room is kept for the terminating zero; when it runs out the sequence is to
  // be discarded.
  function Collect(c: Ctx, h: Handler, ch: nat): Ctx {
    match h
    case Intermediate => if |c.interm| == INTERM_MAX then c.(discard := true) else c.(interm := c.interm + [ch])
    case Parameter => if |c.param| == PARAM_MAX then c.(discard := true) else c.(param := c.param + [ch])
    case Input => if |c.input| == INPUT_MAX then c.(discard := true) else c.(input := c.input + [ch])
    case _ => c
  }

  const TMUX: seq<nat> := [0x74, 0x6d, 0x75, 0x78, 0x3b]

  function DispatchEsc(c: Ctx, ch: nat): seq<Action> {
    if c.discard then []
    else
      match Lookup(ESC_TABLE, ch, c.interm)
      case None => []
      case Some(e) => [Escape(e)]
  }

  function DispatchCsi(c: Ctx, ch: nat): seq<Action> {
    if c.discard then []
    else
      match Split(c.param)
      case None => []
      case Some(ps) =>
        match Lookup(CSI_TABLE, ch, c.interm)
        case None => []
        case Some(e) => [Csi(e, ps)]
  }

  // strsep puts a zero over each semicolon that it finds.
  function Separated(s: seq<nat>, n: nat): (r: seq<nat>)
    ensures |r| == |s| && forall i :: 0 <= i < |s| ==> r[i] == if i < n && s[i] == SEMICOLON then 0 else s[i]
  {
    seq(|s|, i requires 0 <= i < |s| => if i < n && s[i] == SEMICOLON then 0 else s[i])
  }

  function FieldEnd(s: seq<nat>, start: nat): (end: nat)
    requires start <= |s|
    ensures start <= end <= |s| && (end < |s| ==> s[end] == SEMICOLON)
    ensures forall i :: start <= i < end ==> s[i] != SEMICOLON
    decreases |s| - start
  {
    if start == |s| || s[start] == SEMICOLON then start else FieldEnd(s, start + 1)
  }

  // How far input_split reads, with this many fields read before start.
  function Stop(s: seq<nat>, start: nat, read: nat): nat
    requires start <= |s|
    decreases |s| - start
  {
    var end := FieldEnd(s, start);
    if end == |s| then |s|
    else if FieldOf(s[start..end]) == None || read + 1 == LIST_MAX then end + 1
    else Stop(s, end + 1, read + 1)
  }

  // What a dispatch leaves of the parameters; they are cleared before any are
  // collected again.
  function Spent(c: Ctx): (param: seq<nat>)
    ensures |param| == |c.param|
  {
    if c.discard then c.param else Separated(c.param, Stop(c.param, 0, 0))
  }

  function DispatchDcs(c: Ctx): seq<Action> {
    if !c.discard && TMUX <= c.input then [Raw(c.input[|TMUX|..])] else []
  }

  // A handler: what it leaves, what it carries out and whether the state is
  // then to change.
  function Handle(c: Ctx, h: Handler, ch: nat, utf8: bool): (Ctx, seq<Action>, bool) {
    match h
    case NoHandler => (c, [], true)
    case C0Dispatch => (c, [Control(ch)], true)
    case Print => (c, [PrintByte(ch)], true)
    case Utf8Open => if utf8 then (c.(wide := Char([ch], SizeOf(ch))), [], true) else (c, [PrintByte(ch)], false)
    case Utf8Add => (c.(wide := c.wide.(bytes := c.wide.bytes + [ch])), [], true)
    case Utf8Close =>
      var wide := c.wide.(bytes := c.wide.bytes + [ch]);
      (c.(wide := wide), [PrintWide(wide.bytes)], true)
    case EscDispatch => (c, DispatchEsc(c, ch), true)
    case CsiDispatch => (c.(param := Spent(c)), DispatchCsi(c, ch), true)
    case DcsDispatch => (c, DispatchDcs(c), true)
    case _ => (Collect(c, h, ch), [], true)
  }

  // What is carried out on leaving a state.
  function Exit(c: Ctx): seq<Action> {
    if c.discard then []
    else
      match c.state
      case OscString => if c.input != [] && Digit(c.input[0]) then [Osc(c.input)] else []
      case ApcString => [Apc(c.input)]
      case RenameString => [Rename(c.input)]
      case _ => []
  }

  // Entering a state; some clear what has been collected.
  function Enter(c: Ctx, s: State): Ctx {
    if s in {EscEnter, CsiEnter, DcsEnter, OscString, ApcString, RenameString}
    then Ctx(s, [], [], [], false, c.wide)
    else c.(state := s)
  }

  // The body of the loop in input_parse.
  function Step(c: Ctx, ch: nat, utf8: bool): (Ctx, seq<Action>)
    requires ch < 256
  {
    var t := Found(c.state, ch);
    var (d, done, switch) := Handle(c, t.handler, ch, utf8);
    if !switch || t.next == Stay then (d, done)
    else (Enter(d, t.next.state), done + Exit(d))
  }

  predicate Bytes(s: seq<nat>) {
    forall i :: 0 <= i < |s| ==> s[i] < 256
  }

  function Run(c: Ctx, s: seq<nat>, utf8: bool): (Ctx, seq<Action>)
    requires Bytes(s)
    decreases |s|
  {
    if s == [] then (c, [])
    else
      var (d, done) := Step(c, s[0], utf8);
      var (e, rest) := Run(d, s[1..], utf8);
      (e, done + rest)
  }

  lemma {:induction false} RunAppend(c: Ctx, s: seq<nat>, t: seq<nat>, utf8: bool)
    requires Bytes(s) && Bytes(t)
    ensures Bytes(s + t)
    ensures Run(c, s + t, utf8)
            == (Run(Run(c, s, utf8).0, t, utf8).0, Run(c, s, utf8).1 + Run(Run(c, s, utf8).0, t, utf8).1)
    decreases |s|
  {
    hide Step;
    if s == [] {
      assert s + t == t;
      var acts := Run(c, t, utf8).1;
      assert [] + acts == acts;
    } else {
      var (d, done) := Step(c, s[0], utf8);
      var (e, a) := Run(d, s[1..], utf8);
      var (_, b) := Run(e, t, utf8);
      assert (s + t)[1..] == s[1..] + t && (s + t)[0] == s[0];
      RunAppend(d, s[1..], t, utf8);
      assert done + (a + b) == done + a + b;
    }
  }

  // ------------------------------------------------------------------
  // What is collected stays within bounds

  predicate Bounded(c: Ctx) {
    && |c.interm| <= INTERM_MAX && |c.param| <= PARAM_MAX && |c.input| <= INPUT_MAX
    && (Collecting(c.state) ==> Parameters(c.param))
    && |c.wide.bytes| <= 4 && c.wide.size <= 4
    && (Remaining(c.state) > 0 ==> |c.wide.bytes| + Remaining(c.state) == c.wide.size)
  }

  lemma StartBounded()
    ensures Bounded(START)
  {
  }

  // Every byte finds a transition, and what it adds finds room; a character
  // never has more bytes than it is to have.
  lemma StepBounded(c: Ctx, ch: nat, utf8: bool)
    requires Bounded(c) && ch < 256
    ensures Bounded(Step(c, ch, utf8).0)
    ensures var h := Found(c.state, ch).handler;
            h == Utf8Add || h == Utf8Close ==> |c.wide.bytes| < c.wide.size
    ensures Found(c.state, ch).handler == Utf8Close ==> |c.wide.bytes| + 1 == c.wide.size
  {
    hide Found, DispatchCsi, DispatchDcs, DispatchEsc, Exit, Spent;
  }

  lemma {:induction false} RunBounded(c: Ctx, s: seq<nat>, utf8: bool)
    requires Bounded(c) && Bytes(s)
    ensures Bounded(Run(c, s, utf8).0)
    decreases |s|
  {
    hide Bounded, Step;
    if s != [] {
      StepBounded(c, s[0], utf8);
      RunBounded(Step(c, s[0], utf8).0, s[1..], utf8);
    }
  }

  // ------------------------------------------------------------------
  // Control sequences

  predicate InCsi(s: State) {
    s == CsiEnter || s == CsiParameter || s == CsiIntermediate || s == CsiIgnore
  }

  // The handler and the state for a byte in a control sequence.
  function CsiNext(s: State, ch: nat): (Handler, Next)
    requires InCsi(s)
  {
    if ch == 0x18 || ch == 0x1a then (C0Dispatch, To(Ground))
    else if ch == 0x1b then (NoHandler, To(EscEnter))
    else if ch < 0x20 then (C0Dispatch, Stay)
    else if 0x7f <= ch then (NoHandler, Stay)
    else if s == CsiIgnore then (NoHandler, if ch < 0x40 then Stay else To(Ground))
    else if 0x40 <= ch then (CsiDispatch, To(Ground))
    else if ch <= 0x2f then (Intermediate, if s == CsiIntermediate then Stay else To(CsiIntermediate))
    else if s == CsiIntermediate || ch == 0x3a then (NoHandler, To(CsiIgnore))
    else if ch < 0x3c then (Parameter, if s == CsiParameter then Stay else To(CsiParameter))
    else if s == CsiEnter then (Intermediate, To(CsiParameter))
    else (NoHandler, To(CsiIgnore))
  }

  lemma CsiFound(s: State, ch: nat)
    requires InCsi(s) && ch < 256
    ensures (Found(s, ch).handler, Found(s, ch).next) == CsiNext(s, ch)
  {
    hide Search, Fits;
    match s
    case CsiEnter => CsiEnterFound(ch);
    case CsiParameter => CsiParameterFound(ch);
    case CsiIntermediate => CsiIntermediateFound(ch);
    case CsiIgnore => CsiIgnoreFound(ch);
  }

  lemma CsiEnterFound(ch: nat)
    requires ch < 256
    ensures (Found(CsiEnter, ch).handler, Found(CsiEnter, ch).next) == CsiNext(CsiEnter, ch)
  {
    hide Search, Fits;
    Total(CsiEnter, ch);
  }

  lemma CsiParameterFound(ch: nat)
    requires ch < 256
    ensures (Found(CsiParameter, ch).handler, Found(CsiParameter, ch).next) == CsiNext(CsiParameter, ch)
  {
    hide Search, Fits;
    Total(CsiParameter, ch);
  }

  lemma CsiIntermediateFound(ch: nat)
    requires ch < 256
    ensures (Found(CsiIntermediate, ch).handler, Found(CsiIntermediate, ch).next) == CsiNext(CsiIntermediate, ch)
  {
    hide Search, Fits;
    Total(CsiIntermediate, ch);
  }

  lemma CsiIgnoreFound(ch: nat)
    requires ch < 256
    ensures (Found(CsiIgnore, ch).handler, Found(CsiIgnore, ch).next) == CsiNext(CsiIgnore, ch)
  {
    hide Search, Fits;
    Total(CsiIgnore, ch);
  }

  predicate IsControl(ch: nat) {
    ch <= 0x17 || ch == 0x19 || 0x1c <= ch <= 0x1f
  }

  // What a byte does in a control sequence.
  lemma CsiStep(c: Ctx, ch: nat, utf8: bool)
    requires InCsi(c.state) && ch < 256
    ensures IsControl(ch) ==> Step(c, ch, utf8) == (c, [Control(ch)])
    ensures 0x20 <= ch && !(0x40 <= ch <= 0x7e) ==> Step(c, ch, utf8).1 == [] && InCsi(Step(c, ch, utf8).0.state)
    ensures c.state in {CsiEnter, CsiParameter} && (Digit(ch) || ch == SEMICOLON) ==>
              Step(c, ch, utf8).0 == Collect(c, Parameter, ch).(state := CsiParameter)
    ensures (c.state != CsiIgnore && 0x20 <= ch <= 0x2f) || (c.state == CsiEnter && 0x3c <= ch <= 0x3f) ==>
              Step(c, ch, utf8).0
              == Collect(c, Intermediate, ch).(state := if ch <= 0x2f then CsiIntermediate else CsiParameter)
    ensures 0x40 <= ch <= 0x7e ==>
              Step(c, ch, utf8) == if c.state == CsiIgnore then (c.(state := Ground), [])
                                   else (c.(state := Ground, param := Spent(c)), DispatchCsi(c, ch))
  {
    hide Found, DispatchCsi, Spent;
    CsiFound(c.state, ch);
    var none: seq<Action> := [];
    var done := DispatchCsi(c, ch);
    assert done + none == done && none + none == none;
  }

  // A sequence without its controls, and the controls.
  function Quiet(s: seq<nat>): seq<nat> {
    if s == [] then [] else (if IsControl(s[0]) then [] else [s[0]]) + Quiet(s[1..])
  }

  function Controls(s: seq<nat>): seq<Action> {
    if s == [] then [] else (if IsControl(s[0]) then [Control(s[0])] else []) + Controls(s[1..])
  }

  // The rest of a control sequence, to its final byte, with controls anywhere.
  predicate CsiBody(s: seq<nat>) {
    && s != [] && 0x40 <= s[|s| - 1] <= 0x7e
    && forall i :: 0 <= i < |s| - 1 ==> s[i] < 256 && (IsControl(s[i]) || 0x20 <= s[i] <= 0x3f || 0x7f <= s[i])
  }

  // Controls in a control sequence are carried out in order, and the sequence
  // as if they were not there.
  lemma {:induction false} Interleaved(c: Ctx, s: seq<nat>, utf8: bool)
    requires InCsi(c.state) && CsiBody(s)
    ensures Bytes(s) && Bytes(Quiet(s))
    ensures Run(c, s, utf8) == (Run(c, Quiet(s), utf8).0, Controls(s) + Run(c, Quiet(s), utf8).1)
    decreases |s|
  {
    hide Step, Run;
    CsiStep(c, s[0], utf8);
    if |s| == 1 {
      var rest := Run(c, s, utf8).1;
      assert Quiet(s) == s && Controls(s) == [] && [] + rest == rest;
    } else {
      var d := Step(c, s[0], utf8).0;
      Interleaved(d, s[1..], utf8);
      if IsControl(s[0]) {
        QuietControl(s);
        RunControl(c, s, utf8);
      } else {
        QuietOther(s);
        RunQuietly(c, s, utf8);
        RunQuietly(c, Quiet(s), utf8);
      }
    }
  }

  lemma QuietControl(s: seq<nat>)
    requires s != [] && IsControl(s[0])
    ensures Quiet(s) == Quiet(s[1..]) && Controls(s) == [Control(s[0])] + Controls(s[1..])
  {
  }

  lemma QuietOther(s: seq<nat>)
    requires s != [] && !IsControl(s[0])
    ensures Quiet(s) != [] && Quiet(s)[0] == s[0] && Quiet(s)[1..] == Quiet(s[1..])
    ensures Quiet(s) == [s[0]] + Quiet(s[1..]) && Controls(s) == Controls(s[1..])
  {
  }

  // A control in a control sequence, and what comes after it.
  lemma RunControl(c: Ctx, s: seq<nat>, utf8: bool)
    requires Bytes(s) && s != [] && IsControl(s[0]) && Step(c, s[0], utf8) == (c, [Control(s[0])])
    requires Bytes(Quiet(s[1..]))
    requires Run(c, s[1..], utf8)
             == (Run(c, Quiet(s[1..]), utf8).0, Controls(s[1..]) + Run(c, Quiet(s[1..]), utf8).1)
    ensures Run(c, s, utf8)
            == (Run(c, Quiet(s[1..]), utf8).0, [Control(s[0])] + Controls(s[1..]) + Run(c, Quiet(s[1..]), utf8).1)
  {
    hide Step, Quiet;
    var rest := Run(c, Quiet(s[1..]), utf8).1;
    assert [Control(s[0])] + (Controls(s[1..]) + rest) == [Control(s[0])] + Controls(s[1..]) + rest;
  }

  function Take(s: seq<nat>, n: nat): seq<nat> {
    if |s| <= n then s else s[..n]
  }

  lemma TakeStep(buf: seq<nat>, s: seq<nat>, n: nat)
    requires s != [] && |buf| <= n
    ensures Take((if |buf| == n then buf else buf + [s[0]]) + s[1..], n) == Take(buf + s, n)
  {
    assert buf + [s[0]] + s[1..] == buf + s;
  }

  lemma TakeAll(buf: seq<nat>, n: nat)
    requires |buf| <= n
    ensures Take(buf + [], n) == buf
  {
    assert buf + [] == buf;
  }

  lemma RunNone(c: Ctx, utf8: bool)
    ensures Run(c, [], utf8) == (c, [])
  {
  }

  // A byte that carries nothing out.
  lemma RunQuietly(c: Ctx, s: seq<nat>, utf8: bool)
    requires Bytes(s) && s != [] && Step(c, s[0], utf8).1 == []
    ensures Run(c, s, utf8) == Run(Step(c, s[0], utf8).0, s[1..], utf8)
  {
    hide Step;
    var rest := Run(Step(c, s[0], utf8).0, s[1..], utf8).1;
    assert [] + rest == rest;
  }

  lemma {:induction false} RunParameters(c: Ctx, s: seq<nat>, utf8: bool)
    requires c.state in {CsiEnter, CsiParameter} && Parameters(s) && |c.param| <= PARAM_MAX
    ensures Bytes(s)
    ensures Run(c, s, utf8)
            == (c.(state := if s == [] then c.state else CsiParameter, param := Take(c.param + s, PARAM_MAX),
                   discard := c.discard || |c.param| + |s| > PARAM_MAX), [])
    decreases |s|
  {
    hide Step, Run, Take;
    if s == [] {
      RunNone(c, utf8);
      TakeAll(c.param, PARAM_MAX);
    } else {
      CsiStep(c, s[0], utf8);
      var d := Step(c, s[0], utf8).0;
      RunParameters(d, s[1..], utf8);
      RunQuietly(c, s, utf8);
      TakeStep(c.param, s, PARAM_MAX);
    }
  }

  lemma {:induction false} RunIntermediates(c: Ctx, s: seq<nat>, utf8: bool)
    requires c.state in {CsiEnter, CsiParameter, CsiIntermediate} && |c.interm| <= INTERM_MAX
    requires forall i :: 0 <= i < |s| ==> 0x20 <= s[i] <= 0x2f
    ensures Bytes(s)
    ensures Run(c, s, utf8)
            == (c.(state := if s == [] then c.state else CsiIntermediate, interm := Take(c.interm + s, INTERM_MAX),
                   discard := c.discard || |c.interm| + |s| > INTERM_MAX), [])
    decreases |s|
  {
    hide Step, Run, Take;
    if s == [] {
      RunNone(c, utf8);
      TakeAll(c.interm, INTERM_MAX);
    } else {
      CsiStep(c, s[0], utf8);
      var d := Step(c, s[0], utf8).0;
      RunIntermediates(d, s[1..], utf8);
      RunQuietly(c, s, utf8);
      TakeStep(c.interm, s, INTERM_MAX);
    }
  }

  // A control sequence: a private marker, parameters, intermediates and a final
  // byte. It is dispatched with all that it has, or, when there is more of it
  // than there is room for, not at all.
  lemma CsiParsed(c: Ctx, marker: seq<nat>, params: seq<nat>, interms: seq<nat>, final: nat, utf8: bool)
    requires c == Ctx(CsiEnter, [], [], c.input, false, c.wide)
    requires |marker| <= 1 && (marker != [] ==> 0x3c <= marker[0] <= 0x3f) && Parameters(params)
    requires (forall i :: 0 <= i < |interms| ==> 0x20 <= interms[i] <= 0x2f) && 0x40 <= final <= 0x7e
    ensures Bytes(marker + params + interms + [final])
    ensures var r := Run(c, marker + params + interms + [final], utf8);
            && r.0.state == Ground
            && r.1 == if |params| > PARAM_MAX || |marker + interms| > INTERM_MAX then []
                      else DispatchCsi(c.(interm := marker + interms, param := params), final)
  {
    hide Step, Run, DispatchCsi;
    RunMarker(c, marker, utf8);
    var d := Run(c, marker, utf8).0;
    RunParameters(d, params, utf8);
    var e := Run(d, params, utf8).0;
    RunIntermediates(e, interms, utf8);
    var f := Run(e, interms, utf8).0;
    CsiStep(f, final, utf8);
    RunOne(f, final, utf8);
    RunAppend(c, marker, params, utf8);
    RunAppend(c, marker + params, interms, utf8);
    RunAppend(c, marker + params + interms, [final], utf8);
    DispatchAlike(f, c.(interm := marker + interms, param := params), final);
    assert [] + params == params;
  }

  // What is dispatched depends on what was collected and on nothing else.
  lemma DispatchAlike(c: Ctx, d: Ctx, ch: nat)
    requires c.discard || (c.interm == d.interm && c.param == d.param)
    ensures DispatchCsi(c, ch) == if c.discard then [] else DispatchCsi(d.(discard := false), ch)
  {
  }

  lemma RunOne(c: Ctx, ch: nat, utf8: bool)
    requires ch < 256
    ensures Run(c, [ch], utf8) == Step(c, ch, utf8)
  {
    hide Step;
    var (d, done) := Step(c, ch, utf8);
    assert Run(d, [], utf8) == (d, []);
    assert done + [] == done;
  }

  lemma RunMarker(c: Ctx, marker: seq<nat>, utf8: bool)
    requires c == Ctx(CsiEnter, [], [], c.input, false, c.wide)
    requires |marker| <= 1 && (marker != [] ==> 0x3c <= marker[0] <= 0x3f)
    ensures Bytes(marker)
    ensures Run(c, marker, utf8)
            == (c.(state := if marker == [] then CsiEnter else CsiParameter, interm := marker), [])
  {
    hide Step;
    if marker != [] {
      CsiStep(c, marker[0], utf8);
      RunOne(c, marker[0], utf8);
      assert marker == [marker[0]] && [] + marker == marker;
    }
  }

  // The states that a control sequence may start from, whatever they hold.
  predicate Escapable(s: State) {
    s !in {DcsHandler, DcsEscape, Utf8Three, Utf8Two, Utf8One}
  }

  lemma AnywhereFirst(s: State)
    requires Escapable(s)
    ensures |Table(s)| >= 3 && Table(s)[0] == ANYWHERE[0] && Table(s)[1] == ANYWHERE[1] && Table(s)[2] == ANYWHERE[2]
  {
  }

  lemma EscapeFound(s: State)
    requires Escapable(s)
    ensures Found(s, 0x1b).handler == NoHandler && Found(s, 0x1b).next == To(EscEnter)
  {
    hide Table, Fits;
    AnywhereFirst(s);
    SearchIs(Table(s), 0x1b, 2);
  }

  lemma BracketFound()
    ensures Found(EscEnter, 0x5b).handler == NoHandler && Found(EscEnter, 0x5b).next == To(CsiEnter)
  {
    hide Search, Fits;
    Total(EscEnter, 0x5b);
  }

  // ESC and [ clear what was collected before.
  lemma Introduced(c: Ctx, utf8: bool)
    requires Escapable(c.state)
    ensures Run(c, [0x1b, 0x5b], utf8) == (Ctx(CsiEnter, [], [], [], false, c.wide), Exit(c))
  {
    hide Found, Exit, Run;
    EscapeFound(c.state);
    BracketFound();
    var d := Enter(c, EscEnter);
    EscExits(d);
    assert [] + Exit(c) == Exit(c) && Exit(c) + [] == Exit(c) && [] + Exit(d) == [];
    assert Step(c, 0x1b, utf8) == (d, Exit(c));
    assert Step(d, 0x5b, utf8) == (Enter(d, CsiEnter), []);
    RunOne(c, 0x1b, utf8);
    RunOne(d, 0x5b, utf8);
    RunAppend(c, [0x1b], [0x5b], utf8);
    assert [0x1b] + [0x5b] == [0x1b, 0x5b];
  }

  lemma EscExits(c: Ctx)
    requires c.state == EscEnter
    ensures Exit(c) == []
  {
  }

  // A whole control sequence, with controls anywhere in it: what was being
  // collected before is ended, the controls are carried out in order, and the
  // sequence is dispatched with all that it has or, when that is too long, not.
  lemma WholeSequence(c: Ctx, s: seq<nat>, marker: seq<nat>, params: seq<nat>, interms: seq<nat>, final: nat,
                      utf8: bool)
    requires Escapable(c.state) && CsiBody(s) && Quiet(s) == marker + params + interms + [final]
    requires |marker| <= 1 && (marker != [] ==> 0x3c <= marker[0] <= 0x3f) && Parameters(params)
    requires (forall i :: 0 <= i < |interms| ==> 0x20 <= interms[i] <= 0x2f) && 0x40 <= final <= 0x7e
    ensures Bytes([0x1b, 0x5b] + s)
    ensures var r := Run(c, [0x1b, 0x5b] + s, utf8);
            && r.0.state == Ground
            && r.1 == Exit(c) + (Controls(s)
                 + if |params| > PARAM_MAX || |marker + interms| > INTERM_MAX then []
                   else DispatchCsi(Ctx(CsiEnter, marker + interms, params, [], false, c.wide), final))
  {
    hide Run, Exit, DispatchCsi, Quiet, Controls;
    var d := Ctx(CsiEnter, [], [], [], false, c.wide);
    Introduced(c, utf8);
    Interleaved(d, s, utf8);
    CsiParsed(d, marker, params, interms, final, utf8);
    RunAppend(c, [0x1b, 0x5b], s, utf8);
  }

  // ------------------------------------------------------------------
  // Characters

  lemma LeadFound(ch: nat)
    requires 0xc2 <= ch <= 0xf4
    ensures Found(Ground, ch).handler == Utf8Open
    ensures Found(Ground, ch).next == To(if ch < 0xe0 then Utf8One else if ch < 0xf0 then Utf8Two else Utf8Three)
  {
    hide Search, Fits;
    Total(Ground, ch);
  }

  lemma MiddleFound(s: State, ch: nat)
    requires Remaining(s) > 0 && ch < 256
    ensures Continues(ch) && s == Utf8One ==>
              Found(s, ch).handler == Utf8Close && Found(s, ch).next == To(Ground)
    ensures Continues(ch) && s != Utf8One ==>
              Found(s, ch).handler == Utf8Add && Found(s, ch).next == To(if s == Utf8Two then Utf8One else Utf8Two)
    ensures !Continues(ch) ==> Found(s, ch).handler == NoHandler && Found(s, ch).next == To(Ground)
  {
    hide Search, Fits;
    Total(s, ch);
  }

  // What a byte does in the middle of a character: one that does not continue
  // it is lost with it.
  lemma MiddleStep(c: Ctx, ch: nat, utf8: bool)
    requires Remaining(c.state) > 0 && ch < 256
    ensures var bytes := c.wide.bytes + [ch];
            Step(c, ch, utf8)
            == if !Continues(ch) then (c.(state := Ground), [])
               else if c.state == Utf8One
               then (c.(state := Ground, wide := c.wide.(bytes := bytes)), [PrintWide(bytes)])
               else (c.(state := if c.state == Utf8Two then Utf8One else Utf8Two,
                        wide := c.wide.(bytes := bytes)), [])
  {
    hide Found;
    MiddleFound(c.state, ch);
    var none: seq<Action> := [];
    var acts := [PrintWide(c.wide.bytes + [ch])];
    assert none + none == none && acts + none == acts;
  }

  lemma LeadStep(c: Ctx, ch: nat)
    requires c.state == Ground && 0xc2 <= ch <= 0xf4
    ensures Step(c, ch, true)
            == (c.(state := if ch < 0xe0 then Utf8One else if ch < 0xf0 then Utf8Two else Utf8Three,
                   wide := Char([ch], SizeOf(ch))), [])
  {
    hide Found;
    LeadFound(ch);
    var none: seq<Action> := [];
    assert none + none == none;
  }

  // The rest of a character prints it.
  lemma {:induction false} RestParsed(c: Ctx, s: seq<nat>, utf8: bool)
    requires 0 < |s| == Remaining(c.state) && forall i :: 0 <= i < |s| ==> Continues(s[i])
    ensures Bytes(s)
    ensures Run(c, s, utf8)
            == (c.(state := Ground, wide := c.wide.(bytes := c.wide.bytes + s)), [PrintWide(c.wide.bytes + s)])
    decreases |s|
  {
    hide Step, Run;
    MiddleStep(c, s[0], utf8);
    if |s| == 1 {
      assert s == [s[0]];
      RunOne(c, s[0], utf8);
    } else {
      var d := Step(c, s[0], utf8).0;
      RunQuietly(c, s, utf8);
      RestParsed(d, s[1..], utf8);
      assert c.wide.bytes + [s[0]] + s[1..] == c.wide.bytes + s;
    }
  }

  // The encoding of every code point of more than one byte is printed as one
  // character.
  lemma CharacterParsed(c: Ctx, uc: nat)
    requires c.state == Ground && 0x80 <= uc < 0x110000
    ensures Bytes(Encode(uc))
    ensures Run(c, Encode(uc), true)
            == (c.(wide := Char(Encode(uc), |Encode(uc)|)), [PrintWide(Encode(uc))])
  {
    hide Step, Run;
    var s := Encode(uc);
    assert |s| == SizeOf(s[0]) && 0xc2 <= s[0] <= 0xf4 && forall i :: 1 <= i < |s| ==> Continues(s[i]);
    LeadStep(c, s[0]);
    var d := Step(c, s[0], true).0;
    RestParsed(d, s[1..], true);
    RunQuietly(c, s, true);
    assert [s[0]] + s[1..] == s;
  }

  // ------------------------------------------------------------------
  // Parameters read back

  function Decimal(n: nat): seq<nat> {
    if n < 10 then [0x30 + n] else Decimal(n / 10) + [0x30 + n % 10]
  }

  function FieldText(n: int): seq<nat> {
    if n < 0 then [] else Decimal(n)
  }

  // Numbers between semicolons, -1 standing for one left out.
  function Join(ns: seq<int>): seq<nat>
    requires ns != []
    decreases |ns|
  {
    var text := FieldText(ns[|ns| - 1]);
    if |ns| == 1 then text else Join(ns[..|ns| - 1]) + [SEMICOLON] + text
  }

  lemma {:induction false} DecimalNumber(n: nat)
    ensures Number(Decimal(n)) == n && Decimal(n) != []
    ensures forall i :: 0 <= i < |Decimal(n)| ==> Digit(Decimal(n)[i])
    decreases n
  {
    if n >= 10 {
      DecimalNumber(n / 10);
      assert Decimal(n)[..|Decimal(n)| - 1] == Decimal(n / 10);
    }
  }

  lemma {:induction false} FieldsAppend(s: seq<nat>, digits: seq<nat>)
    requires forall i :: 0 <= i < |digits| ==> Digit(digits[i])
    ensures var fs := Fields(s); Fields(s + digits) == fs[|fs| - 1 := fs[|fs| - 1] + digits]
    decreases |digits|
  {
    if digits == [] {
      assert s + digits == s && Fields(s)[|Fields(s)| - 1] + digits == Fields(s)[|Fields(s)| - 1];
    } else {
      var last := |digits| - 1;
      FieldsAppend(s, digits[..last]);
      assert (s + digits)[..|s + digits| - 1] == s + digits[..last];
      var fs := Fields(s);
      assert fs[|fs| - 1] + digits[..last] + [digits[last]] == fs[|fs| - 1] + digits;
      assert (s + digits)[|s + digits| - 1] == digits[last];
    }
  }

  lemma FieldRead(n: int)
    requires -1 <= n <= INT_MAX
    ensures FieldOf(FieldText(n)) == Some(n)
    ensures forall i :: 0 <= i < |FieldText(n)| ==> Digit(FieldText(n)[i])
  {
    if n >= 0 {
      DecimalNumber(n);
    }
  }

  function Texts(ns: seq<int>): (fs: seq<seq<nat>>)
    ensures |fs| == |ns|
    decreases |ns|
  {
    if ns == [] then [] else Texts(ns[..|ns| - 1]) + [FieldText(ns[|ns| - 1])]
  }

  predicate Numbers(ns: seq<int>) {
    forall i :: 0 <= i < |ns| ==> -1 <= ns[i] <= INT_MAX
  }

  lemma {:induction false} JoinFields(ns: seq<int>)
    requires ns != [] && Numbers(ns)
    ensures Fields(Join(ns)) == Texts(ns)
    decreases |ns|
  {
    hide Fields, FieldOf, FieldText, Join, Texts;
    var last := |ns| - 1;
    FieldRead(ns[last]);
    TextsLast(ns);
    if |ns| == 1 {
      JoinOne(ns);
      LoneField(FieldText(ns[0]));
    } else {
      JoinMore(ns);
      JoinFields(ns[..last]);
      NextField(Join(ns[..last]), FieldText(ns[last]));
    }
  }

  lemma TextsLast(ns: seq<int>)
    requires ns != []
    ensures Texts(ns) == Texts(ns[..|ns| - 1]) + [FieldText(ns[|ns| - 1])]
    ensures |ns| == 1 ==> Texts(ns) == [FieldText(ns[0])]
  {
    hide FieldText;
    assert |ns| == 1 ==> Texts(ns[..0]) == [];
  }

  lemma JoinOne(ns: seq<int>)
    requires |ns| == 1
    ensures Join(ns) == FieldText(ns[0])
  {
    hide FieldText;
  }

  lemma JoinMore(ns: seq<int>)
    requires |ns| > 1
    ensures Join(ns) == Join(ns[..|ns| - 1]) + [SEMICOLON] + FieldText(ns[|ns| - 1])
  {
    hide FieldText;
  }

  lemma LoneField(digits: seq<nat>)
    requires forall i :: 0 <= i < |digits| ==> Digit(digits[i])
    ensures Fields(digits) == [digits]
  {
    var none: seq<nat> := [];
    FieldsAppend(none, digits);
    assert none + digits == digits && Fields(none) == [none];
  }

  // A semicolon and a field more.
  lemma NextField(s: seq<nat>, digits: seq<nat>)
    requires forall i :: 0 <= i < |digits| ==> Digit(digits[i])
    ensures Fields(s + [SEMICOLON] + digits) == Fields(s) + [digits]
  {
    hide Fields;
    var t := s + [SEMICOLON];
    FieldsSemicolon(t);
    assert t[..|t| - 1] == s;
    FieldsAppend(t, digits);
    var none: seq<nat> := [];
    assert none + digits == digits;
    assert Fields(t)[|Fields(t)| - 1] == none;
    assert Fields(t)[|Fields(t)| - 1 := digits] == Fields(s) + [digits];
  }

  lemma {:induction false} TextsRead(ns: seq<int>)
    requires Numbers(ns)
    ensures FieldsOf(Texts(ns)) == Some(ns)
    decreases |ns|
  {
    if ns != [] {
      var last := |ns| - 1;
      TextsRead(ns[..last]);
      FieldRead(ns[last]);
      assert Texts(ns)[..last] == Texts(ns[..last]);
      assert ns[..last] + [ns[last]] == ns;
    }
  }

  // A list of parameters is read back as it was written, unless it is as long
  // as there is room for.
  lemma SplitJoin(ns: seq<int>)
    requires ns != [] && ns != [-1] && Numbers(ns)
    ensures Split(Join(ns)) == if |ns| >= LIST_MAX then None else Some(ns)
  {
    JoinFields(ns);
    TextsRead(ns);
    FieldRead(ns[0]);
  }

  lemma {:induction false} FieldsCounted(fs: seq<seq<nat>>)
    ensures FieldsOf(fs).Some? ==> |FieldsOf(fs).value| == |fs|
    decreases |fs|
  {
    if fs != [] {
      FieldsCounted(fs[..|fs| - 1]);
    }
  }

  // No list that is dispatched has filled its room.
  lemma DispatchedShort(c: Ctx, ch: nat)
    ensures DispatchCsi(c, ch) != [] ==> !c.discard && |DispatchCsi(c, ch)[0].params| < LIST_MAX
  {
    FieldsCounted(Fields(c.param));
  }

  // Reading on only adds to the fields, past a semicolon.
  lemma {:induction false} FieldsGrow(s: seq<nat>, t: seq<nat>)
    ensures |Fields(s)| <= |Fields(s + t)|
    ensures Fields(s)[..|Fields(s)| - 1] <= Fields(s + t)
    ensures t != [] && t[0] == SEMICOLON ==> Fields(s) < Fields(s + t)
    decreases |t|
  {
    if t == [] {
      assert s + t == s;
    } else {
      var last := |t| - 1;
      FieldsGrow(s, t[..last]);
      assert (s + t)[..|s + t| - 1] == s + t[..last];
      assert (s + t)[|s + t| - 1] == t[last];
      if last == 0 {
        assert s + t[..last] == s;
      }
    }
  }

  lemma {:induction false} FieldsOfPrefix(fs: seq<seq<nat>>, gs: seq<seq<nat>>)
    requires fs <= gs && FieldsOf(fs) == None
    ensures FieldsOf(gs) == None
    decreases |gs|
  {
    if |fs| < |gs| {
      FieldsOfPrefix(fs, gs[..|gs| - 1]);
    } else {
      assert fs == gs;
    }
  }

  // One more field read, the rest still to come.
  lemma FieldRefused(param: seq<nat>, end: nat, fs: seq<seq<nat>>, d: seq<nat>)
    requires end <= |param| && Fields(param[..end]) == fs + [d] && (end < |param| ==> param[end] == SEMICOLON)
    requires FieldOf(d) == None || |fs| + 1 >= LIST_MAX || FieldsOf(fs) == None
    ensures param != [] ==> Split(param) == None
  {
    var rest := param[end..];
    assert param[..end] + rest == param;
    FieldsGrow(param[..end], rest);
    if rest == [] {
      assert param[..end] == param;
    }
    if FieldOf(d) == None || FieldsOf(fs) == None {
      assert (fs + [d])[..|fs|] == fs;
      assert FieldsOf(fs + [d]) == None;
      FieldsOfPrefix(fs + [d], Fields(param));
    }
  }

  lemma FieldEndIs(s: seq<nat>, start: nat, end: nat)
    requires start <= end <= |s| && (end < |s| ==> s[end] == SEMICOLON)
    requires forall i :: start <= i < end ==> s[i] != SEMICOLON
    ensures FieldEnd(s, start) == end
  {
  }

  // Reading stops after the field from start to end, or goes on.
  lemma StopStep(s: seq<nat>, start: nat, end: nat, read: nat)
    requires start <= end <= |s| && (end < |s| ==> s[end] == SEMICOLON)
    requires forall i :: start <= i < end ==> Digit(s[i])
    ensures Stop(s, start, read) ==
            if end == |s| then end
            else if FieldOf(s[start..end]) == None || read + 1 == LIST_MAX then end + 1
            else Stop(s, end + 1, read + 1)
  {
    hide FieldOf;
    FieldEndIs(s, start, end);
  }

  lemma SeparatedNone(s: seq<nat>)
    ensures Separated(s, 0) == s
  {
  }

  // The zero put over the next semicolon.
  lemma SeparatedNext(s: seq<nat>, start: nat, end: nat)
    requires start <= end < |s| && s[end] == SEMICOLON && forall i :: start <= i < end ==> s[i] != SEMICOLON
    ensures Separated(s, start)[end := 0] == Separated(s, end + 1)
  {
  }

  lemma SeparatedRest(s: seq<nat>, start: nat)
    requires start <= |s| && forall i :: start <= i < |s| ==> s[i] != SEMICOLON
    ensures Separated(s, start) == Separated(s, |s|)
  {
  }

  // The fields before start have been read into list.
  predicate ReadTo(param: seq<nat>, start: nat, list: seq<int>) {
    && start <= |param| && |list| < LIST_MAX
    && var fs := Fields(param[..start]);
       fs[|fs| - 1] == [] && |fs| == |list| + 1 && FieldsOf(fs[..|fs| - 1]) == Some(list)
  }

  lemma ReadNone(param: seq<nat>)
    ensures ReadTo(param, 0, [])
  {
    assert param[..0] == [] && Fields([]) == [[]];
  }

  // Reading the field from start to end.
  lemma ReadOne(param: seq<nat>, start: nat, end: nat, list: seq<int>)
    requires ReadTo(param, start, list) && start <= end <= |param|
    requires (forall i :: start <= i < end ==> Digit(param[i])) && (end < |param| ==> param[end] == SEMICOLON)
    ensures var n := FieldOf(param[start..end]);
            if n == None || |list| + 1 == LIST_MAX then param != [] ==> Split(param) == None
            else if end == |param| then param != [] ==> Split(param) == Some(list + [n.value])
            else ReadTo(param, end + 1, list + [n.value])
  {
    hide Split, FieldsOf, Fields, FieldOf, Number;
    var fs, d := Fields(param[..start]), param[start..end];
    var read := fs[..|fs| - 1];
    FieldsAppend(param[..start], d);
    assert param[..start] + d == param[..end];
    assert [] + d == d;
    assert fs[|fs| - 1 := d] == read + [d];
    if FieldOf(d) == None || |list| + 1 == LIST_MAX {
      FieldRefused(param, end, read, d);
    } else {
      FieldsOfOne(read, d);
      if end == |param| {
        assert param[..end] == param;
        SplitIs(param, read + [d], list + [FieldOf(d).value]);
      } else {
        FieldsSemicolon(param[..end + 1]);
        assert param[..end + 1][..end] == param[..end];
        assert (read + [d] + [[]])[..|list| + 1] == read + [d];
      }
    }
  }

  lemma SplitIs(param: seq<nat>, fs: seq<seq<nat>>, list: seq<int>)
    requires Fields(param) == fs && |fs| < LIST_MAX && FieldsOf(fs) == Some(list)
    ensures param != [] ==> Split(param) == Some(list)
  {
  }

  lemma FieldsSemicolon(s: seq<nat>)
    requires s != [] && s[|s| - 1] == SEMICOLON
    ensures Fields(s) == Fields(s[..|s| - 1]) + [[]]
  {
  }

  lemma FieldsOfOne(fs: seq<seq<nat>>, d: seq<nat>)
    requires FieldsOf(fs).Some? && FieldOf(d).Some?
    ensures FieldsOf(fs + [d]) == Some(FieldsOf(fs).value + [FieldOf(d).value])
  {
    assert (fs + [d])[..|fs|] == fs;
  }
}
