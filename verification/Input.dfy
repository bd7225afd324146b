// The parser of terminal input, collecting in its buffers.
module Input {
  import opened Common
  import opened InputTable
  import opened InputParser
  import opened Utf8

  class InputCtx {
    const interm_buf: array<nat>
    const param_buf: array<nat>
    const input_buf: array<nat>
    const param_list: array<int>
    const utf8data: Utf8Data
    // The option for UTF-8, and the tree of widths.
    const utf8: bool
    const widths: Tree
    var interm_len: nat
    var param_len: nat
    var input_len: nat
    var param_list_len: nat
    var discard: bool
    var state: State
    // What has been carried out.
    var actions: seq<Action>

    ghost function Parts(): set<object>
      reads this
    {
      {this, interm_buf, param_buf, input_buf, param_list, utf8data, utf8data.data}
    }

    // The buffers have room for what is in them and for the zero after it.
    ghost predicate Fine()
      reads this, utf8data
    {
      && interm_buf.Length == INTERM_MAX + 1 && param_buf.Length == PARAM_MAX + 1 && input_buf.Length == INPUT_MAX + 1
      && param_list.Length == LIST_MAX && utf8data.Valid()
      && interm_len <= INTERM_MAX && param_len <= PARAM_MAX && input_len <= INPUT_MAX && param_list_len <= LIST_MAX
      && interm_buf != param_buf && interm_buf != input_buf && param_buf != input_buf
      && utf8data.data != interm_buf && utf8data.data != param_buf && utf8data.data != input_buf
    }

    ghost function Value(): Ctx
      requires Fine()
      reads this, utf8data, Parts()
    {
      Ctx(state, interm_buf[..interm_len], param_buf[..param_len], input_buf[..input_len], discard, utf8data.Value())
    }

    // Each buffer ends in a zero.
    ghost predicate Valid()
      reads this, utf8data, Parts()
    {
      && Fine()
      && interm_buf[interm_len] == 0 && param_buf[param_len] == 0 && input_buf[input_len] == 0
    }

    // input_init
    constructor (utf8: bool, widths: Tree)
      ensures Valid() && Value() == START && actions == [] && fresh(Parts())
      ensures this.utf8 == utf8 && this.widths == widths
    {
      interm_buf := new nat[INTERM_MAX + 1](_ => 0);
      param_buf := new nat[PARAM_MAX + 1](_ => 0);
      input_buf := new nat[INPUT_MAX + 1](_ => 0);
      param_list := new int[LIST_MAX](_ => 0);
      utf8data := new Utf8Data();
      interm_len, param_len, input_len, param_list_len := 0, 0, 0, 0;
      discard, state, actions := false, Ground, [];
      this.utf8, this.widths := utf8, widths;
      new;
      assert interm_buf[..0] == [] && param_buf[..0] == [] && input_buf[..0] == [] && utf8data.data[..0] == [];
    }

    // input_clear
    method Clear()
      requires Valid()
      modifies this`interm_len, this`param_len, this`input_len, this`discard, interm_buf, param_buf, input_buf
      ensures Valid() && Value() == Ctx(state, [], [], [], false, old(Value()).wide)
    {
      interm_buf[0] := 0;
      interm_len := 0;
      param_buf[0] := 0;
      param_len := 0;
      input_buf[0] := 0;
      input_len := 0;
      discard := false;
    }

    // input_intermediate
    method AddIntermediate(ch: nat)
      requires Valid()
      modifies this`interm_len, this`discard, interm_buf
      ensures Valid() && Value() == Collect(old(Value()), Intermediate, ch)
    {
      if interm_len == interm_buf.Length - 1 {
        discard := true;
      } else {
        interm_buf[interm_len] := ch;
        interm_len := interm_len + 1;
        interm_buf[interm_len] := 0;
        assert interm_buf[..interm_len] == old(interm_buf[..interm_len]) + [ch];
      }
    }

    // input_parameter
    method AddParameter(ch: nat)
      requires Valid()
      modifies this`param_len, this`discard, param_buf
      ensures Valid() && Value() == Collect(old(Value()), Parameter, ch)
    {
      if param_len == param_buf.Length - 1 {
        discard := true;
      } else {
        param_buf[param_len] := ch;
        param_len := param_len + 1;
        param_buf[param_len] := 0;
        assert param_buf[..param_len] == old(param_buf[..param_len]) + [ch];
      }
    }

    // input_input
    method AddInput(ch: nat)
      requires Valid()
      modifies this`input_len, this`discard, input_buf
      ensures Valid() && Value() == Collect(old(Value()), InputTable.Input, ch)
    {
      if input_len == input_buf.Length - 1 {
        discard := true;
      } else {
        input_buf[input_len] := ch;
        input_len := input_len + 1;
        input_buf[input_len] := 0;
        assert input_buf[..input_len] == old(input_buf[..input_len]) + [ch];
      }
    }

    // ----------------------------------------------------------------
    // Dispatching

    // strtonum, of a field of digits.
    method ReadNumber(start: nat, end: nat) returns (n: nat)
      requires Fine() && start <= end <= param_len
      requires forall i :: start <= i < end ==> Digit(param_buf[i])
      ensures n == Number(param_buf[start..end])
    {
      n := 0;
      var i := start;
      while i < end
        invariant start <= i <= end && n == Number(param_buf[start..i])
      {
        assert param_buf[start..i + 1][..i - start] == param_buf[start..i];
        n := n * 10 + param_buf[i] - 0x30;
        i := i + 1;
      }
    }

    // input_split: false where a number is too large or the list fills.
    method SplitParameters() returns (ok: bool)
      requires Valid() && Parameters(Value().param)
      modifies this`param_list_len, param_list, param_buf
      ensures Valid()
      ensures var param := old(Value()).param; Value() == old(Value()).(param := Separated(param, Stop(param, 0, 0)))
      ensures match Split(old(Value()).param)
              case None => !ok
              case Some(ps) => ok && param_list[..param_list_len] == ps
    {
      hide ReadTo, Split, FieldOf, Stop, Separated;
      param_list_len := 0;
      ghost var param := Value().param;
      SeparatedNone(param);
      if param_len == 0 {
        SplitNone();
        StopStep(param, 0, 0, 0);
        assert param == [] && param_list[..0] == [];
        return true;
      }
      var start := 0;
      ReadNone(param);
      assert param_list[..0] == [];
      while true
        invariant 0 <= start <= param_len == |param| && param_list_len < LIST_MAX
        invariant Valid() && param_buf[..param_len] == Separated(param, start)
        invariant Value() == old(Value()).(param := Separated(param, start))
        invariant ReadTo(param, start, param_list[..param_list_len])
        invariant Stop(param, start, param_list_len) == Stop(param, 0, 0)
        decreases param_len - start
      {
        var end := TakeField(start, param);
        ReadOne(param, start, end, param_list[..param_list_len]);
        StopStep(param, start, end, param_list_len);
        var n := ReadField(start, end, param);
        if n == None {
          return false;
        }
        ListNumber(n.value);
        if param_list_len == param_list.Length {
          return false;
        }
        if end == param_len {
          return true;
        }
        start := end + 1;
      }
    }

    method ListNumber(n: int)
      requires Valid() && param_list_len < LIST_MAX
      modifies this`param_list_len, param_list
      ensures Valid() && Value() == old(Value())
      ensures param_list_len == old(param_list_len) + 1
      ensures param_list[..param_list_len] == old(param_list[..param_list_len]) + [n]
    {
      param_list[param_list_len] := n;
      param_list_len := param_list_len + 1;
    }

    // The number in a field.
    method ReadField(start: nat, end: nat, ghost param: seq<nat>) returns (n: Option<int>)
      requires Fine() && start <= end <= param_len == |param| && param_buf[start..end] == param[start..end]
      requires forall i :: start <= i < end ==> Digit(param[i])
      ensures n == FieldOf(param[start..end])
    {
      if start == end {
        return Some(-1);
      }
      assert forall i :: start <= i < end ==> param_buf[i] == param[start..end][i - start] == param[i];
      var value := ReadNumber(start, end);
      return if value > INT_MAX then None else Some(value);
    }

    // strsep: the end of the field from start on, where a semicolon becomes the
    // zero that ends the field.
    method TakeField(start: nat, ghost param: seq<nat>) returns (end: nat)
      requires Valid() && start <= param_len == |param| && Parameters(param)
      requires param_buf[..param_len] == Separated(param, start)
      modifies param_buf
      ensures Valid() && start <= end <= param_len && (end < param_len ==> param[end] == SEMICOLON)
      ensures forall i :: start <= i < end ==> Digit(param[i])
      ensures param_buf[start..end] == param[start..end]
      ensures param_buf[..param_len] == Separated(param, if end < param_len then end + 1 else end)
    {
      end := start;
      while end < param_len && param_buf[end] != SEMICOLON
        invariant start <= end <= param_len
        invariant forall i :: start <= i < end ==> Digit(param[i])
        invariant param_buf[..param_len] == Separated(param, start)
      {
        assert param_buf[end] == param_buf[..param_len][end];
        end := end + 1;
      }
      forall i | start <= i < end ensures param_buf[i] == param[i] {
        assert param_buf[i] == param_buf[..param_len][i];
      }
      if end < param_len {
        assert param_buf[end] == param_buf[..param_len][end];
        param_buf[end] := 0;
        SeparatedNext(param, start, end);
        assert param_buf[..param_len] == Separated(param, start)[end := 0];
      } else {
        SeparatedRest(param, start);
      }
    }

    // input_csi_dispatch, as far as the command and its parameters.
    method CsiDispatch(ch: nat)
      requires Valid() && Parameters(Value().param)
      modifies this`param_list_len, this`actions, param_list, param_buf
      ensures Valid() && Value() == old(Value()).(param := Spent(old(Value())))
      ensures actions == old(actions) + InputParser.DispatchCsi(old(Value()), ch)
    {
      hide Bounded, Split, Lookup, Parameters, Separated, Stop;
      if discard {
        return;
      }
      var ok := SplitParameters();
      if !ok {
        return;
      }
      TablesAscending();
      var entry := BSearch(CSI_TABLE, ch, interm_buf[..interm_len]);
      if entry.Some? {
        actions := actions + [Csi(entry.value, param_list[..param_list_len])];
      }
    }

    // input_esc_dispatch, as far as the command.
    method EscDispatch(ch: nat)
      requires Valid()
      modifies this`actions
      ensures Valid() && Value() == old(Value())
      ensures actions == old(actions) + InputParser.DispatchEsc(old(Value()), ch)
    {
      hide Bounded, Lookup, Parameters;
      if discard {
        return;
      }
      TablesAscending();
      var entry := BSearch(ESC_TABLE, ch, interm_buf[..interm_len]);
      if entry.Some? {
        actions := actions + [Escape(entry.value)];
      }
    }

    // input_dcs_dispatch
    method DcsDispatch()
      requires Valid()
      modifies this`actions
      ensures Valid() && Value() == old(Value())
      ensures actions == old(actions) + InputParser.DispatchDcs(old(Value()))
    {
      hide Bounded, Parameters;
      if discard {
        return;
      }
      if input_len >= |TMUX| && input_buf[..|TMUX|] == TMUX {
        assert input_buf[..input_len][..|TMUX|] == TMUX;
        assert input_buf[..input_len][|TMUX|..] == input_buf[|TMUX|..input_len];
        actions := actions + [Raw(input_buf[|TMUX|..input_len])];
      } else if input_len >= |TMUX| {
        assert input_buf[..input_len][..|TMUX|] == input_buf[..|TMUX|];
      }
    }

    // input_utf8_open: false where the state is not to change.
    method Utf8Open(ch: nat) returns (switch: bool)
      requires Valid()
      modifies this`actions, utf8data, utf8data.data
      ensures Valid() && switch == utf8
      ensures utf8 && SizeOf(ch) != 0 ==>
                Value() == old(Value()).(wide := Char([ch], SizeOf(ch))) && actions == old(actions)
      ensures !utf8 ==> Value() == old(Value()) && actions == old(actions) + [PrintByte(ch)]
    {
      hide Bounded, Parameters;
      if !utf8 {
        actions := actions + [PrintByte(ch)];
        return false;
      }
      var _ := utf8data.Open(ch, widths);
      return true;
    }

    // input_utf8_add, and the start of input_utf8_close: there is always room.
    method Utf8Add(ch: nat)
      requires Valid() && utf8data.have < utf8data.size <= 4
      modifies utf8data, utf8data.data
      ensures Valid()
      ensures Value() == old(Value()).(wide := old(Value()).wide.(bytes := old(Value()).wide.bytes + [ch]))
    {
      hide Bounded, Parameters;
      var _ := utf8data.Append(ch, widths);
    }

    // ----------------------------------------------------------------
    // Parsing

    // The handlers, by name: what happens is what the machine over values says.
    method RunHandler(h: Handler, ch: nat) returns (switch: bool)
      requires Valid()
      requires h == Handler.Utf8Open ==> SizeOf(ch) != 0
      requires h == Handler.Utf8Add || h == Handler.Utf8Close ==> utf8data.have < utf8data.size <= 4
      requires h == Handler.CsiDispatch ==> Parameters(Value().param)
      modifies this, interm_buf, param_buf, input_buf, param_list, utf8data, utf8data.data
      ensures Valid()
      ensures var (d, done, sw) := Handle(old(Value()), h, ch, utf8);
              Value() == d && actions == old(actions) + done && switch == sw
    {
      hide Bounded, Parameters, Collect, Spent;
      hide InputParser.DispatchCsi, InputParser.DispatchEsc, InputParser.DispatchDcs;
      switch := true;
      match h
      case NoHandler =>
      case C0Dispatch => actions := actions + [Control(ch)];
      case Print => actions := actions + [PrintByte(ch)];
      case Utf8Open => switch := Utf8Open(ch);
      case Utf8Add => Utf8Add(ch);
      case Utf8Close =>
        Utf8Add(ch);
        actions := actions + [PrintWide(utf8data.data[..utf8data.have])];
      case Intermediate => AddIntermediate(ch);
      case Parameter => AddParameter(ch);
      case Input => AddInput(ch);
      case EscDispatch => EscDispatch(ch);
      case CsiDispatch => CsiDispatch(ch);
      case DcsDispatch => DcsDispatch();
    }

    // What is carried out on leaving a state: input_exit_osc and the like.
    method ExitState()
      requires Valid()
      modifies this`actions
      ensures Valid() && Value() == old(Value()) && actions == old(actions) + Exit(old(Value()))
    {
      hide Bounded, Parameters;
      if discard {
        return;
      }
      if state == OscString {
        if input_len < 1 || input_buf[0] < 0x30 || input_buf[0] > 0x39 {
          return;
        }
        actions := actions + [Osc(input_buf[..input_len])];
      } else if state == ApcString {
        actions := actions + [Apc(input_buf[..input_len])];
      } else if state == RenameString {
        actions := actions + [Rename(input_buf[..input_len])];
      }
    }

    method EnterState(s: State)
      requires Valid()
      modifies this`state, this`interm_len, this`param_len, this`input_len, this`discard
      modifies interm_buf, param_buf, input_buf
      ensures Valid() && Value() == Enter(old(Value()), s)
    {
      hide Bounded, Parameters;
      state := s;
      if s in {EscEnter, CsiEnter, DcsEnter, OscString, ApcString, RenameString} {
        Clear();
      }
    }

    // Leaving one state for another.
    method SwitchState(s: State)
      requires Valid()
      modifies this`actions, this`state, this`interm_len, this`param_len, this`input_len, this`discard
      modifies interm_buf, param_buf, input_buf
      ensures Valid() && Value() == Enter(old(Value()), s) && actions == old(actions) + Exit(old(Value()))
    {
      hide Bounded, Parameters, Exit, Enter;
      ExitState();
      EnterState(s);
    }

    // The body of the loop in input_parse.
    method ParseByte(ch: nat)
      requires Valid() && Bounded(Value()) && ch < 256
      modifies this, interm_buf, param_buf, input_buf, param_list, utf8data, utf8data.data
      ensures Valid() && Bounded(Value())
      ensures var (d, done) := Step(old(Value()), ch, utf8);
              Value() == d && actions == old(actions) + done
    {
      hide Bounded, Parameters, Handle, Exit, Enter, Fits, Search, Table;
      StepBounded(Value(), ch, utf8);
      BoundedWide(Value());
      var itr := FindTransition(state, ch);
      HandlerFits(Value(), ch);
      var switch := RunHandler(itr.handler, ch);
      if !switch {
        return;
      }
      if itr.next.To? {
        SwitchState(itr.next.state);
      }
    }

    // input_parse
    method Parse(buf: seq<nat>)
      requires Valid() && Bounded(Value()) && Bytes(buf)
      modifies this, interm_buf, param_buf, input_buf, param_list, utf8data, utf8data.data
      ensures Valid() && Bounded(Value())
      ensures var (d, done) := Run(old(Value()), buf, utf8);
              Value() == d && actions == old(actions) + done
    {
      hide Bounded, Parameters, Step, Run;
      ghost var c := Value();
      var off := 0;
      RunNone(c, utf8);
      assert buf[..0] == [] && actions + [] == actions;
      while off < |buf|
        invariant 0 <= off <= |buf| && Valid() && Bounded(Value())
        invariant Value() == Run(c, buf[..off], utf8).0
        invariant actions == old(actions) + Run(c, buf[..off], utf8).1
      {
        RunAppend(c, buf[..off], [buf[off]], utf8);
        RunOne(Value(), buf[off], utf8);
        assert buf[..off] + [buf[off]] == buf[..off + 1];
        ParseByte(buf[off]);
        off := off + 1;
      }
      assert buf[..off] == buf;
    }
  }

  // The loop that finds the transition: there is one.
  method FindTransition(s: State, ch: nat) returns (itr: Transition)
    requires ch < 256
    ensures itr == Found(s, ch)
  {
    hide Search, Fits, Table;
    Total(s, ch);
    var table := Table(s);
    var i := 0;
    while !Hit(table[i], ch)
      invariant 0 <= i <= Search(table, ch) < |table|
      decreases |table| - i
    {
      i := i + 1;
    }
    return table[i];
  }

  lemma BoundedWide(c: Ctx)
    requires Bounded(c)
    ensures c.wide.size <= 4
  {
  }

  // What a handler needs of a byte is so of the bytes it is given.
  lemma HandlerFits(c: Ctx, ch: nat)
    requires Bounded(c) && ch < 256
    ensures Found(c.state, ch).handler == Handler.Utf8Open ==> SizeOf(ch) != 0
    ensures Found(c.state, ch).handler == Handler.CsiDispatch ==> Parameters(c.param)
  {
    hide Found;
  }

  lemma SplitNone()
    ensures Split([]) == Some([])
  {
  }
}
