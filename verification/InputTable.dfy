// The tables of the parser of terminal input.
module InputTable {
  import opened Common
  import opened Utf8

  datatype State =
    | Ground | EscEnter | EscIntermediate | CsiEnter | CsiParameter | CsiIntermediate | CsiIgnore
    | DcsEnter | DcsParameter | DcsIntermediate | DcsHandler | DcsEscape | DcsIgnore | OscString
    | ApcString | RenameString | ConsumeSt | Utf8Three | Utf8Two | Utf8One

  datatype Handler =
    | NoHandler | C0Dispatch | Print | Utf8Open | Utf8Add | Utf8Close | Intermediate | Parameter | Input
    | EscDispatch | CsiDispatch | DcsDispatch

  datatype Next = Stay | To(state: State)

  datatype Transition = Transition(first: nat, last: nat, handler: Handler, next: Next)

  // The transitions that most states have first.
  const ANYWHERE: seq<Transition> := [
    Transition(0x18, 0x18, C0Dispatch, To(Ground)),
    Transition(0x1a, 0x1a, C0Dispatch, To(Ground)),
    Transition(0x1b, 0x1b, NoHandler, To(EscEnter))
  ]

  function Table(s: State): seq<Transition> {
    match s
    case Ground =>
      ANYWHERE + [
        Transition(0x00, 0x17, C0Dispatch, Stay),
        Transition(0x19, 0x19, C0Dispatch, Stay),
        Transition(0x1c, 0x1f, C0Dispatch, Stay),
        Transition(0x20, 0x7e, Print, Stay),
        Transition(0x7f, 0x7f, NoHandler, Stay),
        Transition(0x80, 0xc1, Print, Stay),
        Transition(0xc2, 0xdf, Utf8Open, To(Utf8One)),
        Transition(0xe0, 0xef, Utf8Open, To(Utf8Two)),
        Transition(0xf0, 0xf4, Utf8Open, To(Utf8Three)),
        Transition(0xf5, 0xff, Print, Stay)
      ]
    case EscEnter =>
      ANYWHERE + [
        Transition(0x00, 0x17, C0Dispatch, Stay),
        Transition(0x19, 0x19, C0Dispatch, Stay),
        Transition(0x1c, 0x1f, C0Dispatch, Stay),
        Transition(0x20, 0x2f, Intermediate, To(EscIntermediate)),
        Transition(0x30, 0x4f, EscDispatch, To(Ground)),
        Transition(0x50, 0x50, NoHandler, To(DcsEnter)),
        Transition(0x51, 0x57, EscDispatch, To(Ground)),
        Transition(0x58, 0x58, NoHandler, To(ConsumeSt)),
        Transition(0x59, 0x59, EscDispatch, To(Ground)),
        Transition(0x5a, 0x5a, EscDispatch, To(Ground)),
        Transition(0x5b, 0x5b, NoHandler, To(CsiEnter)),
        Transition(0x5c, 0x5c, EscDispatch, To(Ground)),
        Transition(0x5d, 0x5d, NoHandler, To(OscString)),
        Transition(0x5e, 0x5e, NoHandler, To(ConsumeSt)),
        Transition(0x5f, 0x5f, NoHandler, To(ApcString)),
        Transition(0x60, 0x6a, EscDispatch, To(Ground)),
        Transition(0x6b, 0x6b, NoHandler, To(RenameString)),
        Transition(0x6c, 0x7e, EscDispatch, To(Ground)),
        Transition(0x7f, 0xff, NoHandler, Stay)
      ]
    case EscIntermediate =>
      ANYWHERE + [
        Transition(0x00, 0x17, C0Dispatch, Stay),
        Transition(0x19, 0x19, C0Dispatch, Stay),
        Transition(0x1c, 0x1f, C0Dispatch, Stay),
        Transition(0x20, 0x2f, Intermediate, Stay),
        Transition(0x30, 0x7e, EscDispatch, To(Ground)),
        Transition(0x7f, 0xff, NoHandler, Stay)
      ]
    case CsiEnter =>
      ANYWHERE + [
        Transition(0x00, 0x17, C0Dispatch, Stay),
        Transition(0x19, 0x19, C0Dispatch, Stay),
        Transition(0x1c, 0x1f, C0Dispatch, Stay),
        Transition(0x20, 0x2f, Intermediate, To(CsiIntermediate)),
        Transition(0x30, 0x39, Parameter, To(CsiParameter)),
        Transition(0x3a, 0x3a, NoHandler, To(CsiIgnore)),
        Transition(0x3b, 0x3b, Parameter, To(CsiParameter)),
        Transition(0x3c, 0x3f, Intermediate, To(CsiParameter)),
        Transition(0x40, 0x7e, CsiDispatch, To(Ground)),
        Transition(0x7f, 0xff, NoHandler, Stay)
      ]
    case CsiParameter =>
      ANYWHERE + [
        Transition(0x00, 0x17, C0Dispatch, Stay),
        Transition(0x19, 0x19, C0Dispatch, Stay),
        Transition(0x1c, 0x1f, C0Dispatch, Stay),
        Transition(0x20, 0x2f, Intermediate, To(CsiIntermediate)),
        Transition(0x30, 0x39, Parameter, Stay),
        Transition(0x3a, 0x3a, NoHandler, To(CsiIgnore)),
        Transition(0x3b, 0x3b, Parameter, Stay),
        Transition(0x3c, 0x3f, NoHandler, To(CsiIgnore)),
        Transition(0x40, 0x7e, CsiDispatch, To(Ground)),
        Transition(0x7f, 0xff, NoHandler, Stay)
      ]
    case CsiIntermediate =>
      ANYWHERE + [
        Transition(0x00, 0x17, C0Dispatch, Stay),
        Transition(0x19, 0x19, C0Dispatch, Stay),
        Transition(0x1c, 0x1f, C0Dispatch, Stay),
        Transition(0x20, 0x2f, Intermediate, Stay),
        Transition(0x30, 0x3f, NoHandler, To(CsiIgnore)),
        Transition(0x40, 0x7e, CsiDispatch, To(Ground)),
        Transition(0x7f, 0xff, NoHandler, Stay)
      ]
    case CsiIgnore =>
      ANYWHERE + [
        Transition(0x00, 0x17, C0Dispatch, Stay),
        Transition(0x19, 0x19, C0Dispatch, Stay),
        Transition(0x1c, 0x1f, C0Dispatch, Stay),
        Transition(0x20, 0x3f, NoHandler, Stay),
        Transition(0x40, 0x7e, NoHandler, To(Ground)),
        Transition(0x7f, 0xff, NoHandler, Stay)
      ]
    case DcsEnter =>
      ANYWHERE + [
        Transition(0x00, 0x17, NoHandler, Stay),
        Transition(0x19, 0x19, NoHandler, Stay),
        Transition(0x1c, 0x1f, NoHandler, Stay),
        Transition(0x20, 0x2f, Intermediate, To(DcsIntermediate)),
        Transition(0x30, 0x39, Parameter, To(DcsParameter)),
        Transition(0x3a, 0x3a, NoHandler, To(DcsIgnore)),
        Transition(0x3b, 0x3b, Parameter, To(DcsParameter)),
        Transition(0x3c, 0x3f, Intermediate, To(DcsParameter)),
        Transition(0x40, 0x7e, Input, To(DcsHandler)),
        Transition(0x7f, 0xff, NoHandler, Stay)
      ]
    case DcsParameter =>
      ANYWHERE + [
        Transition(0x00, 0x17, NoHandler, Stay),
        Transition(0x19, 0x19, NoHandler, Stay),
        Transition(0x1c, 0x1f, NoHandler, Stay),
        Transition(0x20, 0x2f, Intermediate, To(DcsIntermediate)),
        Transition(0x30, 0x39, Parameter, Stay),
        Transition(0x3a, 0x3a, NoHandler, To(DcsIgnore)),
        Transition(0x3b, 0x3b, Parameter, Stay),
        Transition(0x3c, 0x3f, NoHandler, To(DcsIgnore)),
        Transition(0x40, 0x7e, Input, To(DcsHandler)),
        Transition(0x7f, 0xff, NoHandler, Stay)
      ]
    case DcsIntermediate =>
      ANYWHERE + [
        Transition(0x00, 0x17, NoHandler, Stay),
        Transition(0x19, 0x19, NoHandler, Stay),
        Transition(0x1c, 0x1f, NoHandler, Stay),
        Transition(0x20, 0x2f, Intermediate, Stay),
        Transition(0x30, 0x3f, NoHandler, To(DcsIgnore)),
        Transition(0x40, 0x7e, Input, To(DcsHandler)),
        Transition(0x7f, 0xff, NoHandler, Stay)
      ]
    case DcsHandler =>
      [
        Transition(0x00, 0x1a, Input, Stay),
        Transition(0x1b, 0x1b, NoHandler, To(DcsEscape)),
        Transition(0x1c, 0xff, Input, Stay)
      ]
    case DcsEscape =>
      [
        Transition(0x00, 0x5b, Input, To(DcsHandler)),
        Transition(0x5c, 0x5c, DcsDispatch, To(Ground)),
        Transition(0x5d, 0xff, Input, To(DcsHandler))
      ]
    case DcsIgnore =>
      ANYWHERE + [
        Transition(0x00, 0x17, NoHandler, Stay),
        Transition(0x19, 0x19, NoHandler, Stay),
        Transition(0x1c, 0x1f, NoHandler, Stay),
        Transition(0x20, 0xff, NoHandler, Stay)
      ]
    case OscString =>
      ANYWHERE + [
        Transition(0x00, 0x06, NoHandler, Stay),
        Transition(0x07, 0x07, NoHandler, To(Ground)),
        Transition(0x08, 0x17, NoHandler, Stay),
        Transition(0x19, 0x19, NoHandler, Stay),
        Transition(0x1c, 0x1f, NoHandler, Stay),
        Transition(0x20, 0xff, Input, Stay)
      ]
    case ApcString =>
      ANYWHERE + [
        Transition(0x00, 0x17, NoHandler, Stay),
        Transition(0x19, 0x19, NoHandler, Stay),
        Transition(0x1c, 0x1f, NoHandler, Stay),
        Transition(0x20, 0xff, Input, Stay)
      ]
    case RenameString =>
      ANYWHERE + [
        Transition(0x00, 0x17, NoHandler, Stay),
        Transition(0x19, 0x19, NoHandler, Stay),
        Transition(0x1c, 0x1f, NoHandler, Stay),
        Transition(0x20, 0xff, Input, Stay)
      ]
    case ConsumeSt =>
      ANYWHERE + [
        Transition(0x00, 0x17, NoHandler, Stay),
        Transition(0x19, 0x19, NoHandler, Stay),
        Transition(0x1c, 0x1f, NoHandler, Stay),
        Transition(0x20, 0xff, NoHandler, Stay)
      ]
    case Utf8Three =>
      [
        Transition(0x00, 0x7f, NoHandler, To(Ground)),
        Transition(0x80, 0xbf, Utf8Add, To(Utf8Two)),
        Transition(0xc0, 0xff, NoHandler, To(Ground))
      ]
    case Utf8Two =>
      [
        Transition(0x00, 0x7f, NoHandler, To(Ground)),
        Transition(0x80, 0xbf, Utf8Add, To(Utf8One)),
        Transition(0xc0, 0xff, NoHandler, To(Ground))
      ]
    case Utf8One =>
      [
        Transition(0x00, 0x7f, NoHandler, To(Ground)),
        Transition(0x80, 0xbf, Utf8Close, To(Ground)),
        Transition(0xc0, 0xff, NoHandler, To(Ground))
      ]
  }

  predicate Hit(t: Transition, ch: nat) {
    t.first <= ch <= t.last
  }

  // The first transition for a character, or the length of the table.
  function Search(table: seq<Transition>, ch: nat): (i: nat)
    ensures i <= |table|
    ensures i < |table| ==> Hit(table[i], ch)
    ensures forall j :: 0 <= j < i ==> !Hit(table[j], ch)
  {
    if table == [] || Hit(table[0], ch) then 0
    else
      var i := Search(table[1..], ch);
      assert forall j :: 1 <= j < i + 1 ==> table[j] == table[1..][j - 1];
      i + 1
  }

  lemma SearchIs(table: seq<Transition>, ch: nat, k: nat)
    requires k < |table| && Hit(table[k], ch) && forall j :: 0 <= j < k ==> !Hit(table[j], ch)
    ensures Search(table, ch) == k
  {
  }

  // How many bytes of a character are to come.
  function Remaining(s: State): nat {
    match s
    case Utf8Three => 3
    case Utf8Two => 2
    case Utf8One => 1
    case _ => 0
  }

  predicate Digit(b: nat) {
    0x30 <= b <= 0x39
  }

  const SEMICOLON := 0x3b

  // The states in which parameters are collected and dispatched.
  predicate Collecting(s: State) {
    s in {CsiEnter, CsiParameter, CsiIntermediate}
  }

  // A row in which the states for UTF-8 count the bytes wanted, down to the one
  // that closes the character, only digits and semicolons are parameters, and
  // parameters are dispatched only where they have been collected.
  predicate Fits(s: State, t: Transition) {
    && (t.next.To? && Collecting(t.next.state) && t.next.state != CsiEnter ==>
          Collecting(s) && t.handler != CsiDispatch)
    && (t.handler == CsiDispatch ==> Collecting(s) && t.next == To(Ground))
    && match t.handler
       case Utf8Open =>
         && s == Ground && t.next.To? && Remaining(t.next.state) > 0
         && SizeOf(t.first) == SizeOf(t.last) == Remaining(t.next.state) + 1
       case Utf8Add => t.next.To? && Remaining(s) == Remaining(t.next.state) + 1 > 1
       case Utf8Close => Remaining(s) == 1 && t.next == To(Ground)
       case Parameter => Remaining(s) == 0 && ((Digit(t.first) && Digit(t.last)) || t.first == t.last == SEMICOLON)
                         && (t.next.To? ==> Remaining(t.next.state) == 0)
       case _ => (t.next.To? ==> Remaining(t.next.state) == 0) && (t.next == Stay ==> Remaining(s) == 0)
  }

  predicate AllFit(s: State) {
    forall i :: 0 <= i < |Table(s)| ==> Fits(s, Table(s)[i])
  }

  lemma ThreeTotal(s: State, ch: nat)
    requires s in {DcsHandler, DcsEscape, Utf8Three, Utf8Two, Utf8One} && ch < 256
    ensures Search(Table(s), ch) < |Table(s)|
  {
    hide Search;
    var t := Table(s);
    assert Hit(t[0], ch) || Hit(t[1], ch) || Hit(t[2], ch);
  }

  lemma SevenTotal(s: State, ch: nat)
    requires s in {DcsIgnore, ApcString, RenameString, ConsumeSt} && ch < 256
    ensures Search(Table(s), ch) < |Table(s)|
  {
    hide Search;
    var t := Table(s);
    assert Hit(t[0], ch) || Hit(t[1], ch) || Hit(t[2], ch) || Hit(t[3], ch) || Hit(t[4], ch)
           || Hit(t[5], ch) || Hit(t[6], ch);
  }

  lemma NineTotal(s: State, ch: nat)
    requires s in {EscIntermediate, CsiIgnore, OscString} && ch < 256
    ensures Search(Table(s), ch) < |Table(s)|
  {
    hide Search;
    var t := Table(s);
    assert Hit(t[0], ch) || Hit(t[1], ch) || Hit(t[2], ch) || Hit(t[3], ch) || Hit(t[4], ch)
           || Hit(t[5], ch) || Hit(t[6], ch) || Hit(t[7], ch) || Hit(t[8], ch);
  }

  lemma TenTotal(s: State, ch: nat)
    requires s in {CsiIntermediate, DcsIntermediate} && ch < 256
    ensures Search(Table(s), ch) < |Table(s)|
  {
    hide Search;
    var t := Table(s);
    assert Hit(t[0], ch) || Hit(t[1], ch) || Hit(t[2], ch) || Hit(t[3], ch) || Hit(t[4], ch)
           || Hit(t[5], ch) || Hit(t[6], ch) || Hit(t[7], ch) || Hit(t[8], ch) || Hit(t[9], ch);
  }

  lemma ThirteenTotal(s: State, ch: nat)
    requires s in {CsiEnter, CsiParameter, DcsEnter, DcsParameter} && ch < 256
    ensures Search(Table(s), ch) < |Table(s)|
  {
    hide Search;
    var t := Table(s);
    assert Hit(t[0], ch) || Hit(t[1], ch) || Hit(t[2], ch) || Hit(t[3], ch) || Hit(t[4], ch)
           || Hit(t[5], ch) || Hit(t[6], ch) || Hit(t[7], ch) || Hit(t[8], ch) || Hit(t[9], ch)
           || Hit(t[10], ch) || Hit(t[11], ch) || Hit(t[12], ch);
  }

  lemma GroundTotal(s: State, ch: nat)
    requires s == Ground && ch < 256
    ensures Search(Table(s), ch) < |Table(s)|
  {
    hide Search;
    var t := Table(s);
    assert Hit(t[0], ch) || Hit(t[1], ch) || Hit(t[2], ch) || Hit(t[3], ch) || Hit(t[4], ch)
           || Hit(t[5], ch) || Hit(t[6], ch) || Hit(t[7], ch) || Hit(t[8], ch) || Hit(t[9], ch)
           || Hit(t[10], ch) || Hit(t[11], ch) || Hit(t[12], ch);
  }

  lemma EscapeTotal(s: State, ch: nat)
    requires s == EscEnter && ch < 256
    ensures Search(Table(s), ch) < |Table(s)|
  {
    hide Search;
    var t := Table(s);
    assert Hit(t[0], ch) || Hit(t[1], ch) || Hit(t[2], ch) || Hit(t[3], ch) || Hit(t[4], ch)
           || Hit(t[5], ch) || Hit(t[6], ch) || Hit(t[7], ch) || Hit(t[8], ch) || Hit(t[9], ch)
           || Hit(t[10], ch) || Hit(t[11], ch) || Hit(t[12], ch) || Hit(t[13], ch) || Hit(t[14], ch)
           || Hit(t[15], ch) || Hit(t[16], ch) || Hit(t[17], ch) || Hit(t[18], ch) || Hit(t[19], ch)
           || Hit(t[20], ch) || Hit(t[21], ch);
  }

  lemma GroundFit(s: State)
    requires s == Ground
    ensures AllFit(s)
  {
  }

  lemma CharactersFit(s: State)
    requires s in {Utf8Three, Utf8Two, Utf8One}
    ensures AllFit(s)
  {
  }

  lemma EscapesFit()
    ensures AllFit(EscEnter)
  {
    hide SizeOf, Digit;
  }

  lemma StringsFit(s: State)
    requires s in {EscIntermediate, OscString, ApcString, RenameString, ConsumeSt}
    ensures AllFit(s)
  {
    hide SizeOf, Digit;
  }

  lemma ParametersFit(s: State)
    requires s in {CsiEnter, CsiParameter}
    ensures AllFit(s)
  {
  }

  lemma FinalsFit(s: State)
    requires s in {CsiIntermediate, CsiIgnore}
    ensures AllFit(s)
  {
    hide SizeOf, Digit;
  }

  lemma DeviceFit(s: State)
    requires s in {DcsEnter, DcsParameter}
    ensures AllFit(s)
  {
  }

  lemma PassedFit(s: State)
    requires s in {DcsIntermediate, DcsHandler, DcsEscape, DcsIgnore}
    ensures AllFit(s)
  {
  }

  // Every state has a transition for every byte.
  lemma Total(s: State, ch: nat)
    requires ch < 256
    ensures Search(Table(s), ch) < |Table(s)|
    ensures forall i :: 0 <= i < |Table(s)| ==> Fits(s, Table(s)[i])
  {
    hide Table, Search, Fits;
    match s
    case Ground => GroundTotal(s, ch); GroundFit(s);
    case EscEnter => EscapeTotal(s, ch); EscapesFit();
    case EscIntermediate | OscString => NineTotal(s, ch); StringsFit(s);
    case ApcString | RenameString | ConsumeSt => SevenTotal(s, ch); StringsFit(s);
    case CsiEnter | CsiParameter => ThirteenTotal(s, ch); ParametersFit(s);
    case CsiIntermediate => TenTotal(s, ch); FinalsFit(s);
    case CsiIgnore => NineTotal(s, ch); FinalsFit(s);
    case DcsEnter | DcsParameter => ThirteenTotal(s, ch); DeviceFit(s);
    case DcsIntermediate => TenTotal(s, ch); PassedFit(s);
    case DcsHandler | DcsEscape => ThreeTotal(s, ch); PassedFit(s);
    case DcsIgnore => SevenTotal(s, ch); PassedFit(s);
    case Utf8Three | Utf8Two | Utf8One => ThreeTotal(s, ch); CharactersFit(s);
  }

  function Found(s: State, ch: nat): (t: Transition)
    requires ch < 256
    ensures Hit(t, ch) && Fits(s, t)
  {
    Total(s, ch);
    Table(s)[Search(Table(s), ch)]
  }

  // ------------------------------------------------------------------
  // Commands

  datatype EscCommand =
    | SCSOFF_G0 | DECSC | DECRC | DECALN | DECKPAM | DECKPNM | SCSON_G0 | IND | NEL | HTS | RI | RIS

  datatype CsiCommand =
    | ICH | CUU | CUD | CUF | CUB | HPA | CUP | ED | EL | IL | DL | DCH | CBT | DA | VPA | TBC | SM
    | SM_PRIVATE | RM | RM_PRIVATE | SGR | DSR | DECSCUSR | DECSTBM

  // A final character, the intermediates before it and what they mean.
  datatype Row<T> = Row(ch: nat, interm: seq<nat>, command: T)

  const ESC_TABLE: seq<Row<EscCommand>> := [
    Row(0x30, [0x28], SCSOFF_G0),
    Row(0x37, [], DECSC),
    Row(0x38, [], DECRC),
    Row(0x38, [0x23], DECALN),
    Row(0x3d, [], DECKPAM),
    Row(0x3e, [], DECKPNM),
    Row(0x42, [0x28], SCSON_G0),
    Row(0x44, [], IND),
    Row(0x45, [], NEL),
    Row(0x48, [], HTS),
    Row(0x4d, [], RI),
    Row(0x63, [], RIS)
  ]

  const CSI_TABLE: seq<Row<CsiCommand>> := [
    Row(0x40, [], ICH),
    Row(0x41, [], CUU),
    Row(0x42, [], CUD),
    Row(0x43, [], CUF),
    Row(0x44, [], CUB),
    Row(0x47, [], HPA),
    Row(0x48, [], CUP),
    Row(0x4a, [], ED),
    Row(0x4b, [], EL),
    Row(0x4c, [], IL),
    Row(0x4d, [], DL),
    Row(0x50, [], DCH),
    Row(0x5a, [], CBT),
    Row(0x63, [], DA),
    Row(0x64, [], VPA),
    Row(0x66, [], CUP),
    Row(0x67, [], TBC),
    Row(0x68, [], SM),
    Row(0x68, [0x3f], SM_PRIVATE),
    Row(0x6c, [], RM),
    Row(0x6c, [0x3f], RM_PRIVATE),
    Row(0x6d, [], SGR),
    Row(0x6e, [], DSR),
    Row(0x71, [0x20], DECSCUSR),
    Row(0x72, [], DECSTBM)
  ]

  // strcmp
  function StrCmp(s: seq<nat>, t: seq<nat>): int {
    if s == [] then (if t == [] then 0 else -1)
    else if t == [] then 1
    else if s[0] != t[0] then s[0] - t[0]
    else StrCmp(s[1..], t[1..])
  }

  // input_table_compare
  function Compare<T>(ch: nat, interm: seq<nat>, row: Row<T>): int {
    if ch != row.ch then ch - row.ch else StrCmp(interm, row.interm)
  }

  ghost predicate Ascending<T(!new)>(table: seq<Row<T>>) {
    forall i, j :: 0 <= i < j < |table| ==> Compare(table[i].ch, table[i].interm, table[j]) < 0
  }

  lemma {:induction false} StrCmpZero(s: seq<nat>, t: seq<nat>)
    ensures StrCmp(s, t) == 0 <==> s == t
    decreases |s|
  {
    if s != [] && t != [] {
      StrCmpZero(s[1..], t[1..]);
      assert s == [s[0]] + s[1..] && t == [t[0]] + t[1..];
    }
  }

  lemma {:induction false} StrCmpTransitive(s: seq<nat>, t: seq<nat>, u: seq<nat>)
    requires (StrCmp(s, t) < 0 && StrCmp(t, u) <= 0) || (StrCmp(s, t) <= 0 && StrCmp(t, u) < 0)
    ensures StrCmp(s, u) < 0
    decreases |s|
  {
    if s != [] && t != [] && u != [] && s[0] == t[0] == u[0] {
      StrCmpTransitive(s[1..], t[1..], u[1..]);
    }
  }

  // The rows next to each other being in order, they all are.
  lemma {:induction false} AscendingSteps<T(!new)>(table: seq<Row<T>>, i: nat, j: nat)
    requires i < j < |table|
    requires forall k :: 0 <= k < |table| - 1 ==> Compare(table[k].ch, table[k].interm, table[k + 1]) < 0
    ensures Compare(table[i].ch, table[i].interm, table[j]) < 0
    decreases j - i
  {
    if i + 1 < j {
      AscendingSteps(table, i, j - 1);
      var (a, b, c) := (table[i], table[j - 1], table[j]);
      assert Compare(table[j - 1].ch, table[j - 1].interm, table[j - 1 + 1]) < 0;
      if a.ch == b.ch == c.ch {
        StrCmpTransitive(a.interm, b.interm, c.interm);
      }
    }
  }

  lemma EscAscending()
    ensures forall k :: 0 <= k < |ESC_TABLE| - 1 ==> Compare(ESC_TABLE[k].ch, ESC_TABLE[k].interm, ESC_TABLE[k + 1]) < 0
  {
  }

  lemma CsiAscending()
    ensures forall k :: 0 <= k < |CSI_TABLE| - 1 ==> Compare(CSI_TABLE[k].ch, CSI_TABLE[k].interm, CSI_TABLE[k + 1]) < 0
  {
  }

  lemma AllAscending<T(!new)>(table: seq<Row<T>>)
    requires forall k :: 0 <= k < |table| - 1 ==> Compare(table[k].ch, table[k].interm, table[k + 1]) < 0
    ensures Ascending(table)
  {
    hide Compare;
    forall i, j | 0 <= i < j < |table| ensures Compare(table[i].ch, table[i].interm, table[j]) < 0 {
      AscendingSteps(table, i, j);
    }
  }

  lemma TablesAscending()
    ensures Ascending(ESC_TABLE) && Ascending(CSI_TABLE)
  {
    hide Compare, Ascending;
    EscAscending();
    AllAscending(ESC_TABLE);
    CsiAscending();
    AllAscending(CSI_TABLE);
  }

  // The command that a table has for a character and the intermediates before it.
  function Lookup<T>(table: seq<Row<T>>, ch: nat, interm: seq<nat>): Option<T> {
    if table == [] then None
    else if table[0].ch == ch && table[0].interm == interm then Some(table[0].command)
    else Lookup(table[1..], ch, interm)
  }

  lemma {:induction false} LookupIs<T(!new)>(table: seq<Row<T>>, ch: nat, interm: seq<nat>, k: nat)
    requires k < |table| && Ascending(table) && table[k].ch == ch && table[k].interm == interm
    ensures Lookup(table, ch, interm) == Some(table[k].command)
    decreases |table|
  {
    if k > 0 {
      StrCmpZero(table[0].interm, table[k].interm);
      forall i, j | 0 <= i < j < |table[1..]|
        ensures Compare(table[1..][i].ch, table[1..][i].interm, table[1..][j]) < 0
      {
        assert Compare(table[i + 1].ch, table[i + 1].interm, table[j + 1]) < 0;
      }
      LookupIs(table[1..], ch, interm, k - 1);
    }
  }

  lemma {:induction false} LookupNone<T>(table: seq<Row<T>>, ch: nat, interm: seq<nat>)
    requires forall k :: 0 <= k < |table| ==> !(table[k].ch == ch && table[k].interm == interm)
    ensures Lookup(table, ch, interm) == None
    decreases |table|
  {
    if table != [] {
      LookupNone(table[1..], ch, interm);
    }
  }

  lemma CompareZero<T>(ch: nat, interm: seq<nat>, row: Row<T>)
    ensures Compare(ch, interm, row) == 0 <==> ch == row.ch && interm == row.interm
  {
    StrCmpZero(interm, row.interm);
  }

  lemma CompareBelow<T>(ch: nat, interm: seq<nat>, a: Row<T>, b: Row<T>)
    requires Compare(ch, interm, a) < 0 && Compare(a.ch, a.interm, b) <= 0
    ensures Compare(ch, interm, b) < 0
  {
    if ch == a.ch == b.ch {
      StrCmpTransitive(interm, a.interm, b.interm);
    }
  }

  lemma CompareAbove<T>(ch: nat, interm: seq<nat>, a: Row<T>, b: Row<T>)
    requires Compare(ch, interm, b) > 0 && Compare(a.ch, a.interm, b) < 0
    ensures Compare(ch, interm, a) != 0
  {
    CompareZero(ch, interm, a);
  }

  // bsearch in a table, which finds what a scan would.
  method BSearch<T(!new)>(table: seq<Row<T>>, ch: nat, interm: seq<nat>) returns (r: Option<T>)
    requires Ascending(table)
    ensures r == Lookup(table, ch, interm)
  {
    var low, high := 0, |table|;
    while low < high
      invariant 0 <= low <= high <= |table|
      invariant forall k :: 0 <= k < |table| && !(low <= k < high) ==> Compare(ch, interm, table[k]) != 0
    {
      var mid := (low + high) / 2;
      var c := Compare(ch, interm, table[mid]);
      CompareZero(ch, interm, table[mid]);
      if c == 0 {
        LookupIs(table, ch, interm, mid);
        return Some(table[mid].command);
      } else if c < 0 {
        forall k | mid <= k < high ensures Compare(ch, interm, table[k]) != 0 {
          if mid < k {
            CompareBelow(ch, interm, table[mid], table[k]);
          }
        }
        high := mid;
      } else {
        forall k | low <= k <= mid ensures Compare(ch, interm, table[k]) != 0 {
          if k < mid {
            CompareAbove(ch, interm, table[k], table[mid]);
          }
        }
        low := mid + 1;
      }
    }
    forall k | 0 <= k < |table| ensures !(table[k].ch == ch && table[k].interm == interm) {
      CompareZero(ch, interm, table[k]);
    }
    LookupNone(table, ch, interm);
    return None;
  }
}
