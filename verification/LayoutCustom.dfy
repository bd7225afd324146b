// Layouts as text: layout_dump and the reading half of layout_parse.
module LayoutCustom {
  import opened Common
  import opened LayoutTree

  // ------------------------------------------------------------------
  // Numbers

  datatype Base = Ten | Sixteen

  function Radix(b: Base): nat {
    if b.Ten? then 10 else 16
  }

  function Digit(d: nat): char
    requires d < 16
  {
    "0123456789abcdef"[d]
  }

  predicate IsDigit(b: Base, c: char) {
    '0' <= c <= '9' || (b.Sixteen? && ('a' <= c <= 'f' || 'A' <= c <= 'F'))
  }

  function DigitValue(c: char): nat {
    if '0' <= c <= '9' then c as int - '0' as int
    else if 'a' <= c <= 'f' then c as int - 'a' as int + 10
    else if 'A' <= c <= 'F' then c as int - 'A' as int + 10
    else 0
  }

  function Numeral(b: Base, n: nat): string {
    if n < Radix(b) then [Digit(n)]
    else if b.Ten? then Numeral(b, n / 10) + [Digit(n % 10)]
    else Numeral(b, n / 16) + [Digit(n % 16)]
  }

  // The value of a run of digits.
  function Value(b: Base, s: string): nat {
    if s == [] then 0 else Value(b, s[..|s| - 1]) * Radix(b) + DigitValue(s[|s| - 1])
  }

  // How many digits a string starts with.
  function Run(b: Base, s: string): (n: nat)
    ensures n <= |s| && (n < |s| ==> !IsDigit(b, s[n]))
    ensures forall i :: 0 <= i < n ==> IsDigit(b, s[i])
  {
    if s == [] || !IsDigit(b, s[0]) then 0 else 1 + Run(b, s[1..])
  }

  lemma RunIs(b: Base, s: string, n: nat)
    requires n <= |s| && (n < |s| ==> !IsDigit(b, s[n]))
    requires forall i :: 0 <= i < n ==> IsDigit(b, s[i])
    ensures Run(b, s) == n
  {
  }

  lemma DigitSound(b: Base, d: nat)
    requires d < Radix(b)
    ensures IsDigit(b, Digit(d)) && DigitValue(Digit(d)) == d
  {
  }

  lemma ValueLast(b: Base, s: string, c: char)
    ensures Value(b, s + [c]) == Value(b, s) * Radix(b) + DigitValue(c)
  {
    assert (s + [c])[..|s|] == s;
  }

  lemma {:induction false} NumeralValue(b: Base, n: nat)
    ensures Numeral(b, n) != [] && Value(b, Numeral(b, n)) == n
    ensures forall i :: 0 <= i < |Numeral(b, n)| ==> IsDigit(b, Numeral(b, n)[i])
  {
    hide Value, Digit, IsDigit, DigitValue;
    if n < Radix(b) {
      DigitSound(b, n);
      ValueNone(b);
      ValueLast(b, [], Digit(n));
      assert [] + [Digit(n)] == [Digit(n)];
    } else {
      var q, r := if b.Ten? then n / 10 else n / 16, if b.Ten? then n % 10 else n % 16;
      DigitSound(b, r);
      NumeralValue(b, q);
      ValueLast(b, Numeral(b, q), Digit(r));
    }
  }

  lemma ValueNone(b: Base)
    ensures Value(b, []) == 0
  {
  }

  // What the %u of sscanf makes of a run of decimal digits: strtoul's value in
  // 64 bits, cut to 32.
  function Unsigned(s: string): nat {
    var v := Value(Ten, s);
    if v < 0x1_0000_0000_0000_0000 then v % 0x1_0000_0000 else UINT_MAX
  }

  // ------------------------------------------------------------------
  // Printing

  ghost predicate FitsUInt(n: int) {
    0 <= n <= UINT_MAX
  }

  // What can be written so that it reads back: u_int sizes and offsets, and no
  // container without children.
  ghost predicate Printable(t: Tree)
    decreases t
  {
    && FitsUInt(t.sx) && FitsUInt(t.sy) && FitsUInt(t.xoff) && FitsUInt(t.yoff)
    && (t.kind == WindowPane <==> t.kids == [])
    && forall i :: 0 <= i < |t.kids| ==> Printable(t.kids[i])
  }

  function Open(kind: Kind): char {
    if kind == LeftRight then '{' else '['
  }

  function Shut(kind: Kind): char {
    if kind == LeftRight then '}' else ']'
  }

  function Unsign(n: int): nat {
    if n < 0 then 0 else n
  }

  function Header(t: Tree): string {
    Numeral(Ten, Unsign(t.sx)) + "x" + Numeral(Ten, Unsign(t.sy)) + ","
    + Numeral(Ten, Unsign(t.xoff)) + "," + Numeral(Ten, Unsign(t.yoff))
  }

  function Text(t: Tree): string
    decreases t
  {
    Header(t) + if t.kind == WindowPane then "" else [Open(t.kind)] + TextOf(t.kids) + [Shut(t.kind)]
  }

  // The children's texts with commas between them.
  function TextOf(ks: seq<Tree>): string
    decreases ks
  {
    if ks == [] then ""
    else if |ks| == 1 then Text(ks[0])
    else Text(ks[0]) + "," + TextOf(ks[1..])
  }

  // ------------------------------------------------------------------
  // Reading

  // A decimal number and what follows it.
  function ReadNumber(s: string): (r: Option<(nat, string)>)
    ensures r.Some? ==> |r.value.1| < |s|
  {
    var n := Run(Ten, s);
    if n == 0 then None else Some((Unsigned(s[..n]), s[n..]))
  }

  function Expect(c: char, s: string): (r: Option<string>)
    ensures r.Some? ==> |r.value| < |s|
  {
    if s != [] && s[0] == c then Some(s[1..]) else None
  }

  // A number that must be followed by c.
  function ReadField(s: string, c: char): (r: Option<(nat, string)>)
    ensures r.Some? ==> |r.value.1| < |s|
  {
    match ReadNumber(s)
    case None => None
    case Some((n, rest)) =>
      match Expect(c, rest)
      case None => None
      case Some(rest') => Some((n, rest'))
  }

  // The sizes and offsets of a cell.
  function ReadHeader(s: string): (r: Option<(Tree, string)>)
    ensures r.Some? ==> |r.value.1| < |s|
  {
    match ReadField(s, 'x')
    case None => None
    case Some((sx, s1)) =>
      match ReadField(s1, ',')
      case None => None
      case Some((sy, s2)) =>
        match ReadField(s2, ',')
        case None => None
        case Some((xoff, s3)) =>
          match ReadNumber(s3)
          case None => None
          case Some((yoff, s4)) => Some((Tree(WindowPane, sx, sy, xoff, yoff, None, []), s4))
  }

  predicate Ends(s: string) {
    s == [] || s[0] == ',' || s[0] == '}' || s[0] == ']'
  }

  // layout_construct: a cell and what follows it.
  function Read(s: string): (r: Option<(Tree, string)>)
    ensures r.Some? ==> |r.value.1| < |s|
    decreases |s|
  {
    match ReadHeader(s)
    case None => None
    case Some((c, rest)) =>
      if Ends(rest) then Some((c, rest))
      else if rest[0] == '{' then ReadContainer(c.(kind := LeftRight), rest)
      else if rest[0] == '[' then ReadContainer(c.(kind := TopBottom), rest)
      else None
  }

  function ReadContainer(c: Tree, s: string): (r: Option<(Tree, string)>)
    requires s != []
    ensures r.Some? ==> |r.value.1| < |s|
    decreases |s|, 1
  {
    match ReadKids(s)
    case None => None
    case Some((ks, rest)) =>
      match Expect(Shut(c.kind), rest)
      case None => None
      case Some(rest') => Some((c.(kids := ks), rest'))
  }

  // Children, each after one character: the opening bracket or a comma.
  function ReadKids(s: string): (r: Option<(seq<Tree>, string)>)
    requires s != []
    ensures r.Some? ==> r.value.0 != [] && |r.value.1| < |s|
    decreases |s|, 0
  {
    match Read(s[1..])
    case None => None
    case Some((k, rest)) =>
      if rest != [] && rest[0] == ',' then
        match ReadKids(rest)
        case None => None
        case Some((ks, rest')) => Some(([k] + ks, rest'))
      else Some(([k], rest))
  }

  // ------------------------------------------------------------------
  // Reading what was printed

  // Panes are not part of the text.
  function Bare(t: Tree): Tree
    decreases t
  {
    t.(pane := None, kids := seq(|t.kids|, i requires 0 <= i < |t.kids| => Bare(t.kids[i])))
  }

  ghost predicate NoDigit(s: string) {
    s == [] || !IsDigit(Ten, s[0])
  }

  lemma UnsignedNumeral(n: nat)
    requires FitsUInt(n)
    ensures Unsigned(Numeral(Ten, n)) == n
  {
    hide Numeral, Value;
    NumeralValue(Ten, n);
  }

  lemma NumberReads(n: int, rest: string)
    requires FitsUInt(n) && NoDigit(rest)
    ensures ReadNumber(Numeral(Ten, Unsign(n)) + rest) == Some((n, rest))
  {
    hide Numeral, Unsigned, Run;
    var d := Numeral(Ten, n);
    NumeralValue(Ten, n);
    UnsignedNumeral(n);
    RunIs(Ten, d + rest, |d|);
    assert (d + rest)[..|d|] == d && (d + rest)[|d|..] == rest;
  }

  lemma FieldReads(n: int, c: char, rest: string)
    requires FitsUInt(n) && !IsDigit(Ten, c)
    ensures ReadField(Numeral(Ten, Unsign(n)) + [c] + rest, c) == Some((n, rest))
  {
    var d := Numeral(Ten, Unsign(n));
    assert d + [c] + rest == d + ([c] + rest);
    NumberReads(n, [c] + rest);
    assert ([c] + rest)[1..] == rest;
  }

  lemma HeaderReads(t: Tree, rest: string)
    requires FitsUInt(t.sx) && FitsUInt(t.sy) && FitsUInt(t.xoff) && FitsUInt(t.yoff) && NoDigit(rest)
    ensures ReadHeader(Header(t) + rest) == Some((Tree(WindowPane, t.sx, t.sy, t.xoff, t.yoff, None, []), rest))
  {
    hide Numeral, ReadField, ReadNumber;
    var a, b := Numeral(Ten, Unsign(t.sx)), Numeral(Ten, Unsign(t.sy));
    var c, d := Numeral(Ten, Unsign(t.xoff)), Numeral(Ten, Unsign(t.yoff));
    var s3 := d + rest;
    var s2 := c + "," + s3;
    var s1 := b + "," + s2;
    assert Header(t) + rest == a + "x" + s1;
    FieldReads(t.sx, 'x', s1);
    FieldReads(t.sy, ',', s2);
    FieldReads(t.xoff, ',', s3);
    NumberReads(t.yoff, rest);
  }

  // Reading the text of a layout gives the layout back: kinds, sizes, offsets
  // and order of children, with exactly the text consumed.
  lemma {:induction false} TextReads(t: Tree, rest: string)
    requires Printable(t) && Ends(rest)
    ensures Read(Text(t) + rest) == Some((Bare(t), rest))
    decreases t, 1
  {
    hide Header, ReadHeader, ReadKids, TextOf, FitsUInt;
    PrintableHeader(t);
    if t.kind == WindowPane {
      HeaderReads(t, rest);
      assert Text(t) + rest == Header(t) + rest;
      assert Bare(t).kids == [];
    } else {
      var body := [Open(t.kind)] + TextOf(t.kids) + [Shut(t.kind)] + rest;
      HeaderReads(t, body);
      assert Text(t) + rest == Header(t) + body;
      KidsRead(t.kids, t.kind, Open(t.kind), rest);
      BareKids(t);
    }
  }

  lemma PrintableHeader(t: Tree)
    requires Printable(t)
    ensures FitsUInt(t.sx) && FitsUInt(t.sy) && FitsUInt(t.xoff) && FitsUInt(t.yoff)
  {
  }

  lemma BareKids(t: Tree)
    ensures Bare(t).kids == BareAll(t.kids)
  {
  }

  function BareAll(ks: seq<Tree>): (r: seq<Tree>)
    ensures |r| == |ks| && forall i :: 0 <= i < |ks| ==> r[i] == Bare(ks[i])
  {
    seq(|ks|, i requires 0 <= i < |ks| => Bare(ks[i]))
  }

  lemma {:induction false} KidsRead(ks: seq<Tree>, kind: Kind, lead: char, rest: string)
    requires ks != [] && forall i :: 0 <= i < |ks| ==> Printable(ks[i])
    ensures ReadKids([lead] + TextOf(ks) + [Shut(kind)] + rest) == Some((BareAll(ks), [Shut(kind)] + rest))
    decreases ks, 0
  {
    hide Read, Text, Printable;
    var s := [lead] + TextOf(ks) + [Shut(kind)] + rest;
    if |ks| == 1 {
      assert s[1..] == Text(ks[0]) + ([Shut(kind)] + rest);
      TextReads(ks[0], [Shut(kind)] + rest);
      assert BareAll(ks) == [Bare(ks[0])];
    } else {
      var more := [','] + TextOf(ks[1..]) + [Shut(kind)] + rest;
      assert s[1..] == Text(ks[0]) + more;
      TextReads(ks[0], more);
      KidsRead(ks[1..], kind, ',', rest);
      assert BareAll(ks) == [Bare(ks[0])] + BareAll(ks[1..]);
    }
  }

  // ------------------------------------------------------------------
  // Strings in C

  predicate NoNul(s: string) {
    forall i :: 0 <= i < |s| ==> s[i] != '\0'
  }

  // What a buffer holds as a string: all before the first NUL.
  function CString(s: string): (r: string)
    ensures NoNul(r)
  {
    if s == [] || s[0] == '\0' then [] else [s[0]] + CString(s[1..])
  }

  lemma {:induction false} CStringIs(s: string, n: nat)
    requires n <= |s| && NoNul(s[..n]) && (n < |s| ==> s[n] == '\0')
    ensures CString(s) == s[..n]
    decreases n
  {
    if n > 0 {
      assert s[..n][0] == s[0];
      assert s[1..][..n - 1] == s[..n][1..];
      CStringIs(s[1..], n - 1);
      assert [s[0]] + s[..n][1..] == s[..n];
    }
  }

  lemma WholeCString(s: string)
    requires NoNul(s)
    ensures CString(s) == s
  {
    assert s[..|s|] == s;
    CStringIs(s, |s|);
  }

  // ------------------------------------------------------------------
  // layout_checksum

  // A C char is signed.
  function CharValue(c: char): int {
    if c as int < 128 then c as int else c as int - 256
  }

  function Rotate(csum: nat): nat {
    csum / 2 + csum % 2 * 0x8000
  }

  function Checksum(s: string): (csum: nat)
    ensures csum < 0x1_0000
  {
    if s == [] then 0 else (Rotate(Checksum(s[..|s| - 1])) + CharValue(s[|s| - 1])) % 0x1_0000
  }

  method ComputeChecksum(layout: string) returns (csum: nat)
    ensures csum == Checksum(CString(layout))
  {
    csum := 0;
    var i := 0;
    while i < |layout| && layout[i] != '\0'
      invariant i <= |layout| && csum == Checksum(layout[..i]) && NoNul(layout[..i])
    {
      csum := csum / 2 + csum % 2 * 0x8000;
      csum := (csum + CharValue(layout[i])) % 0x1_0000;
      assert layout[..i + 1][..i] == layout[..i];
      i := i + 1;
    }
    CStringIs(layout, i);
  }

  lemma ChecksumNext(s: string, c: char)
    ensures Checksum(s + [c]) == (Rotate(Checksum(s)) + CharValue(c)) % 0x1_0000
  {
    assert (s + [c])[..|s|] == s;
  }

  // ------------------------------------------------------------------
  // The dumped form: a checksum of width 4, a comma, the text

  function Spaces(n: nat): string {
    seq(n, _ => ' ')
  }

  function Padded(s: string): string {
    if |s| < 4 then Spaces(4 - |s|) + s else s
  }

  function Dumped(text: string): string {
    Padded(Numeral(Sixteen, Checksum(text))) + "," + text
  }

  predicate IsSpace(c: char) {
    c == ' ' || '\t' <= c <= '\r'
  }

  function SkipSpaces(s: string): (n: nat)
    ensures n <= |s| && (n < |s| ==> !IsSpace(s[n])) && forall i :: 0 <= i < n ==> IsSpace(s[i])
  {
    if s == [] || !IsSpace(s[0]) then 0 else 1 + SkipSpaces(s[1..])
  }

  const ULONG_MAX := 0xffff_ffff_ffff_ffff

  // What the %hx of sscanf makes of a number: strtoul's value in 64 bits, with
  // its sign and the most there is for one too large, cut to 16.
  function Short(v: nat, negative: bool): nat {
    var w := if v > ULONG_MAX then ULONG_MAX else if negative && v > 0 then ULONG_MAX + 1 - v else v;
    w % 0x1_0000
  }

  // A sign and a prefix may come before the digits; a prefix without any is
  // read as its zero.
  function ReadHex(t: string): Option<nat> {
    var u := if t != [] && (t[0] == '-' || t[0] == '+') then t[1..] else t;
    var v := if |u| >= 2 && u[0] == '0' && (u[1] == 'x' || u[1] == 'X') then u[2..] else u;
    var n := Run(Sixteen, v);
    if n > 0 then Some(Short(Value(Sixteen, v[..n]), t[0] == '-'))
    else if |v| < |u| then Some(0)
    else None
  }

  function ReadChecksum(s: string): Option<nat> {
    ReadHex(s[SkipSpaces(s)..])
  }

  lemma HexReads(d: string, rest: string)
    requires d != [] && forall i :: 0 <= i < |d| ==> IsDigit(Sixteen, d[i])
    requires Value(Sixteen, d) < 0x1_0000
    ensures ReadHex(d + "," + rest) == Some(Value(Sixteen, d))
  {
    hide Value, IsDigit, Short, Run;
    var s := d + "," + rest;
    DigitPlain(d[0]);
    DigitPlain(if |d| > 1 then d[1] else d[0]);
    assert s[0] == d[0] && s[1] == if |d| > 1 then d[1] else ',';
    NoMoreDigits(',');
    RunIs(Sixteen, s, |d|);
    assert s[..|d|] == d;
    ShortIs(Value(Sixteen, d));
  }

  lemma DigitPlain(c: char)
    requires IsDigit(Sixteen, c)
    ensures c != '-' && c != '+' && c != 'x' && c != 'X'
  {
  }

  lemma NoMoreDigits(c: char)
    requires c == ','
    ensures !IsDigit(Sixteen, c)
  {
  }

  lemma ShortIs(v: nat)
    requires v < 0x1_0000
    ensures Short(v, false) == v
  {
  }

  // What layout_parse accepts.
  function ReadDump(s: string): Option<Tree> {
    match ReadChecksum(s)
    case None => None
    case Some(csum) =>
      if |s| < 5 || csum != Checksum(s[5..]) then None
      else
        match Read(s[5..])
        case None => None
        case Some((t, rest)) => if rest == [] then Some(t) else None
  }

  lemma NumeralLength(n: nat)
    requires n < 0x1_0000
    ensures |Numeral(Sixteen, n)| <= 4
  {
    assert n / 16 < 0x1000 && n / 16 / 16 < 0x100 && n / 16 / 16 / 16 < 16;
    NumeralStep(n);
    NumeralStep(n / 16);
    NumeralStep(n / 16 / 16);
    NumeralStep(n / 16 / 16 / 16);
  }

  lemma NumeralStep(n: nat)
    ensures |Numeral(Sixteen, n)| == if n < 16 then 1 else |Numeral(Sixteen, n / 16)| + 1
  {
  }

  // The padded checksum header reads back.
  lemma ChecksumReads(csum: nat, text: string)
    requires csum < 0x1_0000
    ensures var s := Padded(Numeral(Sixteen, csum)) + "," + text;
            |s| >= 5 && s[5..] == text && ReadChecksum(s) == Some(csum)
  {
    hide Numeral, Value, ReadHex;
    var d := Numeral(Sixteen, csum);
    NumeralValue(Sixteen, csum);
    NumeralLength(csum);
    var s := Padded(d) + "," + text;
    var k := 4 - |d|;
    assert |Padded(d)| == 4;
    SkipSpacesIs(s, k);
    assert s[k..] == d + "," + text;
    HexReads(d, text);
  }

  lemma SkipSpacesIs(s: string, n: nat)
    requires n < |s| && !IsSpace(s[n]) && forall i :: 0 <= i < n ==> IsSpace(s[i])
    ensures SkipSpaces(s) == n
  {
  }

  lemma DumpReads(t: Tree)
    requires Printable(t)
    ensures ReadDump(Dumped(Text(t))) == Some(Bare(t))
  {
    ChecksumReads(Checksum(Text(t)), Text(t));
    TextReads(t, []);
    assert Text(t) + [] == Text(t);
  }

  // Two layouts with the same dump are the same up to their panes.
  lemma DumpInjective(t: Tree, u: Tree)
    requires Printable(t) && Printable(u) && Dumped(Text(t)) == Dumped(Text(u))
    ensures Bare(t) == Bare(u)
  {
    DumpReads(t);
    DumpReads(u);
  }

  // Every character of the text is printable.
  ghost predicate Plain(s: string) {
    forall i :: 0 <= i < |s| ==> 0 < s[i] as int < 128
  }

  lemma {:induction false} TextPlain(t: Tree)
    ensures Plain(Text(t))
    decreases t, 1
  {
    hide Numeral;
    NumeralValue(Ten, Unsign(t.sx));
    NumeralValue(Ten, Unsign(t.sy));
    NumeralValue(Ten, Unsign(t.xoff));
    NumeralValue(Ten, Unsign(t.yoff));
    assert Plain(Header(t));
    KidsPlain(t.kids);
  }

  lemma {:induction false} KidsPlain(ks: seq<Tree>)
    ensures Plain(TextOf(ks))
    decreases ks, 0
  {
    if ks != [] {
      TextPlain(ks[0]);
      KidsPlain(ks[1..]);
    }
  }

  lemma TextHasNoNul(t: Tree)
    ensures NoNul(Text(t))
  {
    hide Text;
    TextPlain(t);
  }

  // ------------------------------------------------------------------
  // layout_append

  // A C string in a buffer of fixed size.
  class Buffer {
    const size: nat
    var text: string

    constructor (size: nat)
      ensures this.size == size && text == ""
    {
      this.size, text := size, "";
    }

    // strlcat, with the test its callers make of the result
    method Cat(s: string) returns (fits: bool)
      requires |text| < size
      modifies this
      ensures |text| < size && (fits <==> |old(text)| + |s| < size)
      ensures fits ==> text == old(text) + s
    {
      fits := |text| + |s| < size;
      text := (text + s)[..if fits then |text| + |s| else size - 1];
    }

    method ReplaceLast(c: char)
      requires text != ""
      modifies this
      ensures text == old(text)[..|old(text)| - 1] + [c]
    {
      text := text[..|text| - 1] + [c];
    }
  }

  // The texts of the first n children, each followed by a comma.
  function Listed(ks: seq<Tree>, n: nat): string
    requires n <= |ks|
  {
    if n == 0 then "" else Listed(ks, n - 1) + Text(ks[n - 1]) + ","
  }

  lemma {:induction false} ListedText(ks: seq<Tree>, n: nat)
    requires n < |ks|
    ensures Listed(ks, |ks|) == Listed(ks, n) + TextOf(ks[n..]) + ","
    decreases |ks| - n
  {
    hide Text;
    if n == |ks| - 1 {
      assert ks[n..] == [ks[n]];
    } else {
      ListedText(ks, n + 1);
      assert ks[n..][1..] == ks[n + 1..] && ks[n..][0] == ks[n];
    }
  }

  lemma {:induction false} ListedGrows(ks: seq<Tree>, n: nat, m: nat)
    requires n <= m <= |ks|
    ensures |Listed(ks, n)| <= |Listed(ks, m)|
    decreases m
  {
    hide Text;
    if n < m {
      ListedGrows(ks, n, m - 1);
    }
  }

  lemma {:induction false} NumeralShort(n: nat, digits: nat)
    requires n < Power(digits) && digits > 0
    ensures |Numeral(Ten, n)| <= digits
  {
    if n >= 10 {
      NumeralShort(n / 10, digits - 1);
    }
  }

  function Power(digits: nat): nat {
    if digits == 0 then 1 else 10 * Power(digits - 1)
  }

  // Writing one cell never overflows the 64 bytes set aside for it.
  lemma HeaderShort(t: Tree)
    requires Printable(t)
    ensures |Header(t)| <= 43
  {
    assert Power(10) == 10_000_000_000;
    NumeralShort(Unsign(t.sx), 10);
    NumeralShort(Unsign(t.sy), 10);
    NumeralShort(Unsign(t.xoff), 10);
    NumeralShort(Unsign(t.yoff), 10);
  }

  // Appends the layout's text, or fails exactly when there is no room for it.
  method Append(t: Tree, buf: Buffer) returns (ok: bool)
    requires Printable(t) && (buf.size > 0 ==> |buf.text| < buf.size)
    modifies buf
    ensures ok <==> |old(buf.text)| + |Text(t)| < buf.size
    ensures ok ==> buf.text == old(buf.text) + Text(t)
    ensures buf.size > 0 ==> |buf.text| < buf.size
    decreases t
  {
    hide Header, Printable, TextOf, Listed, Text;
    if buf.size == 0 {
      return false;
    }

    ghost var before := buf.text;
    var tmp := Header(t);
    HeaderShort(t);
    if |tmp| > 63 {
      assert false;
    }
    ok := buf.Cat(tmp);
    if !ok || t.kind == WindowPane {
      PaneText(t);
      return;
    }

    ghost var lead := before + tmp + [Open(t.kind)];
    ContainerText(t);
    ListedNone(t.kids);
    ok := buf.Cat([Open(t.kind)]);
    if !ok {
      return;
    }
    for i := 0 to |t.kids|
      invariant buf.text == lead + Listed(t.kids, i) && |buf.text| < buf.size
    {
      ListedGrows(t.kids, i + 1, |t.kids|);
      ListedNext(t.kids, i);
      PrintableKid(t, i);
      ok := Append(t.kids[i], buf);
      if !ok {
        return;
      }
      ok := buf.Cat(",");
      if !ok {
        return;
      }
    }
    buf.ReplaceLast(Shut(t.kind));
    ok := true;
  }

  // The list of children ends in a comma, where the closing bracket goes.
  lemma ContainerText(t: Tree)
    requires Printable(t) && t.kind != WindowPane
    ensures Listed(t.kids, |t.kids|) == TextOf(t.kids) + ","
    ensures Text(t) == Header(t) + [Open(t.kind)] + TextOf(t.kids) + [Shut(t.kind)]
  {
    hide Header, TextOf, Listed;
    ListedText(t.kids, 0);
    ListedNone(t.kids);
    assert t.kids[0..] == t.kids;
  }

  lemma ListedNone(ks: seq<Tree>)
    ensures Listed(ks, 0) == ""
  {
  }

  lemma ListedNext(ks: seq<Tree>, i: nat)
    requires i < |ks|
    ensures Listed(ks, i + 1) == Listed(ks, i) + Text(ks[i]) + ","
  {
  }

  lemma PrintableKid(t: Tree, i: nat)
    requires Printable(t) && i < |t.kids|
    ensures Printable(t.kids[i])
  {
  }

  // layout_dump, in a buffer of the given size
  method Dump(t: Tree, size: nat) returns (out: Option<string>)
    requires Printable(t) && size > 0
    ensures out == if |Text(t)| < size then Some(Dumped(Text(t))) else None
  {
    hide CString, Checksum, Numeral, Text, Printable;
    TextHasNoNul(t);
    WholeCString(Text(t));
    var buf := new Buffer(size);
    var ok := Append(t, buf);
    if !ok {
      return None;
    }
    assert buf.text == Text(t);
    var csum := ComputeChecksum(buf.text);
    out := Some(Padded(Numeral(Sixteen, csum)) + "," + buf.text);
  }

  // ------------------------------------------------------------------
  // layout_construct

  // A position in a C string, which ends in NUL.
  class Cursor {
    const text: string
    var pos: nat

    constructor (text: string)
      ensures this.text == text && pos == 0
    {
      this.text, pos := text, 0;
    }

    predicate Valid()
      reads this
    {
      pos <= |text|
    }

    function Rest(): string
      reads this
      requires Valid()
    {
      text[pos..]
    }

    // A decimal number: its value, and the position moved past it.
    method Number() returns (n: Option<nat>)
      requires Valid()
      modifies this
      ensures Valid() && |Rest()| <= |old(Rest())|
      ensures match ReadNumber(old(Rest()))
              case None => n == None
              case Some((v, rest)) => n == Some(v) && Rest() == rest
    {
      var start := pos;
      ghost var s := Rest();
      while pos < |text| && IsDigit(Ten, text[pos])
        invariant start <= pos <= |text|
        invariant forall i :: start <= i < pos ==> IsDigit(Ten, text[i])
      {
        pos := pos + 1;
      }
      RunIs(Ten, s, pos - start);
      if pos == start {
        return None;
      }
      assert s[..pos - start] == text[start..pos] && s[pos - start..] == text[pos..];
      n := Some(Unsigned(text[start..pos]));
    }

    method Skip(c: char) returns (ok: bool)
      requires Valid()
      modifies this
      ensures Valid() && |Rest()| <= |old(Rest())|
      ensures match Expect(c, old(Rest())) case None => !ok case Some(rest) => ok && Rest() == rest
    {
      ok := pos < |text| && text[pos] == c;
      if ok {
        pos := pos + 1;
      }
    }

    method Field(c: char) returns (n: Option<nat>)
      requires Valid()
      modifies this
      ensures Valid() && |Rest()| <= |old(Rest())|
      ensures match ReadField(old(Rest()), c)
              case None => n == None
              case Some((v, rest)) => n == Some(v) && Rest() == rest
    {
      n := Number();
      if n.Some? {
        var ok := Skip(c);
        if !ok {
          n := None;
        }
      }
    }

    method HeaderCell() returns (c: Option<Tree>)
      requires Valid()
      modifies this
      ensures Valid() && |Rest()| <= |old(Rest())|
      ensures match ReadHeader(old(Rest()))
              case None => c == None
              case Some((v, rest)) => c == Some(v) && Rest() == rest
    {
      hide ReadField, ReadNumber;
      c := None;
      var sx := Field('x');
      if sx.None? {
        return;
      }
      var sy := Field(',');
      if sy.None? {
        return;
      }
      var xoff := Field(',');
      if xoff.None? {
        return;
      }
      var yoff := Number();
      if yoff.None? {
        return;
      }
      c := Some(Tree(WindowPane, sx.value, sy.value, xoff.value, yoff.value, None, []));
    }

    method Construct() returns (r: Option<Tree>)
      requires Valid()
      modifies this
      ensures Valid()
      ensures match Read(old(Rest())) case None => r == None case Some((t, rest)) => r == Some(t) && Rest() == rest
      decreases |Rest()|
    {
      hide ReadHeader, ReadKids;
      ghost var s := Rest();
      r := HeaderCell();
      if r.None? {
        return;
      }
      var c := r.value;
      if Ends(Rest()) {
        return;
      }
      if Rest()[0] == '{' {
        c := c.(kind := LeftRight);
      } else if Rest()[0] == '[' {
        c := c.(kind := TopBottom);
      } else {
        return None;
      }
      r := Children(c);
    }

    // The do loop over a container's children, and its closing bracket.
    method Children(c: Tree) returns (r: Option<Tree>)
      requires Valid() && Rest() != []
      modifies this
      ensures Valid()
      ensures match ReadContainer(c, old(Rest()))
              case None => r == None
              case Some((t, rest)) => r == Some(t) && Rest() == rest
      decreases |Rest()|, 0
    {
      hide Read;
      ghost var all := ReadKids(Rest());
      PrefixedNone(ReadKids(Rest()));
      var kids, more := [], true;
      while more
        invariant Valid() && |Rest()| <= |old(Rest())|
        invariant more ==> Rest() != []
        invariant !more ==> kids != [] && all == Some((kids, Rest()))
        invariant more ==> all == Prefixed(kids, ReadKids(Rest()))
        decreases more, |Rest()|
      {
        ghost var here := Rest();
        pos := pos + 1;
        assert Rest() == here[1..];
        var child := Construct();
        if child.None? {
          return None;
        }
        kids := kids + [child.value];
        more := pos < |text| && text[pos] == ',';
        PrefixedNext(kids[..|kids| - 1], child.value, here);
      }
      var ok := Skip(Shut(c.kind));
      if !ok {
        return None;
      }
      r := Some(c.(kids := kids));
    }
  }

  // Children already read in front of those still to come.
  function Prefixed(ks: seq<Tree>, r: Option<(seq<Tree>, string)>): Option<(seq<Tree>, string)> {
    match r
    case None => None
    case Some((more, rest)) => Some((ks + more, rest))
  }

  lemma PrefixedNone(r: Option<(seq<Tree>, string)>)
    ensures Prefixed([], r) == r
  {
    if r.Some? {
      assert [] + r.value.0 == r.value.0;
    }
  }

  lemma PrefixedNext(ks: seq<Tree>, k: Tree, s: string)
    requires s != [] && Read(s[1..]).Some? && Read(s[1..]).value.0 == k
    ensures var rest := Read(s[1..]).value.1;
            Prefixed(ks, ReadKids(s)) == if rest != [] && rest[0] == ',' then Prefixed(ks + [k], ReadKids(rest))
                                         else Some((ks + [k], rest))
  {
    hide Read;
    var rest := Read(s[1..]).value.1;
    if rest != [] && rest[0] == ',' && ReadKids(rest).Some? {
      assert ks + ([k] + ReadKids(rest).value.0) == ks + [k] + ReadKids(rest).value.0;
    }
  }

  lemma PaneText(t: Tree)
    ensures t.kind == WindowPane ==> Text(t) == Header(t)
    ensures |Header(t)| <= |Text(t)|
  {
  }

  // The reading half of layout_parse.
  method Parse(layout: string) returns (r: Option<Tree>)
    ensures r == ReadDump(CString(layout))
  {
    hide CString, Checksum, ReadChecksum, Read;
    var line := CString(layout);
    var csum := ReadChecksum(line);
    if csum.None? || |line| < 5 {
      return None;
    }
    var body := line[5..];
    WholeCString(body);
    var actual := ComputeChecksum(body);
    if csum.value != actual {
      return None;
    }
    var cur := new Cursor(body);
    assert cur.Rest() == body;
    r := cur.Construct();
    if r.Some? && cur.pos < |body| {
      r := None;
    }
  }

  lemma {:induction false} ReadPrintable(s: string)
    requires Read(s).Some?
    ensures Printable(Read(s).value.0) && Bare(Read(s).value.0) == Read(s).value.0
    decreases |s|, 1
  {
    hide ReadField, ReadNumber, ReadKids;
    HeaderPrintable(s);
    var (c, rest) := ReadHeader(s).value;
    if !Ends(rest) {
      KidsPrintable(rest);
      BareKids(Read(s).value.0);
    } else {
      BareKids(c);
    }
  }

  lemma HeaderPrintable(s: string)
    requires ReadHeader(s).Some?
    ensures var c := ReadHeader(s).value.0;
            && c.kind == WindowPane && c.kids == [] && c.pane == None
            && FitsUInt(c.sx) && FitsUInt(c.sy) && FitsUInt(c.xoff) && FitsUInt(c.yoff)
  {
    hide Value;
  }

  lemma {:induction false} KidsPrintable(s: string)
    requires s != [] && ReadKids(s).Some?
    ensures var ks := ReadKids(s).value.0;
            (forall i :: 0 <= i < |ks| ==> Printable(ks[i])) && BareAll(ks) == ks
    decreases |s|, 0
  {
    hide Read;
    ReadPrintable(s[1..]);
    var (k, rest) := Read(s[1..]).value;
    if rest != [] && rest[0] == ',' {
      KidsPrintable(rest);
    }
  }

  // Whatever layout_parse reads, dumping it and parsing the dump changes
  // nothing.
  lemma ParseStable(s: string)
    requires ReadDump(s).Some?
    ensures Printable(ReadDump(s).value)
    ensures ReadDump(Dumped(Text(ReadDump(s).value))) == ReadDump(s)
  {
    hide Text, Printable, Read, Dumped, ReadChecksum;
    ReadPrintable(s[5..]);
    DumpReads(ReadDump(s).value);
  }

  // ------------------------------------------------------------------
  // The layout that the manual shows

  // Two panes side by side in a window of 159 columns and 48 rows.
  function ShownLayout(): Tree {
    Tree(LeftRight, 159, 48, 0, 0, None,
         [Tree(WindowPane, 79, 48, 0, 0, None, []), Tree(WindowPane, 79, 48, 80, 0, None, [])])
  }

  lemma TextOfTwo(a: Tree, b: Tree)
    ensures TextOf([a, b]) == Text(a) + "," + Text(b)
  {
    assert [a, b][1..] == [b];
  }

  // A container of two panes, whose headers are these.
  lemma PairText(t: Tree, h: string, a: string, b: string)
    requires t.kind != WindowPane && |t.kids| == 2 && t.kids[0].kind == t.kids[1].kind == WindowPane
    requires Header(t) == h && Header(t.kids[0]) == a && Header(t.kids[1]) == b
    ensures Text(t) == h + [Open(t.kind)] + (a + "," + b) + [Shut(t.kind)]
  {
    hide Header, TextOf;
    PaneText(t.kids[0]);
    PaneText(t.kids[1]);
    TextOfTwo(t.kids[0], t.kids[1]);
    assert t.kids == [t.kids[0], t.kids[1]];
    var body := [Open(t.kind)] + TextOf(t.kids) + [Shut(t.kind)];
    assert Text(t) == h + body;
  }

  lemma HeaderIs(t: Tree, sx: string, sy: string, xoff: string, yoff: string)
    requires t.sx >= 0 && t.sy >= 0 && t.xoff >= 0 && t.yoff >= 0
    requires Numeral(Ten, t.sx) == sx && Numeral(Ten, t.sy) == sy
    requires Numeral(Ten, t.xoff) == xoff && Numeral(Ten, t.yoff) == yoff
    ensures Header(t) == sx + "x" + sy + "," + xoff + "," + yoff
  {
  }

  lemma Numerals()
    ensures Numeral(Ten, 0) == "0" && Numeral(Ten, 11) == "11" && Numeral(Ten, 12) == "12" && Numeral(Ten, 13) == "13"
    ensures Numeral(Ten, 24) == "24" && Numeral(Ten, 48) == "48" && Numeral(Ten, 79) == "79"
  {
  }

  lemma LongNumerals()
    ensures Numeral(Ten, 80) == "80" && Numeral(Ten, 159) == "159" && Numeral(Sixteen, 0xbb62) == "bb62"
  {
  }

  lemma ShownText()
    ensures Text(ShownLayout()) == "159x48,0,0{79x48,0,0,79x48,80,0}"
  {
    hide Numeral, Header, Text, TextOf;
    Numerals();
    LongNumerals();
    var t := ShownLayout();
    HeaderIs(t, "159", "48", "0", "0");
    HeaderIs(t.kids[0], "79", "48", "0", "0");
    HeaderIs(t.kids[1], "79", "48", "80", "0");
    PairText(t, "159x48,0,0", "79x48,0,0", "79x48,80,0");
  }

  lemma NoneChecksum()
    ensures Checksum("") == 0
  {
  }

  lemma ChecksumIs(s: string, before: nat, c: char, u: string, csum: nat)
    requires Checksum(s) == before && u == s + [c] && csum == (Rotate(before) + CharValue(c)) % 0x1_0000
    ensures Checksum(u) == csum
  {
    hide Checksum;
    ChecksumNext(s, c);
  }

  lemma ShownHalf()
    ensures Checksum("159x48,0,0{79x48") == 0xe57d
  {
    hide Checksum;
    NoneChecksum();
    ChecksumIs("", 0x0, '1', "1", 0x31);
    ChecksumIs("1", 0x31, '5', "15", 0x804d);
    ChecksumIs("15", 0x804d, '9', "159", 0xc05f);
    ChecksumIs("159", 0xc05f, 'x', "159x", 0xe0a7);
    ChecksumIs("159x", 0xe0a7, '4', "159x4", 0xf087);
    ChecksumIs("159x4", 0xf087, '8', "159x48", 0xf87b);
    ChecksumIs("159x48", 0xf87b, ',', "159x48,", 0xfc69);
    ChecksumIs("159x48,", 0xfc69, '0', "159x48,0", 0xfe64);
    ChecksumIs("159x48,0", 0xfe64, ',', "159x48,0,", 0x7f5e);
    ChecksumIs("159x48,0,", 0x7f5e, '0', "159x48,0,0", 0x3fdf);
    ChecksumIs("159x48,0,0", 0x3fdf, '{', "159x48,0,0{", 0xa06a);
    ChecksumIs("159x48,0,0{", 0xa06a, '7', "159x48,0,0{7", 0x506c);
    ChecksumIs("159x48,0,0{7", 0x506c, '9', "159x48,0,0{79", 0x286f);
    ChecksumIs("159x48,0,0{79", 0x286f, 'x', "159x48,0,0{79x", 0x94af);
    ChecksumIs("159x48,0,0{79x", 0x94af, '4', "159x48,0,0{79x4", 0xca8b);
    ChecksumIs("159x48,0,0{79x4", 0xca8b, '8', "159x48,0,0{79x48", 0xe57d);
  }

  lemma ShownChecksum()
    ensures Checksum("159x48,0,0{79x48,0,0,79x48,80,0}") == 0xbb62
  {
    hide Checksum;
    ShownHalf();
    ChecksumIs("159x48,0,0{79x48", 0xe57d, ',', "159x48,0,0{79x48,", 0xf2ea);
    ChecksumIs("159x48,0,0{79x48,", 0xf2ea, '0', "159x48,0,0{79x48,0", 0x79a5);
    ChecksumIs("159x48,0,0{79x48,0", 0x79a5, ',', "159x48,0,0{79x48,0,", 0xbcfe);
    ChecksumIs("159x48,0,0{79x48,0,", 0xbcfe, '0', "159x48,0,0{79x48,0,0", 0x5eaf);
    ChecksumIs("159x48,0,0{79x48,0,0", 0x5eaf, ',', "159x48,0,0{79x48,0,0,", 0xaf83);
    ChecksumIs("159x48,0,0{79x48,0,0,", 0xaf83, '7', "159x48,0,0{79x48,0,0,7", 0xd7f8);
    ChecksumIs("159x48,0,0{79x48,0,0,7", 0xd7f8, '9', "159x48,0,0{79x48,0,0,79", 0x6c35);
    ChecksumIs("159x48,0,0{79x48,0,0,79", 0x6c35, 'x', "159x48,0,0{79x48,0,0,79x", 0xb692);
    ChecksumIs("159x48,0,0{79x48,0,0,79x", 0xb692, '4', "159x48,0,0{79x48,0,0,79x4", 0x5b7d);
    ChecksumIs("159x48,0,0{79x48,0,0,79x4", 0x5b7d, '8', "159x48,0,0{79x48,0,0,79x48", 0xadf6);
    ChecksumIs("159x48,0,0{79x48,0,0,79x48", 0xadf6, ',', "159x48,0,0{79x48,0,0,79x48,", 0x5727);
    ChecksumIs("159x48,0,0{79x48,0,0,79x48,", 0x5727, '8', "159x48,0,0{79x48,0,0,79x48,8", 0xabcb);
    ChecksumIs("159x48,0,0{79x48,0,0,79x48,8", 0xabcb, '0', "159x48,0,0{79x48,0,0,79x48,80", 0xd615);
    ChecksumIs("159x48,0,0{79x48,0,0,79x48,80", 0xd615, ',', "159x48,0,0{79x48,0,0,79x48,80,", 0xeb36);
    ChecksumIs("159x48,0,0{79x48,0,0,79x48,80,", 0xeb36, '0', "159x48,0,0{79x48,0,0,79x48,80,0", 0x75cb);
    ChecksumIs("159x48,0,0{79x48,0,0,79x48,80,0", 0x75cb, '}', "159x48,0,0{79x48,0,0,79x48,80,0}", 0xbb62);
  }

  lemma DumpedFour(text: string, numeral: string)
    requires Numeral(Sixteen, Checksum(text)) == numeral && |numeral| == 4
    ensures Dumped(text) == numeral + "," + text
  {
  }

  // It is dumped as the manual has it.
  lemma ShownDumped()
    ensures Dumped(Text(ShownLayout())) == "bb62,159x48,0,0{79x48,0,0,79x48,80,0}"
  {
    hide *;
    ShownText();
    ShownChecksum();
    LongNumerals();
    DumpedFour("159x48,0,0{79x48,0,0,79x48,80,0}", "bb62");
  }

  // Cells on top of one another are in square brackets.
  lemma ColumnText()
    ensures Text(Tree(TopBottom, 80, 24, 0, 0, None,
                      [Tree(WindowPane, 80, 12, 0, 0, None, []), Tree(WindowPane, 80, 11, 0, 13, None, [])]))
            == "80x24,0,0[80x12,0,0,80x11,0,13]"
  {
    hide Numeral, Header, Text, TextOf;
    Numerals();
    LongNumerals();
    var a, b := Tree(WindowPane, 80, 12, 0, 0, None, []), Tree(WindowPane, 80, 11, 0, 13, None, []);
    var t := Tree(TopBottom, 80, 24, 0, 0, None, [a, b]);
    HeaderIs(t, "80", "24", "0", "0");
    HeaderIs(a, "80", "12", "0", "0");
    HeaderIs(b, "80", "11", "0", "13");
    PairText(t, "80x24,0,0", "80x12,0,0", "80x11,0,13");
  }
}
