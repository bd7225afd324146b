// What the checksum of a layout string tells: any one byte changed, but not
// always that the string has been cut short.
module LayoutCorrupt {
  import opened Common
  import opened LayoutTree
  import opened LayoutCustom

  // ------------------------------------------------------------------
  // One byte changed

  lemma RotateInjective(a: nat, b: nat, c: int)
    requires a < 0x1_0000 && b < 0x1_0000 && a != b
    ensures (Rotate(a) + c) % 0x1_0000 != (Rotate(b) + c) % 0x1_0000
  {
  }

  lemma LastDiffers(v: nat, x: char, y: char)
    requires x != y && x as int < 256 && y as int < 256
    ensures (v + CharValue(x)) % 0x1_0000 != (v + CharValue(y)) % 0x1_0000
  {
  }

  lemma {:induction false} ByteDetected(a: string, x: char, y: char, b: string)
    requires x != y && x as int < 256 && y as int < 256
    ensures Checksum(a + [x] + b) != Checksum(a + [y] + b)
    decreases |b|
  {
    hide Checksum, CharValue, Rotate;
    if b == [] {
      assert a + [x] + b == a + [x] && a + [y] + b == a + [y];
      ChecksumNext(a, x);
      ChecksumNext(a, y);
      LastDiffers(Rotate(Checksum(a)), x, y);
    } else {
      var b', c := b[..|b| - 1], b[|b| - 1];
      assert a + [x] + b == (a + [x] + b') + [c] && a + [y] + b == (a + [y] + b') + [c];
      ByteDetected(a, x, y, b');
      ChecksumNext(a + [x] + b', c);
      ChecksumNext(a + [y] + b', c);
      RotateInjective(Checksum(a + [x] + b'), Checksum(a + [y] + b'), CharValue(c));
    }
  }

  // The checksum tells apart any two strings that differ in one byte, neither
  // of them ending there.
  lemma ChecksumDetects(a: string, x: char, y: char, b: string)
    requires x != y && x as int < 256 && y as int < 256
    requires NoNul(a) && x != '\0' && y != '\0' && NoNul(b)
    ensures Checksum(CString(a + [x] + b)) != Checksum(CString(a + [y] + b))
  {
    WholeCString(a + [x] + b);
    WholeCString(a + [y] + b);
    ByteDetected(a, x, y, b);
  }

  // A dump with a byte of its text changed, and not cut short by that, is
  // refused.
  lemma CorruptRefused(t: Tree, i: nat, c: char)
    requires Printable(t) && i < |Text(t)| && c != Text(t)[i] && c as int < 256 && c != '\0'
    ensures ReadDump(CString(Dumped(Text(t))[5 + i := c])) == None
  {
    hide Text, Printable, Numeral, Checksum, ReadChecksum, Read;
    var text := Text(t);
    var bad := text[i := c];
    TextHasNoNul(t);
    HeadReads(t, bad);
    DumpedChanged(text, i, c);
    assert text == text[..i] + [text[i]] + text[i + 1..] && bad == text[..i] + [c] + text[i + 1..];
    TextPlain(t);
    ByteDetected(text[..i], text[i], c, text[i + 1..]);
  }

  lemma DumpedChanged(text: string, i: nat, c: char)
    requires i < |text|
    ensures |Head(text)| == 5 && Dumped(text)[5 + i := c] == Head(text) + text[i := c]
  {
    hide Numeral;
    NumeralLength(Checksum(text));
  }

  // The checksum and the comma in front of a text.
  function Head(text: string): string {
    Padded(Numeral(Sixteen, Checksum(text))) + ","
  }

  // Whatever comes after the head of a dump is read against its checksum.
  lemma HeadReads(t: Tree, body: string)
    requires NoNul(body)
    ensures var s := Head(Text(t)) + body;
            && CString(s) == s && |s| >= 5 && s[5..] == body
            && ReadChecksum(s) == Some(Checksum(Text(t)))
  {
    hide Numeral, ReadHex, Checksum;
    var csum := Checksum(Text(t));
    ChecksumReads(csum, body);
    NumeralLength(csum);
    NumeralValue(Sixteen, csum);
    assert Head(Text(t)) + body == Padded(Numeral(Sixteen, csum)) + "," + body;
    WholeCString(Head(Text(t)) + body);
  }

  // ------------------------------------------------------------------
  // More text after what has been read changes nothing before it

  lemma NumberExtends(p: string, q: string)
    requires ReadNumber(p).Some? && ReadNumber(p).value.1 != []
    ensures ReadNumber(p + q) == Some((ReadNumber(p).value.0, ReadNumber(p).value.1 + q))
  {
    hide Unsigned;
    var n := Run(Ten, p);
    RunIs(Ten, p + q, n);
    assert (p + q)[..n] == p[..n] && (p + q)[n..] == p[n..] + q;
  }

  lemma ExpectExtends(c: char, p: string, q: string)
    requires Expect(c, p).Some?
    ensures Expect(c, p + q) == Some(Expect(c, p).value + q)
  {
    assert (p + q)[1..] == p[1..] + q;
  }

  lemma FieldExtends(p: string, c: char, q: string)
    requires ReadField(p, c).Some?
    ensures ReadField(p + q, c) == Some((ReadField(p, c).value.0, ReadField(p, c).value.1 + q))
  {
    hide ReadNumber;
    NumberExtends(p, q);
    ExpectExtends(c, ReadNumber(p).value.1, q);
  }

  lemma HeaderExtends(p: string, q: string)
    requires ReadHeader(p).Some? && ReadHeader(p).value.1 != []
    ensures ReadHeader(p + q) == Some((ReadHeader(p).value.0, ReadHeader(p).value.1 + q))
  {
    hide ReadField, ReadNumber;
    FieldExtends(p, 'x', q);
    var s1 := ReadField(p, 'x').value.1;
    FieldExtends(s1, ',', q);
    var s2 := ReadField(s1, ',').value.1;
    FieldExtends(s2, ',', q);
    NumberExtends(ReadField(s2, ',').value.1, q);
  }

  // A cell is the same cell with more after it, when something came after it
  // already or it ended in a bracket.
  lemma {:induction false} ReadExtends(p: string, q: string)
    requires Read(p).Some? && (Read(p).value.1 != [] || Read(p).value.0.kind != WindowPane)
    ensures Read(p + q) == Some((Read(p).value.0, Read(p).value.1 + q))
    decreases |p|, 1
  {
    hide ReadHeader, ReadKids;
    PaneHeader(p);
    var (c, rest) := ReadHeader(p).value;
    HeaderExtends(p, q);
    if !Ends(rest) {
      KidsExtend(rest, q);
      ExpectExtends(Shut(Read(p).value.0.kind), ReadKids(rest).value.1, q);
    }
  }

  lemma PaneHeader(p: string)
    requires ReadHeader(p).Some?
    ensures ReadHeader(p).value.0.kind == WindowPane
  {
    hide ReadField, ReadNumber;
  }

  lemma {:induction false} KidsExtend(s: string, q: string)
    requires s != [] && ReadKids(s).Some? && ReadKids(s).value.1 != []
    ensures ReadKids(s + q) == Some((ReadKids(s).value.0, ReadKids(s).value.1 + q))
    decreases |s|, 0
  {
    hide Read;
    assert (s + q)[1..] == s[1..] + q;
    ReadExtends(s[1..], q);
    var rest := Read(s[1..]).value.1;
    if rest[0] == ',' {
      KidsExtend(rest, q);
    }
  }

  // ------------------------------------------------------------------
  // Text cut short

  // The header but for its last number.
  function Lead(t: Tree): string {
    Numeral(Ten, Unsign(t.sx)) + "x" + Numeral(Ten, Unsign(t.sy)) + "," + Numeral(Ten, Unsign(t.xoff)) + ","
  }

  // All that is left to read has been read.
  ghost predicate ReadsWhole(s: string) {
    Read(s).Some? && Read(s).value.1 == []
  }

  // A number cut off before what must follow it.
  lemma FieldCut(n: nat, c: char, i: nat)
    requires i <= |Numeral(Ten, n)| && !IsDigit(Ten, c)
    ensures ReadField(Numeral(Ten, n)[..i], c) == None
  {
    hide Unsigned;
    NumeralValue(Ten, n);
    RunIs(Ten, Numeral(Ten, n)[..i], i);
  }

  lemma FieldPassed(n: int, c: char, rest: string, i: nat)
    requires FitsUInt(n) && !IsDigit(Ten, c) && |Numeral(Ten, Unsign(n))| < i <= |Numeral(Ten, Unsign(n))| + 1 + |rest|
    ensures var d := Numeral(Ten, Unsign(n));
            ReadField((d + [c] + rest)[..i], c) == Some((n, rest[..i - |d| - 1]))
  {
    hide ReadField;
    var d := Numeral(Ten, Unsign(n));
    assert (d + [c] + rest)[..i] == d + [c] + rest[..i - |d| - 1];
    FieldReads(n, c, rest[..i - |d| - 1]);
  }

  // A field of the header, with what is left of the text after it.
  lemma FieldAt(n: int, c: char, rest: string, i: nat)
    requires FitsUInt(n) && !IsDigit(Ten, c) && i <= |Numeral(Ten, Unsign(n))| + 1 + |rest|
    ensures var d := Numeral(Ten, Unsign(n));
            ReadField((d + [c] + rest)[..i], c) == if i <= |d| then None else Some((n, rest[..i - |d| - 1]))
  {
    hide ReadField, Numeral;
    var d := Numeral(Ten, Unsign(n));
    if i <= |d| {
      assert (d + [c] + rest)[..i] == d[..i];
      FieldCut(Unsign(n), c, i);
    } else {
      FieldPassed(n, c, rest, i);
    }
  }

  // The header of a text cut short within it is read just when some of its
  // last number is left, and nothing is left after that.
  lemma HeaderCut(t: Tree, i: nat)
    requires FitsUInt(t.sx) && FitsUInt(t.sy) && FitsUInt(t.xoff) && FitsUInt(t.yoff) && i <= |Header(t)|
    ensures if i <= |Lead(t)| then ReadHeader(Header(t)[..i]) == None
            else ReadHeader(Header(t)[..i]).Some? && ReadHeader(Header(t)[..i]).value.1 == []
  {
    hide ReadField, ReadNumber, Numeral;
    var a, b := Numeral(Ten, Unsign(t.sx)), Numeral(Ten, Unsign(t.sy));
    var c, d := Numeral(Ten, Unsign(t.xoff)), Numeral(Ten, Unsign(t.yoff));
    var s2 := c + "," + d;
    var s1 := b + "," + s2;
    assert Header(t) == a + "x" + s1;
    FieldAt(t.sx, 'x', s1, i);
    if i > |a| {
      var i1 := i - |a| - 1;
      FieldAt(t.sy, ',', s2, i1);
      if i1 > |b| {
        var i2 := i1 - |b| - 1;
        FieldAt(t.xoff, ',', d, i2);
        if i2 > |c| {
          NumberCut(t.yoff, i2 - |c| - 1);
        }
      }
    }
  }

  lemma NumberCut(n: int, i: nat)
    requires FitsUInt(n) && i <= |Numeral(Ten, Unsign(n))|
    ensures var r := ReadNumber(Numeral(Ten, Unsign(n))[..i]);
            if i == 0 then r == None else r.Some? && r.value.1 == []
  {
    hide Unsigned;
    NumeralValue(Ten, Unsign(n));
    RunIs(Ten, Numeral(Ten, Unsign(n))[..i], i);
  }

  // Text cut short is read to its end only when it is cut within the last
  // number of its first header: what is left of a container has no end.
  lemma CutReads(t: Tree, i: nat)
    requires Printable(t) && i < |Text(t)|
    ensures ReadsWhole(Text(t)[..i]) <==> |Lead(t)| < i <= |Header(t)|
  {
    hide Header, ReadHeader, ReadKids, TextOf, FitsUInt, Numeral;
    PrintableHeader(t);
    var p := Text(t)[..i];
    if i <= |Header(t)| {
      assert p == Header(t)[..i];
      HeaderCut(t, i);
      LeadShort(t);
    } else {
      var body := ([Open(t.kind)] + TextOf(t.kids) + [Shut(t.kind)])[..i - |Header(t)|];
      assert p == Header(t) + body && body[0] == Open(t.kind);
      HeaderReads(t, body);
      if ReadsWhole(p) {
        assert Read(p).value.0.kind != WindowPane;
        ReadExtends(p, Text(t)[i..]);
        assert p + Text(t)[i..] == Text(t) + [];
        TextReads(t, []);
      }
    }
  }

  lemma LeadShort(t: Tree)
    ensures |Lead(t)| < |Header(t)|
  {
    hide Numeral;
    NumeralValue(Ten, Unsign(t.yoff));
    assert Header(t) == Lead(t) + Numeral(Ten, Unsign(t.yoff));
  }

  // A NUL in the text cuts it short there. What is left is accepted just when
  // it has the checksum of the whole and ends within the last number of the
  // first header.
  lemma TruncatedExactly(t: Tree, i: nat)
    requires Printable(t) && i < |Text(t)|
    ensures ReadDump(CString(Dumped(Text(t))[5 + i := '\0'])).Some? <==>
            |Lead(t)| < i <= |Header(t)| && Checksum(Text(t)[..i]) == Checksum(Text(t))
  {
    hide Text, Printable, Numeral, Checksum, ReadChecksum, Read, Header, Lead;
    var text := Text(t);
    TextHasNoNul(t);
    HeadReads(t, text[..i]);
    DumpedChanged(text, i, '\0');
    var s := Head(text) + text[..i];
    assert Dumped(text)[5 + i := '\0'][..5 + i] == s;
    CStringIs(Dumped(text)[5 + i := '\0'], 5 + i);
    CutReads(t, i);
  }

  // A pane 4 columns wide and 59 high, at row 10.
  function OnePane(): Tree {
    Tree(WindowPane, 4, 59, 0, 10, None, [])
  }

  lemma OnePaneText()
    ensures Text(OnePane()) == Header(OnePane()) == "4x59,0,10" && Lead(OnePane()) == "4x59,0,"
    ensures Printable(OnePane())
  {
    assert Numeral(Ten, 59) == "59" && Numeral(Ten, 10) == "10";
  }

  lemma OnePaneChecksum()
    ensures Checksum("4x59,0,1") == Checksum("4x59,0,10") == 0x60
  {
    hide Checksum;
    NoneChecksum();
    ChecksumIs("", 0, '4', "4", 0x34);
    ChecksumIs("4", 0x34, 'x', "4x", 0x92);
    ChecksumIs("4x", 0x92, '5', "4x5", 0x7e);
    ChecksumIs("4x5", 0x7e, '9', "4x59", 0x78);
    ChecksumIs("4x59", 0x78, ',', "4x59,", 0x68);
    ChecksumIs("4x59,", 0x68, '0', "4x59,0", 0x64);
    ChecksumIs("4x59,0", 0x64, ',', "4x59,0,", 0x5e);
    ChecksumIs("4x59,0,", 0x5e, '1', "4x59,0,1", 0x60);
    ChecksumIs("4x59,0,1", 0x60, '0', "4x59,0,10", 0x60);
  }

  // Without its last character it is read as a pane at row 1.
  lemma TruncatedMayPass()
    ensures |Text(OnePane())| == 9
    ensures ReadDump(CString(Dumped(Text(OnePane()))[5 + 8 := '\0'])).Some?
  {
    hide Numeral, Checksum, ReadDump, Dumped, CString, Text, Header, Lead, Printable;
    OnePaneText();
    OnePaneChecksum();
    assert Text(OnePane())[..8] == "4x59,0,1";
    TruncatedExactly(OnePane(), 8);
  }
}
