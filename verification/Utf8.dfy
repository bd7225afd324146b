// UTF-8: characters collected byte by byte, their code points, and the tree in
// which their widths are looked up.
module Utf8 {
  import opened Common

  // ------------------------------------------------------------------
  // Widths

  datatype Entry = Entry(first: nat, last: nat, width: nat)

  datatype Tree = Nil | Node(item: Entry, left: Tree, right: Tree)

  predicate Has(e: Entry, value: nat) {
    e.first <= value <= e.last
  }

  predicate Ordered(table: seq<Entry>) {
    forall i :: 0 <= i < |table| ==> table[i].first <= table[i].last
  }

  // utf8_overlap
  function Overlap(a: Entry, b: Entry): bool {
    || (b.first <= a.first <= b.last) || (b.first <= a.last <= b.last)
    || (a.first <= b.first <= a.last) || (a.first <= b.last <= a.last)
  }

  // Two intervals overlap just when they have a value in common.
  lemma OverlapExactly(a: Entry, b: Entry)
    requires a.first <= a.last && b.first <= b.last
    ensures Overlap(a, b) <==> exists v: nat :: Has(a, v) && Has(b, v)
  {
    if Overlap(a, b) {
      var v := if b.first <= a.first then a.first else b.first;
      assert Has(a, v) && Has(b, v);
    }
  }

  // No two entries share a value.
  predicate Disjoint(table: seq<Entry>) {
    forall i, j :: 0 <= i < |table| && 0 <= j < |table| && i != j ==> !Overlap(table[i], table[j])
  }

  // The width of a value by a scan of the table: that of the entry that has
  // it, and one where none has.
  function Scan(table: seq<Entry>, value: nat): nat
    decreases |table|
  {
    if table == [] then 1
    else if Has(table[|table| - 1], value) then table[|table| - 1].width
    else Scan(table[..|table| - 1], value)
  }

  // The tree to which an item is added where the walk from the root ends, as
  // in utf8_build; the walk stops as well at an entry that overlaps it.
  function Insert(t: Tree, item: Entry): Tree {
    match t
    case Nil => Node(item, Nil, Nil)
    case Node(node, left, right) =>
      if item.last < node.first then Node(node, Insert(left, item), right)
      else if item.first > node.last then Node(node, left, Insert(right, item))
      else t
  }

  predicate In(t: Tree, e: Entry) {
    t.Node? && (t.item == e || In(t.left, e) || In(t.right, e))
  }

  // All to the left is below, and all to the right above.
  ghost predicate Sorted(t: Tree) {
    t.Node? ==>
      && t.item.first <= t.item.last && Sorted(t.left) && Sorted(t.right)
      && (forall e :: In(t.left, e) ==> e.last < t.item.first)
      && (forall e :: In(t.right, e) ==> t.item.last < e.first)
  }

  // The walk of utf8_width.
  function Walk(t: Tree, value: nat): nat {
    match t
    case Nil => 1
    case Node(item, left, right) =>
      if value < item.first then Walk(left, value)
      else if value > item.last then Walk(right, value)
      else item.width
  }

  lemma {:induction false} InsertSorted(t: Tree, item: Entry)
    requires Sorted(t) && item.first <= item.last
    requires forall e :: In(t, e) ==> !Overlap(item, e) && e.first <= e.last
    ensures Sorted(Insert(t, item))
    ensures forall e :: In(Insert(t, item), e) <==> In(t, e) || e == item
    decreases t
  {
    match t
    case Nil =>
    case Node(node, left, right) =>
      assert In(t, node);
      assert forall e :: In(left, e) || In(right, e) ==> In(t, e);
      if item.last < node.first {
        InsertSorted(left, item);
      } else {
        InsertSorted(right, item);
      }
  }

  // In a sorted tree the walk ends at the one entry that has the value.
  lemma {:induction false} WalkFinds(t: Tree, value: nat, e: Entry)
    requires Sorted(t) && In(t, e) && Has(e, value)
    ensures Walk(t, value) == e.width
    decreases t
  {
    if t.item == e {
    } else if In(t.left, e) {
      WalkFinds(t.left, value, e);
    } else {
      WalkFinds(t.right, value, e);
    }
  }

  lemma {:induction false} WalkMisses(t: Tree, value: nat)
    requires Sorted(t) && forall e :: In(t, e) ==> !Has(e, value)
    ensures Walk(t, value) == 1
    decreases t
  {
    if t.Node? {
      assert In(t, t.item);
      if value < t.item.first {
        assert forall e :: In(t.left, e) ==> In(t, e);
        WalkMisses(t.left, value);
      } else {
        assert forall e :: In(t.right, e) ==> In(t, e);
        WalkMisses(t.right, value);
      }
    }
  }

  lemma {:induction false} ScanExactly(table: seq<Entry>, value: nat)
    ensures (forall i :: 0 <= i < |table| ==> !Has(table[i], value)) ==> Scan(table, value) == 1
    ensures Disjoint(table) ==>
              forall i :: 0 <= i < |table| && Has(table[i], value) ==> Scan(table, value) == table[i].width
    decreases |table|
  {
    if table != [] {
      ScanExactly(table[..|table| - 1], value);
    }
  }

  // The tree of a table.
  ghost predicate Holds(t: Tree, table: seq<Entry>) {
    Sorted(t) && forall e :: In(t, e) <==> e in table
  }

  // A walk of the tree gives what a scan of the table does.
  lemma WalkIsScan(t: Tree, table: seq<Entry>, value: nat)
    requires Ordered(table) && Disjoint(table) && Holds(t, table)
    ensures Walk(t, value) == Scan(table, value)
  {
    ScanExactly(table, value);
    if i :| 0 <= i < |table| && Has(table[i], value) {
      WalkFinds(t, value, table[i]);
    } else {
      WalkMisses(t, value);
    }
  }

  // utf8_build: the tree, or nothing where entries overlap.
  method Build(table: seq<Entry>) returns (ok: bool, root: Tree)
    requires Ordered(table)
    ensures ok <==> Disjoint(table)
    ensures ok ==> Holds(root, table) && forall v: nat :: Walk(root, v) == Scan(table, v)
  {
    root := Nil;
    var i := 0;
    while i < |table|
      invariant 0 <= i <= |table| && Holds(root, table[..i])
      invariant forall m, n :: 0 <= m < i && 0 <= n < |table| && m != n ==> !Overlap(table[m], table[n])
    {
      var j := 0;
      while j < |table|
        invariant 0 <= j <= |table|
        invariant forall n :: 0 <= n < j && n != i ==> !Overlap(table[i], table[n])
      {
        if i != j && Overlap(table[i], table[j]) {
          return false, Nil;
        }
        j := j + 1;
      }
      assert forall e :: In(root, e) ==> e in table[..i];
      InsertSorted(root, table[i]);
      root := Insert(root, table[i]);
      assert table[..i + 1] == table[..i] + [table[i]];
      i := i + 1;
    }
    assert table[..i] == table;
    forall v: nat ensures Walk(root, v) == Scan(table, v) {
      WalkIsScan(root, table, v);
    }
    return true, root;
  }

  // utf8_width, of a code point.
  method Width(root: Tree, value: nat) returns (width: nat)
    ensures width == Walk(root, value)
  {
    var item := root;
    while item.Node?
      invariant Walk(item, value) == Walk(root, value)
      decreases item
    {
      if value < item.item.first {
        item := item.left;
      } else if value > item.item.last {
        item := item.right;
      } else {
        return item.item.width;
      }
    }
    return 1;
  }

  // ------------------------------------------------------------------
  // Code points

  // utf8_combine, with masks and shifts as arithmetic.
  function Combine(bytes: seq<nat>): nat {
    match |bytes|
    case 1 => bytes[0]
    case 2 => bytes[1] % 64 + bytes[0] % 32 * 64
    case 3 => bytes[2] % 64 + bytes[1] % 64 * 64 + bytes[0] % 16 * 4096
    case 4 => bytes[3] % 64 + bytes[2] % 64 * 64 + bytes[1] % 64 * 4096 + bytes[0] % 64 * 262144
    case _ => 0xff
  }

  // The bytes for a code point (section 3 of RFC 3629).
  function Encode(uc: nat): seq<nat>
    requires uc < 0x110000
  {
    if uc < 0x80 then [uc]
    else if uc < 0x800 then [0xc0 + uc / 64, 0x80 + uc % 64]
    else if uc < 0x10000 then [0xe0 + uc / 4096, 0x80 + uc / 64 % 64, 0x80 + uc % 64]
    else [0xf0 + uc / 262144, 0x80 + uc / 4096 % 64, 0x80 + uc / 64 % 64, 0x80 + uc % 64]
  }

  // utf8_split2
  function Split2(uc: nat): seq<nat>
    requires uc < 0x800
  {
    if uc > 0x7f then [0xc0 + uc / 64, 0x80 + uc % 64] else [uc]
  }

  predicate Continues(b: nat) {
    0x80 <= b <= 0xbf
  }

  lemma Low(b: nat)
    requires b < 64
    ensures (0x80 + b) % 64 == b
  {
  }

  lemma ThreeBytes(a: nat, b: nat, c: nat)
    requires a < 16 && b < 64 && c < 64
    ensures Combine([0xe0 + a, 0x80 + b, 0x80 + c]) == c + b * 64 + a * 4096
  {
    Low(b);
    Low(c);
    assert (0xe0 + a) % 16 == a;
  }

  lemma FourBytes(a: nat, b: nat, c: nat, d: nat)
    requires a < 16 && b < 64 && c < 64 && d < 64
    ensures Combine([0xf0 + a, 0x80 + b, 0x80 + c, 0x80 + d])
            == d + c * 64 + b * 4096 + a * 262144 + 0xc00000
  {
    Low(b);
    Low(c);
    Low(d);
    assert (0xf0 + a) % 64 == 0x30 + a;
  }

  // The digits of a number in base 64.
  lemma Digits(uc: nat)
    ensures uc / 64 / 64 == uc / 4096 && uc / 4096 / 64 == uc / 262144
    ensures uc == uc % 64 + uc / 64 % 64 * 64 + uc / 4096 * 4096
    ensures uc / 4096 == uc / 4096 % 64 + uc / 262144 * 64
  {
  }

  // Characters of up to three bytes give back their code point; those of four
  // give it with the bits above it that the mask for the first byte keeps.
  lemma CombineEncode(uc: nat)
    requires uc < 0x110000
    ensures Combine(Encode(uc)) == if uc < 0x10000 then uc else uc + 0xc00000
  {
    hide Combine;
    Digits(uc);
    if uc < 0x800 {
      CombineShort(uc);
    } else if uc < 0x10000 {
      ThreeBytes(uc / 4096, uc / 64 % 64, uc % 64);
    } else {
      FourBytes(uc / 262144, uc / 4096 % 64, uc / 64 % 64, uc % 64);
    }
  }

  lemma {:induction false} ScanMisses(table: seq<Entry>, value: nat)
    requires forall i :: 0 <= i < |table| ==> table[i].last < value
    ensures Scan(table, value) == 1
    decreases |table|
  {
    if table != [] {
      ScanMisses(table[..|table| - 1], value);
    }
  }

  // No character of four bytes is found in a table of code points: its width is
  // one, whatever the table has for it.
  lemma FourBytesNotFound(table: seq<Entry>, uc: nat)
    requires 0x10000 <= uc < 0x110000 && forall i :: 0 <= i < |table| ==> table[i].last < 0x110000
    ensures Scan(table, Combine(Encode(uc))) == 1
  {
    CombineEncode(uc);
    ScanMisses(table, uc + 0xc00000);
  }

  // Such as one of the ideographs that the table has as two columns wide.
  lemma IdeographNarrow()
    ensures var table := [Entry(0x20000, 0x2fffd, 2)];
            Scan(table, 0x20000) == 2 && Scan(table, Combine(Encode(0x20000))) == 1
  {
    FourBytesNotFound([Entry(0x20000, 0x2fffd, 2)], 0x20000);
  }

  lemma CombineShort(uc: nat)
    requires uc < 0x800
    ensures Combine(Encode(uc)) == uc
  {
    Low(uc % 64);
    if uc >= 0x80 {
      assert (0xc0 + uc / 64) % 32 == uc / 64;
    }
  }

  lemma Split2Combine(uc: nat)
    requires uc < 0x800
    ensures Split2(uc) == Encode(uc) && Combine(Split2(uc)) == uc
  {
    CombineEncode(uc);
  }

  // Two bytes that utf8_open and the states after it accept are the encoding of
  // their code point; so are three unless a shorter one would do.
  lemma EncodeCombine(bytes: seq<nat>)
    requires |bytes| == 2 || |bytes| == 3
    requires forall i :: 1 <= i < |bytes| ==> Continues(bytes[i])
    requires if |bytes| == 2 then 0xc2 <= bytes[0] <= 0xdf else 0xe0 <= bytes[0] <= 0xef
    ensures Combine(bytes) < 0x10000
    ensures Encode(Combine(bytes)) == bytes <==> |bytes| == 2 || bytes[0] != 0xe0 || bytes[1] >= 0xa0
  {
    if |bytes| == 2 {
      EncodeTwo(bytes[0] - 0xc0, bytes[1] - 0x80);
      assert bytes == [bytes[0], bytes[1]];
    } else {
      EncodeThree(bytes[0] - 0xe0, bytes[1] - 0x80, bytes[2] - 0x80);
      assert bytes == [bytes[0], bytes[1], bytes[2]];
    }
  }

  lemma EncodeTwo(a: nat, b: nat)
    requires 2 <= a < 32 && b < 64
    ensures Combine([0xc0 + a, 0x80 + b]) == b + a * 64 && Encode(b + a * 64) == [0xc0 + a, 0x80 + b]
  {
    Low(b);
    assert (0xc0 + a) % 32 == a;
  }

  lemma EncodeThree(a: nat, b: nat, c: nat)
    requires a < 16 && b < 64 && c < 64
    ensures Combine([0xe0 + a, 0x80 + b, 0x80 + c]) == c + b * 64 + a * 4096
    ensures Encode(c + b * 64 + a * 4096) == [0xe0 + a, 0x80 + b, 0x80 + c] <==> a > 0 || b >= 0x20
  {
    ThreeBytes(a, b, c);
    var uc := c + b * 64 + a * 4096;
    assert uc / 64 == b + a * 64 && uc % 64 == c;
    assert (b + a * 64) % 64 == b && (b + a * 64) / 64 == a;
    Digits(uc);
    if uc < 0x800 {
      assert |Encode(uc)| < 3;
    }
  }

  // ------------------------------------------------------------------
  // Collecting

  // The bytes so far of a character and how many it is to have.
  datatype Char = Char(bytes: seq<nat>, size: nat)

  // How many bytes a character has that starts with one, or none.
  function SizeOf(ch: nat): nat {
    if 0xc2 <= ch <= 0xdf then 2 else if 0xe0 <= ch <= 0xef then 3 else if 0xf0 <= ch <= 0xf4 then 4 else 0
  }

  class Utf8Data {
    const data: array<nat>
    var have: nat
    var size: nat
    var width: nat

    ghost predicate Valid()
      reads this
    {
      data.Length == UTF8_SIZE && have <= UTF8_SIZE
    }

    ghost function Value(): Char
      requires Valid()
      reads this, data
    {
      Char(data[..have], size)
    }

    constructor ()
      ensures Valid() && fresh(data) && have == 0 && size == 0
    {
      data := new nat[UTF8_SIZE](_ => 0);
      have, size, width := 0, 0, 0;
    }

    // utf8_open
    method Open(ch: nat, root: Tree) returns (more: bool)
      requires Valid()
      modifies this, data
      ensures Valid() && more == (SizeOf(ch) != 0)
      ensures Value() == Char(if more then [ch] else [], SizeOf(ch))
    {
      forall i | 0 <= i < data.Length {
        data[i] := 0;
      }
      have, size, width := 0, SizeOf(ch), 0;
      if size == 0 {
        return false;
      }
      var _ := Append(ch, root);
      return true;
    }

    // utf8_append, which is fatal for a character that has all its bytes.
    method Append(ch: nat, root: Tree) returns (more: bool)
      requires Valid() && have < size <= UTF8_SIZE
      modifies this, data
      ensures Valid() && Value() == old(Value()).(bytes := old(Value()).bytes + [ch])
      ensures more == (have != size) && (!more ==> width == Walk(root, Combine(Value().bytes)))
    {
      data[have] := ch;
      have := have + 1;
      assert data[..have] == old(data[..have]) + [ch];
      if have != size {
        return true;
      }
      width := Width(root, Combine(data[..have]));
      return false;
    }
  }
}
