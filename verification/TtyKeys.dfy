// The tree in which the keys a terminal sends are looked up: a ternary search
// tree, from strings to key codes.
module TtyKeys {

  type Key = int

  const NONE: Key := 0xfff

  // Strings of chars, which may be signed.
  type Str = seq<int>

  datatype Tree = Nil | Node(ch: int, key: Key, left: Tree, right: Tree, next: Tree)

  // ------------------------------------------------------------------
  // The functions on trees

  // tty_keys_add1
  function Add(t: Tree, s: Str, key: Key): (r: Tree)
    requires s != []
    ensures r != Nil
    decreases |s|, t
  {
    var n := if t == Nil then Node(s[0], NONE, Nil, Nil, Nil) else t;
    if s[0] == n.ch then
      if |s| == 1 then n.(key := key) else n.(next := Add(n.next, s[1..], key))
    else if s[0] < n.ch then n.(left := Add(n.left, s, key))
    else n.(right := Add(n.right, s, key))
  }

  datatype Found = Missing | Match(key: Key, size: nat)

  // tty_keys_find1: the key of the node found, and how many chars it matches.
  function Find(t: Tree, buf: Str): Found
    requires buf != []
    decreases t
  {
    match t
    case Nil => Missing
    case Node(ch, key, left, right, next) =>
      if ch == buf[0] then
        if |buf| == 1 || (next == Nil && key != NONE) then Match(key, 1)
        else More(Find(next, buf[1..]))
      else if buf[0] < ch then Find(left, buf)
      else Find(right, buf)
  }

  function More(f: Found): Found {
    match f
    case Missing => Missing
    case Match(key, size) => Match(key, size + 1)
  }

  // ------------------------------------------------------------------
  // What a tree means

  // The key stored for a string.
  function Lookup(t: Tree, u: Str): Key
    requires u != []
    decreases t
  {
    match t
    case Nil => NONE
    case Node(ch, key, left, right, next) =>
      if ch == u[0] then if |u| == 1 then key else Lookup(next, u[1..])
      else if u[0] < ch then Lookup(left, u)
      else Lookup(right, u)
  }

  // Adding changes the key of one string and of no other.
  lemma {:induction false} AddLookup(t: Tree, s: Str, key: Key, u: Str)
    requires s != [] && u != []
    ensures Lookup(Add(t, s, key), u) == if u == s then key else Lookup(t, u)
    decreases |s|, t
  {
    var n := if t == Nil then Node(s[0], NONE, Nil, Nil, Nil) else t;
    if s[0] == n.ch {
      if |s| > 1 && |u| > 1 && u[0] == s[0] {
        AddLookup(n.next, s[1..], key, u[1..]);
        assert u == [u[0]] + u[1..] && s == [s[0]] + s[1..];
      }
    } else if s[0] < n.ch {
      AddLookup(n.left, s, key, u);
    } else {
      AddLookup(n.right, s, key, u);
    }
  }

  datatype Entry = Entry(s: Str, key: Key)

  function AddAll(t: Tree, es: seq<Entry>): Tree
    requires forall i :: 0 <= i < |es| ==> es[i].s != []
    decreases |es|
  {
    if es == [] then t else Add(AddAll(t, es[..|es| - 1]), es[|es| - 1].s, es[|es| - 1].key)
  }

  // The key last given for a string.
  function Last(es: seq<Entry>, u: Str): Key
    decreases |es|
  {
    if es == [] then NONE
    else if es[|es| - 1].s == u then es[|es| - 1].key
    else Last(es[..|es| - 1], u)
  }

  // After any adding, in any order, each string has the key last given for it.
  lemma {:induction false} LastWins(es: seq<Entry>, u: Str)
    requires u != [] && forall i :: 0 <= i < |es| ==> es[i].s != []
    ensures Lookup(AddAll(Nil, es), u) == Last(es, u)
    decreases |es|
  {
    if es != [] {
      LastWins(es[..|es| - 1], u);
      AddLookup(AddAll(Nil, es[..|es| - 1]), es[|es| - 1].s, es[|es| - 1].key, u);
    }
  }

  // ------------------------------------------------------------------
  // What a search finds

  // Every node is on the way to a key.
  predicate Live(t: Tree) {
    t.Node? ==> (t.key != NONE || t.next.Node?) && Live(t.left) && Live(t.right) && Live(t.next)
  }

  lemma {:induction false} AddLive(t: Tree, s: Str, key: Key)
    requires s != [] && key != NONE && Live(t)
    ensures Live(Add(t, s, key))
    decreases |s|, t
  {
    var n := if t == Nil then Node(s[0], NONE, Nil, Nil, Nil) else t;
    if s[0] == n.ch {
      if |s| > 1 {
        AddLive(n.next, s[1..], key);
      }
    } else if s[0] < n.ch {
      AddLive(n.left, s, key);
    } else {
      AddLive(n.right, s, key);
    }
  }

  lemma {:induction false} AllLive(es: seq<Entry>)
    requires forall i :: 0 <= i < |es| ==> es[i].s != [] && es[i].key != NONE
    ensures Live(AddAll(Nil, es))
    decreases |es|
  {
    if es != [] {
      AllLive(es[..|es| - 1]);
      AddLive(AddAll(Nil, es[..|es| - 1]), es[|es| - 1].s, es[|es| - 1].key);
    }
  }

  predicate Stored(t: Tree, u: Str) {
    u != [] && Lookup(t, u) != NONE
  }

  // Some stored string goes on from u, or is u.
  ghost predicate Extended(t: Tree, u: Str) {
    exists v :: u <= v && Stored(t, v)
  }

  ghost predicate ProperlyExtended(t: Tree, u: Str) {
    exists v :: u < v && Stored(t, v)
  }

  // A string stored in a tree that holds any.
  function Some(t: Tree): (u: Str)
    requires t.Node? && Live(t)
    ensures Stored(t, u)
  {
    if t.key != NONE then [t.ch] else [t.ch] + Some(t.next)
  }

  lemma ExtendedNext(t: Tree, u: Str)
    requires t.Node? && u != [] && u[0] == t.ch && |u| > 1
    ensures Extended(t, u) <==> Extended(t.next, u[1..])
    ensures ProperlyExtended(t, u) <==> ProperlyExtended(t.next, u[1..])
  {
    NextOut(t, u);
    NextIn(t, u);
  }

  lemma NextOut(t: Tree, u: Str)
    requires t.Node? && u != [] && u[0] == t.ch && |u| > 1
    ensures Extended(t, u) ==> Extended(t.next, u[1..])
    ensures ProperlyExtended(t, u) ==> ProperlyExtended(t.next, u[1..])
  {
    forall v | u <= v && Stored(t, v) ensures u[1..] <= v[1..] && Stored(t.next, v[1..]) {
    }
  }

  lemma NextIn(t: Tree, u: Str)
    requires t.Node? && u != [] && u[0] == t.ch && |u| > 1
    ensures Extended(t.next, u[1..]) ==> Extended(t, u)
    ensures ProperlyExtended(t.next, u[1..]) ==> ProperlyExtended(t, u)
  {
    forall v | u[1..] <= v && Stored(t.next, v) ensures u <= [t.ch] + v && Stored(t, [t.ch] + v) {
    }
  }

  lemma ExtendedSide(t: Tree, u: Str)
    requires t.Node? && u != [] && u[0] != t.ch
    ensures Extended(t, u) <==> Extended(if u[0] < t.ch then t.left else t.right, u)
    ensures ProperlyExtended(t, u) <==> ProperlyExtended(if u[0] < t.ch then t.left else t.right, u)
  {
    var side := if u[0] < t.ch then t.left else t.right;
    forall v | u <= v ensures Stored(t, v) <==> Stored(side, v) {
    }
  }

  // The node at the end of a string of one char.
  lemma ExtendedHere(t: Tree, u: Str)
    requires t.Node? && Live(t) && |u| == 1 && u[0] == t.ch
    ensures Extended(t, u) && (ProperlyExtended(t, u) <==> t.next.Node?)
  {
    assert u <= Some(t);
    if t.next.Node? {
      assert u < [t.ch] + Some(t.next) && Stored(t, [t.ch] + Some(t.next));
    } else {
      forall v | u < v ensures !Stored(t, v) {
        assert v[0] == u[0] && Lookup(t.next, v[1..]) == NONE;
      }
    }
  }

  // A shorter key that is found because none goes on from it.
  ghost predicate Ends(t: Tree, u: Str, n: nat) {
    0 < n < |u| && Stored(t, u[..n]) && !ProperlyExtended(t, u[..n])
  }

  // What is found: the whole of the input where a stored string is it or goes
  // on from it, with the key stored for it if there is one; otherwise the
  // stored string, if there is one, that the input goes on from and no stored
  // string does; otherwise nothing.
  lemma {:induction false} FindExactly(t: Tree, u: Str)
    requires Live(t) && u != []
    ensures Extended(t, u) ==> Find(t, u) == Match(Lookup(t, u), |u|)
    ensures !Extended(t, u) ==>
              match Find(t, u)
              case Missing => forall n :: !Ends(t, u, n)
              case Match(key, size) => Ends(t, u, size) && key == Lookup(t, u[..size])
    decreases t
  {
    if t == Nil {
      assert Find(t, u) == Missing;
    } else if u[0] != t.ch {
      FindSide(t, u);
    } else if |u| == 1 {
      ExtendedHere(t, u);
    } else if t.next == Nil && t.key != NONE {
      ExtendedNext(t, u);
      ExtendedHere(t, u[..1]);
      assert Ends(t, u, 1);
    } else {
      FindNext(t, u);
    }
  }

  lemma {:induction false} FindSide(t: Tree, u: Str)
    requires t.Node? && Live(t) && u != [] && u[0] != t.ch
    ensures Extended(t, u) ==> Find(t, u) == Match(Lookup(t, u), |u|)
    ensures !Extended(t, u) ==>
              match Find(t, u)
              case Missing => forall n :: !Ends(t, u, n)
              case Match(key, size) => Ends(t, u, size) && key == Lookup(t, u[..size])
    decreases t, 0
  {
    var side := if u[0] < t.ch then t.left else t.right;
    FindExactly(side, u);
    ExtendedSide(t, u);
    forall n | 0 < n < |u| ensures Ends(t, u, n) <==> Ends(side, u, n) {
      ExtendedSide(t, u[..n]);
    }
  }

  lemma {:induction false} FindNext(t: Tree, u: Str)
    requires t.Node? && Live(t) && |u| > 1 && u[0] == t.ch && (t.next.Node? || t.key == NONE)
    ensures Extended(t, u) ==> Find(t, u) == Match(Lookup(t, u), |u|)
    ensures !Extended(t, u) ==>
              match Find(t, u)
              case Missing => forall n :: !Ends(t, u, n)
              case Match(key, size) => Ends(t, u, size) && key == Lookup(t, u[..size])
    decreases t, 0
  {
    var rest := u[1..];
    FindExactly(t.next, rest);
    ExtendedNext(t, u);
    ExtendedHere(t, u[..1]);
    forall n | 1 < n < |u| ensures Ends(t, u, n) <==> Ends(t.next, rest, n - 1) {
      ExtendedNext(t, u[..n]);
      assert u[..n][1..] == rest[..n - 1];
    }
    var f := Find(t.next, rest);
    if f.Match? && f.size < |rest| {
      assert u[..f.size + 1][1..] == rest[..f.size];
    }
  }

  // ------------------------------------------------------------------
  // Adding through a search

  // The key of the node that a search finds replaced.
  function Replaced(t: Tree, buf: Str, key: Key): Tree
    requires buf != []
    decreases t
  {
    match t
    case Nil => Nil
    case Node(ch, k, left, right, next) =>
      if ch == buf[0] then
        if |buf| == 1 || (next == Nil && k != NONE) then t.(key := key)
        else t.(next := Replaced(next, buf[1..], key))
      else if buf[0] < ch then t.(left := Replaced(left, buf, key))
      else t.(right := Replaced(right, buf, key))
  }

  // tty_keys_add
  function AddFound(t: Tree, s: Str, key: Key): Tree
    requires s != []
  {
    if Find(t, s) == Missing then Add(t, s, key) else Replaced(t, s, key)
  }

  lemma {:induction false} ReplacedLookup(t: Tree, s: Str, key: Key, u: Str)
    requires s != [] && u != [] && Find(t, s).Match?
    ensures Find(t, s).size <= |s| && 0 < Find(t, s).size
    ensures Lookup(Replaced(t, s, key), u) == if u == s[..Find(t, s).size] then key else Lookup(t, u)
    decreases t
  {
    if t.ch == s[0] {
      if |s| > 1 && (t.next.Node? || t.key == NONE) {
        var rest := s[1..];
        ReplacedLookup(t.next, rest, key, if |u| > 1 then u[1..] else u);
        assert s[..Find(t, s).size] == [s[0]] + rest[..Find(t.next, rest).size];
        assert u == [u[0]] + u[1..];
      }
    } else if s[0] < t.ch {
      ReplacedLookup(t.left, s, key, u);
    } else {
      ReplacedLookup(t.right, s, key, u);
    }
  }

  // tty_keys_add sets the key of its string alone just when the string does
  // not go on from a stored one that no other does; when it does, it is the
  // shorter string whose key is replaced.
  lemma AddFoundExactly(t: Tree, s: Str, key: Key)
    requires Live(t) && s != [] && key != NONE
    ensures (forall u :: u != [] ==> Lookup(AddFound(t, s, key), u) == if u == s then key else Lookup(t, u))
            <==> (Extended(t, s) || forall n :: !Ends(t, s, n))
  {
    FindExactly(t, s);
    match Find(t, s)
    case Missing =>
      forall u | u != [] ensures Lookup(AddFound(t, s, key), u) == if u == s then key else Lookup(t, u) {
        AddLookup(t, s, key, u);
      }
    case Match(k, n) =>
      ReplacedLookup(t, s, key, s);
      forall u | u != []
        ensures Lookup(AddFound(t, s, key), u) == if u == s[..n] then key else Lookup(t, u)
      {
        ReplacedLookup(t, s, key, u);
      }
      assert s[..|s|] == s;
      assert s <= s && (Stored(t, s) ==> Extended(t, s));
  }

  lemma KeyLost()
    ensures var t := Add(Nil, [1], 65); Lookup(AddFound(t, [1, 2], 66), [1]) == 66
                                        && Lookup(AddFound(t, [1, 2], 66), [1, 2]) == NONE
  {
    assert Find(Add(Nil, [1], 65), [1, 2]) == Match(65, 1);
  }

  // ------------------------------------------------------------------
  // The tree in memory

  class TtyKey {
    var ch: int
    var key: Key
    var left: TtyKey?
    var right: TtyKey?
    var next: TtyKey?
    ghost var nodes: set<TtyKey>

    constructor (ch: int)
      ensures this.ch == ch && key == NONE && left == null && right == null && next == null && nodes == {this}
    {
      this.ch, key, left, right, next, nodes := ch, NONE, null, null, null, {this};
    }
  }

  ghost function NodesOf(tk: TtyKey?): set<TtyKey>
    reads tk
  {
    if tk == null then {} else tk.nodes
  }

  ghost predicate Within(child: TtyKey, tk: TtyKey)
    reads child, tk
  {
    child in child.nodes && child.nodes < tk.nodes && tk !in child.nodes
  }

  // The nodes below are those of three trees that share none.
  ghost predicate Apart(tk: TtyKey)
    reads tk, tk.nodes
  {
    && tk in tk.nodes
    && (tk.left != null ==> tk.left in tk.nodes && Within(tk.left, tk))
    && (tk.right != null ==> tk.right in tk.nodes && Within(tk.right, tk))
    && (tk.next != null ==> tk.next in tk.nodes && Within(tk.next, tk))
    && NodesOf(tk.left) !! NodesOf(tk.right) && NodesOf(tk.left) !! NodesOf(tk.next)
    && NodesOf(tk.right) !! NodesOf(tk.next)
  }

  ghost predicate Linked(tk: TtyKey?)
    reads tk, NodesOf(tk)
    decreases NodesOf(tk)
  {
    tk != null ==> Apart(tk) && Linked(tk.left) && Linked(tk.right) && Linked(tk.next)
  }

  lemma Parts(tk: TtyKey)
    requires Linked(tk)
    ensures Apart(tk) && Linked(tk.left) && Linked(tk.right) && Linked(tk.next)
    ensures TreeOf(tk) == Node(tk.ch, tk.key, TreeOf(tk.left), TreeOf(tk.right), TreeOf(tk.next))
  {
  }

  lemma Whole(tk: TtyKey)
    requires Apart(tk) && Linked(tk.left) && Linked(tk.right) && Linked(tk.next)
    ensures Linked(tk)
    ensures TreeOf(tk) == Node(tk.ch, tk.key, TreeOf(tk.left), TreeOf(tk.right), TreeOf(tk.next))
  {
  }

  ghost function TreeOf(tk: TtyKey?): Tree
    requires Linked(tk)
    reads tk, NodesOf(tk)
    decreases NodesOf(tk)
  {
    if tk == null then Nil
    else Node(tk.ch, tk.key, TreeOf(tk.left), TreeOf(tk.right), TreeOf(tk.next))
  }

  // tty_keys_add1, giving what is to be kept where the tree was.
  method AddKey(tk: TtyKey?, s: Str, key: Key) returns (r: TtyKey)
    requires Linked(tk) && s != []
    modifies NodesOf(tk)
    ensures Linked(r) && r in r.nodes && TreeOf(r) == Add(old(TreeOf(tk)), s, key)
    ensures (tk != null ==> r == tk) && fresh(r.nodes - old(NodesOf(tk))) && old(NodesOf(tk)) <= r.nodes
    decreases |s|, NodesOf(tk), 1
  {
    if tk == null {
      r := new TtyKey(s[0]);
    } else {
      r := tk;
      Parts(r);
    }
    if s[0] == r.ch {
      if |s| == 1 {
        r.key := key;
      } else {
        AddNext(r, s, key);
      }
    } else if s[0] < r.ch {
      AddLeft(r, s, key);
    } else {
      AddRight(r, s, key);
    }
  }

  method AddNext(r: TtyKey, s: Str, key: Key)
    requires Apart(r) && Linked(r.left) && Linked(r.right) && Linked(r.next) && |s| > 1
    modifies r.nodes
    ensures Linked(r)
    ensures TreeOf(r) == Node(old(r.ch), old(r.key),
                              old(TreeOf(r.left)), old(TreeOf(r.right)), Add(old(TreeOf(r.next)), s[1..], key))
    ensures fresh(r.nodes - old(r.nodes)) && old(r.nodes) <= r.nodes
    decreases |s| - 1, NodesOf(r), 2
  {
    hide Linked, TreeOf, Add;
    ghost var apart := NodesOf(r.left) + NodesOf(r.right);
    var child := AddKey(r.next, s[1..], key);
    assert child.nodes !! apart && r !in NodesOf(child);
    r.next := child;
    r.nodes := r.nodes + child.nodes;
    Whole(r);
  }

  method AddLeft(r: TtyKey, s: Str, key: Key)
    requires Apart(r) && Linked(r.left) && Linked(r.right) && Linked(r.next) && s != []
    modifies r.nodes
    ensures Linked(r)
    ensures TreeOf(r) == Node(old(r.ch), old(r.key),
                              Add(old(TreeOf(r.left)), s, key), old(TreeOf(r.right)), old(TreeOf(r.next)))
    ensures fresh(r.nodes - old(r.nodes)) && old(r.nodes) <= r.nodes
    decreases |s|, NodesOf(r), 0
  {
    hide Linked, TreeOf, Add;
    ghost var apart := NodesOf(r.right) + NodesOf(r.next);
    var child := AddKey(r.left, s, key);
    assert child.nodes !! apart && r !in NodesOf(child);
    r.left := child;
    r.nodes := r.nodes + child.nodes;
    Whole(r);
  }

  method AddRight(r: TtyKey, s: Str, key: Key)
    requires Apart(r) && Linked(r.left) && Linked(r.right) && Linked(r.next) && s != []
    modifies r.nodes
    ensures Linked(r)
    ensures TreeOf(r) == Node(old(r.ch), old(r.key),
                              old(TreeOf(r.left)), Add(old(TreeOf(r.right)), s, key), old(TreeOf(r.next)))
    ensures fresh(r.nodes - old(r.nodes)) && old(r.nodes) <= r.nodes
    decreases |s|, NodesOf(r), 0
  {
    hide Linked, TreeOf, Add;
    ghost var apart := NodesOf(r.left) + NodesOf(r.next);
    var child := AddKey(r.right, s, key);
    assert child.nodes !! apart && r !in NodesOf(child);
    r.right := child;
    r.nodes := r.nodes + child.nodes;
    Whole(r);
  }

  // tty_keys_find1: the node, or null, and the count of chars matched.
  method FindKey(tk: TtyKey?, buf: Str, size: nat) returns (r: TtyKey?, matched: nat)
    requires Linked(tk) && buf != []
    ensures match Find(TreeOf(tk), buf)
            case Missing => r == null
            case Match(key, n) => r != null && r in NodesOf(tk) && r.key == key && matched == size + n
    decreases NodesOf(tk)
  {
    if tk == null {
      return null, size;
    }
    Parts(tk);
    assert TreeOf(tk.next) == Nil <==> tk.next == null;
    if tk.ch == buf[0] {
      if |buf| == 1 || (tk.next == null && tk.key != NONE) {
        return tk, size + 1;
      }
      r, matched := FindKey(tk.next, buf[1..], size + 1);
    } else if buf[0] < tk.ch {
      r, matched := FindKey(tk.left, buf, size);
    } else {
      r, matched := FindKey(tk.right, buf, size);
    }
  }
}
