/**
 * First-match search and first-match editing over a forest.
 *
 * Every lookup of the source (`findNodeById`, `findParentNode`, the widget's
 * own lookups) walks the forest depth-first and returns the first node in
 * pre-order that satisfies a test; every mutator then changes that one node of
 * its clone. `FindFirst` and `EditFirst` are those two walks, once, for any test.
 */
module TreeSearch {
  import opened Wrappers
  import opened TreeNodes
  import opened TreeOutline

  /** `Array.prototype.findIndex`: the first position whose element passes `p`, or -1. */
  function FindIndex<T>(s: seq<T>, p: T -> bool): (k: int)
    ensures -1 <= k < |s|
    ensures k >= 0 ==> p(s[k]) && forall j :: 0 <= j < k ==> !p(s[j])
    ensures k == -1 <==> forall j :: 0 <= j < |s| ==> !p(s[j])
  {
    if s == [] then -1
    else if p(s[0]) then 0
    else
      var k := FindIndex(s[1..], p);
      if k < 0 then -1 else k + 1
  }

  /** The test `node.id === id`. */
  function IdIs(id: string): Node -> bool {
    (n: Node) => n.id == id
  }

  /** The test "one of the node's direct children has identifier `id`". */
  function HasKidWithId(id: string): Node -> bool {
    (n: Node) => FindIndex(Kids(n), IdIs(id)) >= 0
  }

  /** The first node of the forest, in pre-order, that passes `p`. */
  function FindFirst(t: Tree, p: Node -> bool): (r: Option<Node>)
    ensures r.Some? ==> p(r.value)
  {
    if t == [] then None
    else if p(t[0]) then Some(t[0])
    else
      match (match t[0].children case Present(c) => FindFirst(c, p) case Absent => None)
      case Some(m) => Some(m)
      case None => FindFirst(t[1..], p)
  }

  /**
   * The forest with the first node (in pre-order) that passes `p` replaced by
   * `f` of it; unchanged when no node passes.
   */
  function EditFirst(t: Tree, p: Node -> bool, f: Node -> Node): Tree {
    if t == [] then []
    else if p(t[0]) then [f(t[0])] + t[1..]
    else
      match t[0].children
      case Present(c) =>
        if FindFirst(c, p).Some? then [t[0].(children := Present(EditFirst(c, p, f)))] + t[1..]
        else [t[0]] + EditFirst(t[1..], p, f)
      case Absent => [t[0]] + EditFirst(t[1..], p, f)
  }

  lemma FindIndexAppend<T>(a: seq<T>, b: seq<T>, p: T -> bool)
    ensures FindIndex(a + b, p) ==
      if FindIndex(a, p) >= 0 then FindIndex(a, p)
      else if FindIndex(b, p) >= 0 then |a| + FindIndex(b, p)
      else -1
  {
    if FindIndex(a, p) >= 0 {
      var i := FindIndex(a, p);
      assert (a + b)[i] == a[i];
      forall j | 0 <= j < i ensures !p((a + b)[j]) {
        assert (a + b)[j] == a[j];
      }
    } else if FindIndex(b, p) >= 0 {
      assert (a + b)[|a| + FindIndex(b, p)] == b[FindIndex(b, p)];
      forall j | 0 <= j < |a| + FindIndex(b, p) ensures !p((a + b)[j]) {
        if j >= |a| {
          assert (a + b)[j] == b[j - |a|];
        }
      }
    } else {
      forall j | 0 <= j < |a + b| ensures !p((a + b)[j]) {
        if j >= |a| {
          assert (a + b)[j] == b[j - |a|];
        }
      }
    }
  }

  /** `FindFirst` is the first element of the pre-order listing that passes the test. */
  lemma {:induction false} FindFirstIsFirst(t: Tree, p: Node -> bool)
    ensures FindFirst(t, p) ==
      var k := FindIndex(Flatten(t), p); if k < 0 then None else Some(Flatten(t)[k])
  {
    if t != [] {
      assert t == [t[0]] + t[1..];
      FlattenCons(t[0], t[1..]);
      if t[0].children.Present? {
        FindFirstIsFirst(t[0].children.nodes, p);
      }
      FindFirstIsFirst(t[1..], p);
      FindIndexAppend([t[0]] + Flatten(Kids(t[0])), Flatten(t[1..]), p);
      FindIndexAppend([t[0]], Flatten(Kids(t[0])), p);
    }
  }

  /** Editing where no node passes the test changes nothing. */
  lemma {:induction false} EditFirstMissing(t: Tree, p: Node -> bool, f: Node -> Node)
    requires FindFirst(t, p).None?
    ensures EditFirst(t, p, f) == t
  {
    if t != [] {
      EditFirstMissing(t[1..], p, f);
    }
  }

  /**
   * Editing trades the identifiers of the found node's subtree for those of
   * its replacement, and leaves every other identifier in place.
   */
  lemma {:induction false} EditFirstBag(t: Tree, p: Node -> bool, f: Node -> Node, m: Node)
    requires FindFirst(t, p) == Some(m)
    ensures IdBag(EditFirst(t, p, f)) + IdBag([m]) == IdBag(t) + IdBag([f(m)])
  {
    var r := EditFirst(t, p, f);
    var rest := t[1..];
    assert t == [t[0]] + rest;
    if p(t[0]) {
      assert r == [f(t[0])] + rest;
      BagHere(t[0], f(t[0]), rest);
    } else if t[0].children.Present? && FindFirst(t[0].children.nodes, p).Some? {
      var c := t[0].children.nodes;
      var c' := EditFirst(c, p, f);
      assert r == [t[0].(children := Present(c'))] + rest;
      EditFirstBag(c, p, f, m);
      BagBelow(t[0], c', rest, IdBag([m]), IdBag([f(m)]));
    } else {
      var r' := EditFirst(rest, p, f);
      assert r == [t[0]] + r';
      EditFirstBag(rest, p, f, m);
      BagLater(t[0], r', rest, IdBag([m]), IdBag([f(m)]));
    }
  }

  /** Identifier bookkeeping when the edited node is the first root. */
  lemma BagHere(n: Node, n': Node, rest: Tree)
    ensures IdBag([n'] + rest) + IdBag([n]) == IdBag([n] + rest) + IdBag([n'])
  {
    IdBagAppend([n'], rest);
    IdBagAppend([n], rest);
    var a, b, c := IdBag([n']), IdBag(rest), IdBag([n]);
    forall e ensures ((a + b) + c)[e] == ((c + b) + a)[e] {
    }
  }

  /** Identifier bookkeeping when the edit happens among the first root's children. */
  lemma BagBelow(n: Node, c': Tree, rest: Tree, out: multiset<string>, into: multiset<string>)
    requires n.children.Present?
    requires IdBag(c') + out == IdBag(n.children.nodes) + into
    ensures IdBag([n.(children := Present(c'))] + rest) + out == IdBag([n] + rest) + into
  {
    var n' := n.(children := Present(c'));
    IdBagCons(n', rest);
    IdBagCons(n, rest);
    assert Kids(n') == c';
    var a, x, y, b := multiset{n.id}, IdBag(c'), IdBag(n.children.nodes), IdBag(rest);
    forall e ensures ((a + x + b) + out)[e] == ((a + y + b) + into)[e] {
      assert (x + out)[e] == (y + into)[e];
    }
  }

  /** Identifier bookkeeping when the edit happens after the first root. */
  lemma BagLater(n: Node, r': Tree, rest: Tree, out: multiset<string>, into: multiset<string>)
    requires IdBag(r') + out == IdBag(rest) + into
    ensures IdBag([n] + r') + out == IdBag([n] + rest) + into
  {
    IdBagAppend([n], r');
    IdBagAppend([n], rest);
    var a, x, y := IdBag([n]), IdBag(r'), IdBag(rest);
    forall e ensures ((a + x) + out)[e] == ((a + y) + into)[e] {
      assert (x + out)[e] == (y + into)[e];
    }
  }

  /** The replacement of the found node is in the edited forest. */
  lemma {:induction false} EditFirstHas(t: Tree, p: Node -> bool, f: Node -> Node, m: Node)
    requires FindFirst(t, p) == Some(m)
    ensures f(m) in Flatten(EditFirst(t, p, f))
  {
    assert t == [t[0]] + t[1..];
    var r := EditFirst(t, p, f);
    if p(t[0]) {
      FlattenCons(f(t[0]), t[1..]);
    } else if t[0].children.Present? && FindFirst(t[0].children.nodes, p).Some? {
      var c := t[0].children.nodes;
      var n' := t[0].(children := Present(EditFirst(c, p, f)));
      EditFirstHas(c, p, f, m);
      FlattenCons(n', t[1..]);
    } else {
      EditFirstHas(t[1..], p, f, m);
      FlattenCons(t[0], EditFirst(t[1..], p, f));
    }
  }

  /**
   * When the replacement keeps the identifier it was found by, looking that
   * identifier up in the edited forest finds the replacement.
   */
  lemma {:induction false} EditFirstFind(t: Tree, x: string, f: Node -> Node, m: Node)
    requires FindFirst(t, IdIs(x)) == Some(m) && f(m).id == x
    ensures FindFirst(EditFirst(t, IdIs(x), f), IdIs(x)) == Some(f(m))
  {
    var p := IdIs(x);
    var r := EditFirst(t, p, f);
    if p(t[0]) {
      assert r[0] == f(m);
    } else if t[0].children.Present? && FindFirst(t[0].children.nodes, p).Some? {
      var c := t[0].children.nodes;
      EditFirstFind(c, x, f, m);
      assert r[0] == t[0].(children := Present(EditFirst(c, p, f)));
      assert r[0].children.nodes == EditFirst(c, p, f);
    } else {
      EditFirstFind(t[1..], x, f, m);
      assert r == [t[0]] + EditFirst(t[1..], p, f);
      assert r[1..] == EditFirst(t[1..], p, f);
    }
  }

  lemma {:induction false} EditFirstLength(t: Tree, p: Node -> bool, f: Node -> Node)
    ensures |EditFirst(t, p, f)| == |t|
  {
    if t != [] {
      EditFirstLength(t[1..], p, f);
    }
  }

  /**
   * Editing again at the same identifier with an edit that leaves the first
   * edit's result as it is changes nothing more.
   */
  lemma {:induction false} EditFirstAgain(t: Tree, x: string, f: Node -> Node, g: Node -> Node, m: Node)
    requires FindFirst(t, IdIs(x)) == Some(m) && f(m).id == x && g(f(m)) == f(m)
    ensures EditFirst(EditFirst(t, IdIs(x), f), IdIs(x), g) == EditFirst(t, IdIs(x), f)
  {
    var p := IdIs(x);
    var r := EditFirst(t, p, f);
    if p(t[0]) {
      assert r == [f(m)] + t[1..];
      assert r[1..] == t[1..];
    } else if t[0].children.Present? && FindFirst(t[0].children.nodes, p).Some? {
      var c := t[0].children.nodes;
      EditFirstAgain(c, x, f, g, m);
      EditFirstFind(c, x, f, m);
      assert r[0] == t[0].(children := Present(EditFirst(c, p, f)));
      assert r[0].children.nodes == EditFirst(c, p, f);
      assert r[1..] == t[1..];
    } else {
      EditFirstAgain(t[1..], x, f, g, m);
      EditFirstFind(t[1..], x, f, m);
      assert r == [t[0]] + EditFirst(t[1..], p, f);
      assert r[1..] == EditFirst(t[1..], p, f);
    }
  }

  // ------------------------------------------------------------ frames

  /**
   * Where `FindFirst` finds its node in the pre-order listing, following the
   * same recursion; -1 when it finds none.
   */
  function FoundAt(t: Tree, p: Node -> bool): int {
    if t == [] then -1
    else if p(t[0]) then 0
    else
      match t[0].children
      case Present(c) =>
        if FindFirst(c, p).Some? then 1 + FoundAt(c, p) else FoundLater(t, p)
      case Absent => FoundLater(t, p)
  }

  function FoundLater(t: Tree, p: Node -> bool): int
    requires t != []
    decreases t, 0
  {
    var k := FoundAt(t[1..], p);
    if k >= 0 then 1 + |Flatten(Kids(t[0]))| + k else -1
  }

  /** That position is the first position of the listing that passes the test. */
  lemma {:induction false} FoundAtIndex(t: Tree, p: Node -> bool)
    ensures FoundAt(t, p) == FindIndex(Flatten(t), p)
  {
    if t != [] {
      var n := t[0];
      ListingParts(t);
      FindIndexAppend([n] + Flatten(Kids(n)), Flatten(t[1..]), p);
      FindIndexAppend([n], Flatten(Kids(n)), p);
      assert FindIndex([n], p) == if p(n) then 0 else -1;
      if n.children.Present? {
        FoundAtIndex(n.children.nodes, p);
        FindFirstIsFirst(n.children.nodes, p);
      }
      FoundAtIndex(t[1..], p);
    }
  }

  /**
   * The found node's subtree is one block of the pre-order listing, starting
   * where the node is listed.
   */
  lemma {:induction false} FoundBlock(t: Tree, p: Node -> bool, m: Node)
    requires FindFirst(t, p) == Some(m)
    ensures BlockAt(Flatten(t), FoundAt(t, p), Flatten([m]))
  {
    var n := t[0];
    if p(n) {
      HereBlock(t);
    } else if n.children.Present? && FindFirst(n.children.nodes, p).Some? {
      FoundBlock(n.children.nodes, p, m);
      BelowBlock(t, FoundAt(n.children.nodes, p), Flatten([m]));
    } else {
      FoundBlock(t[1..], p, m);
      LaterBlock(t, FoundAt(t[1..], p), Flatten([m]));
    }
  }

  /** The listing of a non-empty forest: its first root with what is below it, then the other roots'. */
  lemma ListingParts(t: Tree)
    requires t != []
    ensures Flatten(t) == ([t[0]] + Flatten(Kids(t[0]))) + Flatten(t[1..])
    ensures Flatten([t[0]]) == [t[0]] + Flatten(Kids(t[0]))
  {
    assert t == [t[0]] + t[1..];
    FlattenCons(t[0], t[1..]);
    FlattenCons(t[0], []);
    assert [t[0]] + [] == [t[0]];
  }

  /** The first root's subtree opens the listing. */
  lemma HereBlock(t: Tree)
    requires t != []
    ensures BlockAt(Flatten(t), 0, Flatten([t[0]]))
  {
    ListingParts(t);
    var a, c := Flatten([t[0]]), Flatten(t[1..]);
    BlockIn(a, c, 0, a);
  }

  /** A block of the first root's children's listing, shifted past the first root. */
  lemma BelowBlock(t: Tree, j: int, blk: seq<Node>)
    requires t != [] && t[0].children.Present? && BlockAt(Flatten(t[0].children.nodes), j, blk)
    ensures BlockAt(Flatten(t), 1 + j, blk)
  {
    ListingParts(t);
    assert Kids(t[0]) == t[0].children.nodes;
    BlockShift(Flatten(t), [t[0]], Flatten(Kids(t[0])), Flatten(t[1..]), j, blk);
  }

  /** A block of the other roots' listing, shifted past the first root's subtree. */
  lemma LaterBlock(t: Tree, j: int, blk: seq<Node>)
    requires t != [] && BlockAt(Flatten(t[1..]), j, blk)
    ensures BlockAt(Flatten(t), 1 + |Flatten(Kids(t[0]))| + j, blk)
  {
    ListingParts(t);
    BlockShift(Flatten(t), [t[0]] + Flatten(Kids(t[0])), Flatten(t[1..]), [], j, blk);
  }

  /** A block of `b` is a block of `x + b + c`, shifted past `x`. */
  lemma BlockShift(s: seq<Node>, x: seq<Node>, b: seq<Node>, c: seq<Node>, j: int, blk: seq<Node>)
    requires s == x + b + c || (c == [] && s == x + b)
    requires BlockAt(b, j, blk)
    ensures BlockAt(s, |x| + j, blk)
  {
    assert (x + b + c)[|x| + j..|x| + j + |blk|] == b[j..j + |blk|];
    assert x + b + [] == x + b;
  }

  lemma BlockIn(b: seq<Node>, c: seq<Node>, j: int, blk: seq<Node>)
    requires BlockAt(b, j, blk)
    ensures BlockAt(b + c, j, blk)
  {
    assert (b + c)[j..j + |blk|] == b[j..j + |blk|];
  }

  /**
   * Editing changes one block of the forest's pre-order listing of outlines:
   * the found node's subtree becomes its replacement's, at the position where
   * the listing first passes the test, and every other node keeps its own
   * fields, its number of children and its place.
   */
  lemma EditFirstFrame(t: Tree, p: Node -> bool, f: Node -> Node, m: Node)
    requires FindFirst(t, p) == Some(m)
    ensures BlockAt(Flatten(t), FindIndex(Flatten(t), p), Flatten([m]))
    ensures Outlines(Flatten(EditFirst(t, p, f))) ==
      Spliced(Flatten(t), FindIndex(Flatten(t), p), |Flatten([m])|, Outlines(Flatten([f(m)])))
  {
    EditFrameAt(t, p, f, m);
    FoundAtIndex(t, p);
  }

  lemma {:induction false} EditFrameAt(t: Tree, p: Node -> bool, f: Node -> Node, m: Node)
    requires FindFirst(t, p) == Some(m)
    ensures BlockAt(Flatten(t), FoundAt(t, p), Flatten([m]))
    ensures Outlines(Flatten(EditFirst(t, p, f))) ==
      Spliced(Flatten(t), FoundAt(t, p), |Flatten([m])|, Outlines(Flatten([f(m)])))
  {
    FoundBlock(t, p, m);
    var n := t[0];
    if p(n) {
      assert m == n && FoundAt(t, p) == 0;
      EditHere(t, p, f);
      assert Outlines(Flatten(EditFirst(t, p, f))) == Spliced(Flatten(t), FoundAt(t, p), |Flatten([m])|, Outlines(Flatten([f(m)])));
    } else if n.children.Present? && FindFirst(n.children.nodes, p).Some? {
      var c := n.children.nodes;
      EditFrameAt(c, p, f, m);
      assert FoundAt(t, p) == 1 + FoundAt(c, p);
      EditBelow(t, p, f, FoundAt(t, p), FoundAt(c, p), Flatten([m]), Outlines(Flatten([f(m)])));
      assert Outlines(Flatten(EditFirst(t, p, f))) == Spliced(Flatten(t), FoundAt(t, p), |Flatten([m])|, Outlines(Flatten([f(m)])));
    } else {
      EditFrameAt(t[1..], p, f, m);
      assert FoundAt(t, p) == 1 + |Flatten(Kids(n))| + FoundAt(t[1..], p);
      EditLater(t, p, f, FoundAt(t, p), FoundAt(t[1..], p), Flatten([m]), Outlines(Flatten([f(m)])));
      assert Outlines(Flatten(EditFirst(t, p, f))) == Spliced(Flatten(t), FoundAt(t, p), |Flatten([m])|, Outlines(Flatten([f(m)])));
    }
  }

  lemma EditHere(t: Tree, p: Node -> bool, f: Node -> Node)
    requires t != [] && p(t[0])
    requires BlockAt(Flatten(t), 0, Flatten([t[0]]))
    ensures Outlines(Flatten(EditFirst(t, p, f))) ==
      Spliced(Flatten(t), 0, |Flatten([t[0]])|, Outlines(Flatten([f(t[0])])))
  {
    var m, rest := t[0], t[1..];
    ListingParts(t);
    assert EditFirst(t, p, f) == [f(m)] + rest;
    FlattenAppend([f(m)], rest);
    FrameFront(Flatten(t), Flatten(EditFirst(t, p, f)), Flatten([m]), Flatten([f(m)]), Flatten(rest));
  }

  lemma EditBelow(t: Tree, p: Node -> bool, f: Node -> Node, k: int, j: int, blk: seq<Node>, mid: seq<(Node, int)>)
    requires t != [] && !p(t[0]) && k == 1 + j && t[0].children.Present? && FindFirst(t[0].children.nodes, p).Some?
    requires BlockAt(Flatten(t[0].children.nodes), j, blk)
    requires Outlines(Flatten(EditFirst(t[0].children.nodes, p, f))) == Spliced(Flatten(t[0].children.nodes), j, |blk|, mid)
    ensures 0 <= k && k + |blk| <= |Flatten(t)|
    ensures Outlines(Flatten(EditFirst(t, p, f))) == Spliced(Flatten(t), k, |blk|, mid)
  {
    var n, ch := t[0], t[0].children.nodes;
    var c' := EditFirst(ch, p, f);
    EditFirstLength(ch, p, f);
    var n' := n.(children := Present(c'));
    assert Outlines([n']) == Outlines([n]);
    assert EditFirst(t, p, f) == [n'] + t[1..];
    FlattenCons(n', t[1..]);
    ListingParts(t);
    assert Kids(n) == ch && Kids(n') == c';
    FrameShift(Flatten(t), Flatten(EditFirst(t, p, f)), [n], [n'], Flatten(ch), Flatten(c'), Flatten(t[1..]),
      k, j, |blk|, mid);
  }

  lemma EditLater(t: Tree, p: Node -> bool, f: Node -> Node, k: int, j: int, blk: seq<Node>, mid: seq<(Node, int)>)
    requires t != [] && !p(t[0]) && k == 1 + |Flatten(Kids(t[0]))| + j
    requires !(t[0].children.Present? && FindFirst(t[0].children.nodes, p).Some?)
    requires BlockAt(Flatten(t[1..]), j, blk)
    requires Outlines(Flatten(EditFirst(t[1..], p, f))) == Spliced(Flatten(t[1..]), j, |blk|, mid)
    ensures 0 <= k && k + |blk| <= |Flatten(t)|
    ensures Outlines(Flatten(EditFirst(t, p, f))) == Spliced(Flatten(t), k, |blk|, mid)
  {
    var n := t[0];
    var a, r := [n] + Flatten(Kids(n)), EditFirst(t[1..], p, f);
    assert Flatten(EditFirst(t, p, f)) == a + Flatten(r) by {
      assert EditFirst(t, p, f) == [n] + r;
      FlattenCons(n, r);
    }
    assert Flatten(t) == a + Flatten(t[1..]) by {
      ListingParts(t);
    }
    FrameShiftEnd(Flatten(t), Flatten(EditFirst(t, p, f)), a, Flatten(t[1..]), Flatten(r), k, j, |blk|, mid);
  }
}
