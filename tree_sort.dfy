/**
 * `sortTree` of `TreeUtils`: folders first, then by one property, ascending
 * or descending, level by level.
 *
 * `localeCompare` is not modelled: the property values are compared by a
 * caller-supplied relation `le` ("`x.localeCompare(y) <= 0`"), assumed to be
 * a total preorder. `Array.prototype.sort` is stable, so a sorted level is
 * characterised by three facts proved below: it is a permutation of the
 * input level, it is ordered, and nodes that compare equal keep their input
 * order. `SortLevel` is a stable insertion sort that meets all three.
 */
module TreeSort {
  import opened TreeNodes

  /** The sort request: the property, the direction, and the string comparison. */
  datatype Order = Order(property: string, ascending: bool, le: (string, string) -> bool)

  /** `le` is total and transitive. */
  ghost predicate TotalPreorder(le: (string, string) -> bool) {
    (forall x, y :: le(x, y) || le(y, x)) &&
    (forall x, y, z :: le(x, y) && le(y, z) ==> le(x, z))
  }

  /**
   * `sortFn(a, b) <= 0`: a folder before a non-folder, a non-folder never
   * before a folder, otherwise the property values (a missing one is `''`)
   * compared in the requested direction.
   */
  predicate Precedes(o: Order, a: Node, b: Node) {
    if IsFolder(a) && !IsFolder(b) then true
    else if !IsFolder(a) && IsFolder(b) then false
    else if o.ascending then o.le(Prop(a, o.property), Prop(b, o.property))
    else o.le(Prop(b, o.property), Prop(a, o.property))
  }

  /** Both nodes precede each other: `sortFn` returns 0 (as far as its sign goes). */
  predicate Tied(o: Order, a: Node, b: Node) {
    Precedes(o, a, b) && Precedes(o, b, a)
  }

  predicate Sorted(o: Order, s: seq<Node>) {
    forall i, j :: 0 <= i < j < |s| ==> Precedes(o, s[i], s[j])
  }

  /** The nodes of `s` tied with `x`, in their order in `s`. */
  function TiedWith(o: Order, s: seq<Node>, x: Node): seq<Node> {
    if s == [] then []
    else (if Tied(o, s[0], x) then [s[0]] else []) + TiedWith(o, s[1..], x)
  }

  /** `x` inserted before the first node it precedes. */
  function Insert(o: Order, x: Node, s: seq<Node>): seq<Node> {
    if s == [] || Precedes(o, x, s[0]) then [x] + s
    else [s[0]] + Insert(o, x, s[1..])
  }

  /** `newTree.sort(sortFn)` on one level. */
  function SortLevel(o: Order, s: seq<Node>): seq<Node> {
    if s == [] then [] else Insert(o, s[0], SortLevel(o, s[1..]))
  }

  /**
   * `sortTree(tree, property, ascending, recursive)`: a falsy property
   * returns the input; otherwise the level is sorted and, when `recursive`,
   * every non-empty child list is sorted the same way. The source sorts the
   * level first and the child lists after; the order of the level does not
   * depend on children, so sorting the child lists first gives the same forest.
   */
  function SortTree(t: Tree, o: Order, recursive: bool): Tree
    decreases t, 1
  {
    if o.property == "" then t
    else if recursive then SortLevel(o, SortEach(t, o))
    else SortLevel(o, t)
  }

  /** The loop over the sorted level, sorting each node's non-empty child list. */
  function SortEach(t: Tree, o: Order): (r: Tree)
    decreases t, 0
  {
    if t == [] then []
    else
      var n := t[0];
      var n' := if n.children.Present? && |n.children.nodes| > 0
        then n.(children := Present(SortTree(n.children.nodes, o, true))) else n;
      [n'] + SortEach(t[1..], o)
  }

  /** Every level of the forest is sorted. */
  ghost predicate SortedDeep(o: Order, t: Tree)
    decreases t
  {
    Sorted(o, t) &&
    forall i :: 0 <= i < |t| ==> t[i].children.Present? ==> SortedDeep(o, t[i].children.nodes)
  }

  // ------------------------------------------------------------ the order

  /** Under a total preorder on values, `Precedes` is itself a total preorder on nodes. */
  lemma PrecedesPreorder(o: Order)
    requires TotalPreorder(o.le)
    ensures forall a, b :: Precedes(o, a, b) || Precedes(o, b, a)
    ensures forall a, b, c :: Precedes(o, a, b) && Precedes(o, b, c) ==> Precedes(o, a, c)
  {
    forall a, b, c | Precedes(o, a, b) && Precedes(o, b, c) ensures Precedes(o, a, c) {
      var pa, pb, pc := Prop(a, o.property), Prop(b, o.property), Prop(c, o.property);
      if IsFolder(a) == IsFolder(b) == IsFolder(c) {
        if o.ascending {
          assert o.le(pa, pb) && o.le(pb, pc);
        } else {
          assert o.le(pc, pb) && o.le(pb, pa);
        }
      }
    }
    forall a, b ensures Precedes(o, a, b) || Precedes(o, b, a) {
      var pa, pb := Prop(a, o.property), Prop(b, o.property);
      assert o.le(pa, pb) || o.le(pb, pa);
    }
  }

  // ------------------------------------------------------------ insertion

  lemma {:induction false} InsertPermutes(o: Order, x: Node, s: seq<Node>)
    ensures multiset(Insert(o, x, s)) == multiset(s) + multiset{x}
  {
    if s != [] && !Precedes(o, x, s[0]) {
      InsertPermutes(o, x, s[1..]);
      assert s == [s[0]] + s[1..];
    }
  }

  lemma {:induction false} InsertSorted(o: Order, x: Node, s: seq<Node>)
    requires TotalPreorder(o.le) && Sorted(o, s)
    ensures Sorted(o, Insert(o, x, s))
  {
    if s == [] || Precedes(o, x, s[0]) {
      InsertFrontSorted(o, x, s);
    } else {
      InsertSorted(o, x, s[1..]);
      InsertPermutes(o, x, s[1..]);
      InsertLaterSorted(o, x, s);
    }
  }

  lemma InsertFrontSorted(o: Order, x: Node, s: seq<Node>)
    requires TotalPreorder(o.le) && Sorted(o, s) && (s == [] || Precedes(o, x, s[0]))
    ensures Sorted(o, [x] + s)
  {
    PrecedesPreorder(o);
    var r := [x] + s;
    forall i, j | 0 <= i < j < |r| ensures Precedes(o, r[i], r[j]) {
      if i > 0 {
        assert r[i] == s[i - 1] && r[j] == s[j - 1];
      } else if j > 1 {
        assert r[j] == s[j - 1];
        assert Precedes(o, s[0], s[j - 1]);
      }
    }
  }

  lemma InsertLaterSorted(o: Order, x: Node, s: seq<Node>)
    requires TotalPreorder(o.le) && Sorted(o, s) && s != [] && !Precedes(o, x, s[0])
    requires Sorted(o, Insert(o, x, s[1..]))
    requires multiset(Insert(o, x, s[1..])) == multiset(s[1..]) + multiset{x}
    ensures Sorted(o, Insert(o, x, s))
  {
    PrecedesPreorder(o);
    var r' := Insert(o, x, s[1..]);
    var r := [s[0]] + r';
    assert Insert(o, x, s) == r;
    forall i, j | 0 <= i < j < |r| ensures Precedes(o, r[i], r[j]) {
      if i > 0 {
        assert r[i] == r'[i - 1] && r[j] == r'[j - 1];
      } else {
        var y := r'[j - 1];
        assert y in multiset(r');
        if y != x {
          assert y in multiset(s[1..]);
          var k :| 0 <= k < |s[1..]| && s[1..][k] == y;
          assert Precedes(o, s[0], s[k + 1]);
        }
      }
    }
  }

  /**
   * Inserting into a sorted sequence adds `x` to the nodes tied with it in
   * front of those already there, and leaves every other tie class alone.
   */
  lemma {:induction false} InsertTies(o: Order, x: Node, s: seq<Node>, y: Node)
    requires TotalPreorder(o.le) && Sorted(o, s)
    ensures TiedWith(o, Insert(o, x, s), y) == (if Tied(o, x, y) then [x] else []) + TiedWith(o, s, y)
  {
    PrecedesPreorder(o);
    if s == [] || Precedes(o, x, s[0]) {
      assert ([x] + s)[1..] == s;
    } else {
      var r' := Insert(o, x, s[1..]);
      assert Insert(o, x, s)[1..] == r';
      assert s == [s[0]] + s[1..];
      InsertTies(o, x, s[1..], y);
      assert !(Tied(o, x, y) && Tied(o, s[0], y));
    }
  }

  // ------------------------------------------------------------ one level

  /** A sorted level is a permutation of the input level. */
  lemma {:induction false} SortLevelPermutes(o: Order, s: seq<Node>)
    ensures multiset(SortLevel(o, s)) == multiset(s)
  {
    if s != [] {
      SortLevelPermutes(o, s[1..]);
      InsertPermutes(o, s[0], SortLevel(o, s[1..]));
      assert s == [s[0]] + s[1..];
    }
  }

  /** A sorted level is ordered by `Precedes`. */
  lemma {:induction false} SortLevelSorted(o: Order, s: seq<Node>)
    requires TotalPreorder(o.le)
    ensures Sorted(o, SortLevel(o, s))
  {
    if s != [] {
      SortLevelSorted(o, s[1..]);
      InsertSorted(o, s[0], SortLevel(o, s[1..]));
    }
  }

  /** The sort is stable: nodes that compare equal keep their input order. */
  lemma {:induction false} SortLevelStable(o: Order, s: seq<Node>, y: Node)
    requires TotalPreorder(o.le)
    ensures TiedWith(o, SortLevel(o, s), y) == TiedWith(o, s, y)
  {
    if s != [] {
      SortLevelStable(o, s[1..], y);
      SortLevelSorted(o, s[1..]);
      InsertTies(o, s[0], SortLevel(o, s[1..]), y);
    }
  }

  /**
   * In a sorted level folders come first, in both directions; nodes of the
   * same kind are ordered by the property value, ascending or descending.
   */
  lemma SortLevelOrder(o: Order, s: seq<Node>, i: nat, j: nat)
    requires TotalPreorder(o.le) && i < j < |SortLevel(o, s)|
    ensures var r := SortLevel(o, s);
      (IsFolder(r[j]) ==> IsFolder(r[i])) &&
      (IsFolder(r[i]) == IsFolder(r[j]) ==>
        if o.ascending then o.le(Prop(r[i], o.property), Prop(r[j], o.property))
        else o.le(Prop(r[j], o.property), Prop(r[i], o.property)))
  {
    SortLevelSorted(o, s);
  }

  // ------------------------------------------------------------ the forest

  /** A falsy property returns the input, and without `recursive` only the top level moves. */
  lemma SortTreeShallow(t: Tree, o: Order)
    ensures o.property == "" ==> SortTree(t, o, true) == t
    ensures multiset(SortTree(t, o, false)) == multiset(t)
  {
    SortLevelPermutes(o, t);
  }

  /** Two forests with the same roots, in any order, own the same identifiers. */
  lemma {:induction false} PermutedBag(s: Tree, s': Tree)
    requires multiset(s) == multiset(s')
    ensures IdBag(s) == IdBag(s')
  {
    if s != [] {
      assert s == [s[0]] + s[1..];
      assert s[0] in multiset(s');
      var k :| 0 <= k < |s'| && s'[k] == s[0];
      var rest := s'[..k] + s'[k + 1..];
      TakeOut(s', k);
      assert multiset(s) == multiset(s[1..]) + multiset{s[0]};
      forall e ensures multiset(s[1..])[e] == multiset(rest)[e] {
        assert multiset(s)[e] == multiset(s')[e];
      }
      assert multiset(s[1..]) == multiset(rest);
      PermutedBag(s[1..], rest);
      BagTakeOut(s', k);
      IdBagAppend([s[0]], s[1..]);
    }
  }

  /** Taking one element out of a sequence takes it out of its multiset. */
  lemma TakeOut(s: Tree, k: nat)
    requires k < |s|
    ensures multiset(s) == multiset(s[..k] + s[k + 1..]) + multiset{s[k]}
  {
    assert s == s[..k] + [s[k]] + s[k + 1..];
  }

  /** Taking one root out of a forest takes its subtree's identifiers out. */
  lemma BagTakeOut(s: Tree, k: nat)
    requires k < |s|
    ensures IdBag(s) == IdBag(s[..k] + s[k + 1..]) + IdBag([s[k]])
  {
    assert s == s[..k] + [s[k]] + s[k + 1..];
    IdBagAppend(s[..k] + [s[k]], s[k + 1..]);
    IdBagAppend(s[..k], [s[k]]);
    IdBagAppend(s[..k], s[k + 1..]);
  }

  /** Sorting moves nodes and keeps every identifier of the forest. */
  lemma {:induction false} SortTreeBag(t: Tree, o: Order, recursive: bool)
    ensures IdBag(SortTree(t, o, recursive)) == IdBag(t)
    decreases t, 1
  {
    if o.property != "" {
      if recursive {
        SortEachBag(t, o);
        SortLevelPermutes(o, SortEach(t, o));
        PermutedBag(SortLevel(o, SortEach(t, o)), SortEach(t, o));
      } else {
        SortLevelPermutes(o, t);
        PermutedBag(SortLevel(o, t), t);
      }
    }
  }

  lemma {:induction false} SortEachBag(t: Tree, o: Order)
    ensures IdBag(SortEach(t, o)) == IdBag(t)
    decreases t, 0
  {
    if t != [] {
      var n := t[0];
      var n' := SortEach(t, o)[0];
      assert SortEach(t, o) == [n'] + SortEach(t[1..], o);
      assert t == [n] + t[1..];
      SortEachBag(t[1..], o);
      IdBagCons(n', SortEach(t[1..], o));
      IdBagCons(n, t[1..]);
      if n.children.Present? && |n.children.nodes| > 0 {
        SortTreeBag(n.children.nodes, o, true);
      }
    }
  }

  /** The recursive loop keeps every node's own fields and sorts every level below. */
  lemma {:induction false} SortEachSorted(t: Tree, o: Order)
    requires TotalPreorder(o.le) && o.property != ""
    ensures |SortEach(t, o)| == |t|
    ensures forall i :: 0 <= i < |t| ==> SortEach(t, o)[i].(children := t[i].children) == t[i]
    ensures forall i :: 0 <= i < |t| ==> SortEach(t, o)[i].children.Present? ==>
      SortedDeep(o, SortEach(t, o)[i].children.nodes)
    decreases t, 0
  {
    if t != [] {
      var r := SortEach(t, o);
      SortEachSorted(t[1..], o);
      assert r[1..] == SortEach(t[1..], o);
      var n := t[0];
      if n.children.Present? && |n.children.nodes| > 0 {
        SortTreeSorted(n.children.nodes, o);
      } else if n.children.Present? {
        assert SortedDeep(o, n.children.nodes);
      }
      forall i | 0 <= i < |t| ensures r[i].(children := t[i].children) == t[i] {
        if i > 0 {
          assert r[i] == SortEach(t[1..], o)[i - 1];
        }
      }
    }
  }

  /** With `recursive`, every level of the result is sorted. */
  lemma {:induction false} SortTreeSorted(t: Tree, o: Order)
    requires TotalPreorder(o.le) && o.property != ""
    ensures SortedDeep(o, SortTree(t, o, true))
    decreases t, 1
  {
    var e := SortEach(t, o);
    var r := SortLevel(o, e);
    SortEachSorted(t, o);
    SortLevelSorted(o, e);
    SortLevelPermutes(o, e);
    forall i | 0 <= i < |r| && r[i].children.Present? ensures SortedDeep(o, r[i].children.nodes) {
      assert r[i] in multiset(e);
      var k :| 0 <= k < |e| && e[k] == r[i];
    }
  }

  // ------------------------------------------------------------ the source's order

  /** The body of the loop over a sorted level: a non-empty child list sorted recursively. */
  function SortedKids(n: Node, o: Order): (r: Node)
    ensures r.(children := n.children) == n
  {
    if n.children.Present? && |n.children.nodes| > 0
    then n.(children := Present(SortTree(n.children.nodes, o, true))) else n
  }

  /** The loop replaces every node of the level by its `SortedKids`, in place. */
  lemma {:induction false} SortEachNodes(t: Tree, o: Order)
    ensures |SortEach(t, o)| == |t|
    ensures forall i :: 0 <= i < |t| ==> SortEach(t, o)[i] == SortedKids(t[i], o)
  {
    if t != [] {
      SortEachNodes(t[1..], o);
      var r := SortEach(t, o);
      assert r == [SortedKids(t[0], o)] + SortEach(t[1..], o);
      forall i | 0 < i < |t| ensures r[i] == SortedKids(t[i], o) {
        assert r[i] == SortEach(t[1..], o)[i - 1];
      }
    }
  }

  lemma SortEachCons(x: Node, s: seq<Node>, o: Order)
    ensures SortEach([x] + s, o) == [SortedKids(x, o)] + SortEach(s, o)
  {
    assert ([x] + s)[1..] == s;
  }

  /** Sorting child lists does not change where a node goes in its own level. */
  lemma {:induction false} InsertSortEach(o: Order, x: Node, s: seq<Node>)
    ensures SortEach(Insert(o, x, s), o) == Insert(o, SortedKids(x, o), SortEach(s, o))
  {
    var x' := SortedKids(x, o);
    if s == [] {
      SortEachCons(x, s, o);
    } else {
      var h, s1 := s[0], s[1..];
      assert s == [h] + s1;
      SortEachCons(h, s1, o);
      var s' := SortEach(s, o);
      assert s'[0] == SortedKids(h, o) && s'[1..] == SortEach(s1, o);
      SortedKidsPrecedes(o, x, h);
      if Precedes(o, x, h) {
        assert Insert(o, x, s) == [x] + s;
        SortEachCons(x, s, o);
      } else {
        var r := Insert(o, x, s1);
        assert Insert(o, x, s) == [h] + r;
        InsertSortEach(o, x, s1);
        SortEachCons(h, r, o);
      }
    }
  }

  lemma SortedKidsPrecedes(o: Order, a: Node, b: Node)
    ensures Precedes(o, SortedKids(a, o), SortedKids(b, o)) == Precedes(o, a, b)
  {
    var a', b' := SortedKids(a, o), SortedKids(b, o);
    assert a'.(children := a.children) == a && b'.(children := b.children) == b;
    assert Prop(a', o.property) == Prop(a, o.property) && IsFolder(a') == IsFolder(a);
    assert Prop(b', o.property) == Prop(b, o.property) && IsFolder(b') == IsFolder(b);
  }

  /**
   * Sorting the level after the child lists gives the forest the source
   * builds: the level sorted first, then every node's non-empty child list.
   */
  lemma {:induction false} SortLevelSortEach(o: Order, t: Tree)
    ensures SortLevel(o, SortEach(t, o)) == SortEach(SortLevel(o, t), o)
  {
    if t != [] {
      assert t == [t[0]] + t[1..];
      SortEachCons(t[0], t[1..], o);
      SortLevelSortEach(o, t[1..]);
      InsertSortEach(o, t[0], SortLevel(o, t[1..]));
    }
  }

  /**
   * The recursive sort, level by level: the roots are the input roots in the
   * order `SortLevel` gives them (a stable, ordered permutation), each with its
   * non-empty child list replaced by the recursive sort of that list.
   */
  lemma SortTreeRecursive(t: Tree, o: Order)
    requires o.property != ""
    ensures |SortTree(t, o, true)| == |SortLevel(o, t)| == |t|
    ensures forall i :: 0 <= i < |t| ==> SortTree(t, o, true)[i] == SortedKids(SortLevel(o, t)[i], o)
  {
    SortLevelSortEach(o, t);
    SortLevelPermutes(o, t);
    assert |multiset(SortLevel(o, t))| == |multiset(t)|;
    SortEachNodes(SortLevel(o, t), o);
  }
}
