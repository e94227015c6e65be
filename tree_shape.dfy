/**
 * Where a node sits in a forest, stated through the multisets of identifiers:
 * a subtree's identifiers are among the forest's, two different roots own
 * disjoint identifiers, and well-formedness (unique identifiers) is inherited
 * by every subtree.
 */
module TreeShape {
  import opened TreeNodes

  /** The identifiers of one node: its own and those of its descendants. */
  lemma NodeBag(n: Node)
    ensures IdBag([n]) == multiset{n.id} + IdBag(Kids(n))
  {
    IdBagCons(n, []);
    assert [n] + [] == [n];
  }

  lemma BagSplit(t: Tree, i: nat)
    requires i < |t|
    ensures IdBag(t) == IdBag(t[..i]) + IdBag([t[i]]) + IdBag(t[i + 1..])
  {
    assert t == t[..i] + ([t[i]] + t[i + 1..]);
    IdBagAppend(t[..i], [t[i]] + t[i + 1..]);
    IdBagAppend([t[i]], t[i + 1..]);
  }

  /** The identifiers of a node's subtree are among the identifiers of any forest listing it. */
  lemma {:induction false} SubtreeBag(t: Tree, n: Node)
    requires n in Flatten(t)
    ensures IdBag([n]) <= IdBag(t)
  {
    assert t == [t[0]] + t[1..];
    FlattenCons(t[0], t[1..]);
    IdBagCons(t[0], t[1..]);
    NodeBag(t[0]);
    if n == t[0] {
    } else if n in Flatten(Kids(t[0])) {
      SubtreeBag(t[0].children.nodes, n);
    } else {
      SubtreeBag(t[1..], n);
    }
  }

  /** Every listed node is a root or lies below one; `j` is that root's position. */
  lemma {:induction false} RootOf(t: Tree, n: Node) returns (j: nat)
    requires n in Flatten(t)
    ensures j < |t| && (n == t[j] || n in Flatten(Kids(t[j])))
  {
    assert t == [t[0]] + t[1..];
    FlattenCons(t[0], t[1..]);
    if n == t[0] || n in Flatten(Kids(t[0])) {
      j := 0;
    } else {
      var k := RootOf(t[1..], n);
      j := k + 1;
    }
  }

  /** Two different roots together own no more identifiers than the forest. */
  lemma TwoRoots(t: Tree, i: nat, j: nat)
    requires i < j < |t|
    ensures IdBag([t[i]]) + IdBag([t[j]]) <= IdBag(t)
  {
    BagSplit(t, j);
    assert t[..j][i] == t[i];
    FlattenMember(t[..j], i);
    SubtreeBag(t[..j], t[i]);
    SubBagSum(IdBag([t[i]]), IdBag(t[..j]), IdBag([t[j]]), IdBag(t[j + 1..]));
  }

  lemma SubBagSum(a: multiset<string>, b: multiset<string>, c: multiset<string>, d: multiset<string>)
    requires a <= b
    ensures a + c <= b + c + d
  {
    forall e ensures (a + c)[e] <= (b + c + d)[e] {
      assert a[e] <= b[e];
    }
  }

  /** In a well-formed forest two different roots share no identifier. */
  lemma RootsDisjoint(t: Tree, i: nat, j: nat, x: string)
    requires WellFormed(t) && i < |t| && j < |t| && i != j
    ensures !(x in IdBag([t[i]]) && x in IdBag([t[j]]))
  {
    WellFormedBag(t);
    if i < j {
      TwoRoots(t, i, j);
    } else {
      TwoRoots(t, j, i);
    }
    assert IdBag(t)[x] <= 1;
  }

  /**
   * Well-formedness is inherited: the subtree of a listed node has unique
   * identifiers, and the node's own identifier does not recur below it.
   */
  lemma WellFormedBelow(t: Tree, n: Node)
    requires WellFormed(t) && n in Flatten(t)
    ensures WellFormed([n]) && WellFormed(Kids(n))
    ensures n.id !in IdBag(Kids(n))
  {
    WellFormedBag(t);
    SubtreeBag(t, n);
    NodeBag(n);
    forall x ensures IdBag([n])[x] <= 1 && IdBag(Kids(n))[x] <= 1 {
      assert IdBag(t)[x] <= 1;
    }
    WellFormedBag([n]);
    WellFormedBag(Kids(n));
    assert IdBag([n])[n.id] == 1 + IdBag(Kids(n))[n.id];
  }

  /** A listed node's identifier is among the forest's identifiers. */
  lemma ListedId(t: Tree, n: Node)
    requires n in Flatten(t)
    ensures n.id in IdBag(t)
  {
    SubtreeBag(t, n);
    NodeBag(n);
  }

  /**
   * In a well-formed forest no root identifier recurs below any listed node:
   * a root is nobody's descendant.
   */
  lemma RootNotBelow(t: Tree, i: nat, n: Node)
    requires WellFormed(t) && i < |t| && n in Flatten(t)
    ensures t[i].id !in IdBag(Kids(n))
  {
    var x := t[i].id;
    if x in IdBag(Kids(n)) {
      var j := RootOf(t, n);
      assert x in IdBag(Kids(t[j])) by {
        if n != t[j] {
          SubtreeBag(Kids(t[j]), n);
          NodeBag(n);
        }
      }
      if j == i {
        FlattenMember(t, i);
        WellFormedBelow(t, t[i]);
      } else {
        NodeBag(t[i]);
        NodeBag(t[j]);
        RootsDisjoint(t, i, j, x);
      }
    }
  }
}
