/**
 * Tree nodes and forests as values, the pre-order listing of a forest, and the
 * identifier bookkeeping (uniqueness, multisets of identifiers) that the other
 * modules are specified against.
 */
module TreeNodes {

  /** A node's `children` attribute: missing altogether, or an array that may be empty. */
  datatype ChildList = Absent | Present(nodes: seq<Node>)

  /**
   * A node: its identifier, display name, `type` (`"folder"`, `"file"`, ...),
   * any other string-valued attributes, and its `children` attribute.
   */
  datatype Node = Node(id: string, name: string, kind: string, attrs: map<string, string>, children: ChildList)

  /** A forest: the ordered sequence of root nodes. */
  type Tree = seq<Node>

  const FolderKind: string := "folder"

  predicate IsFolder(n: Node) {
    n.kind == FolderKind
  }

  /** The children of `n`, the empty sequence when the attribute is missing. */
  function Kids(n: Node): seq<Node> {
    if n.children.Present? then n.children.nodes else []
  }

  /** The source's `node.children && node.children.length > 0`. */
  predicate HasChildren(n: Node) {
    |Kids(n)| > 0
  }

  /** `node[property]`, with a missing attribute read as the empty string. */
  function Prop(n: Node, property: string): string {
    if property == "id" then n.id
    else if property == "name" then n.name
    else if property == "type" then n.kind
    else if property in n.attrs then n.attrs[property]
    else ""
  }

  /** Every node of the forest in depth-first pre-order. */
  function Flatten(t: Tree): seq<Node> {
    if t == [] then []
    else
      [t[0]] + (match t[0].children case Present(c) => Flatten(c) case Absent => []) + Flatten(t[1..])
  }

  /** The identifiers of a sequence of nodes, position by position. */
  function IdsOf(s: seq<Node>): (r: seq<string>)
    ensures |r| == |s|
    ensures forall i :: 0 <= i < |s| ==> r[i] == s[i].id
  {
    if s == [] then [] else [s[0].id] + IdsOf(s[1..])
  }

  /** The identifiers of every node of the forest, in pre-order. */
  function Ids(t: Tree): seq<string> {
    IdsOf(Flatten(t))
  }

  /** The multiset of all identifiers of the forest. */
  function IdBag(t: Tree): multiset<string> {
    multiset(Ids(t))
  }

  /** All identifiers of the forest, as a set. */
  ghost function IdSet(t: Tree): set<string> {
    set n | n in Flatten(t) :: n.id
  }

  predicate Unique(s: seq<string>) {
    forall i, j :: 0 <= i < j < |s| ==> s[i] != s[j]
  }

  /** Identifiers are unique across the whole forest. */
  predicate WellFormed(t: Tree) {
    Unique(Ids(t))
  }

  lemma FlattenCons(n: Node, rest: Tree)
    ensures Flatten([n] + rest) == [n] + Flatten(Kids(n)) + Flatten(rest)
  {
    assert ([n] + rest)[0] == n;
    assert ([n] + rest)[1..] == rest;
  }

  lemma AppendAssoc<T>(x: seq<T>, y: seq<T>, z: seq<T>)
    ensures x + (y + z) == x + y + z
  {
  }

  /** The listing of a forest with one root `x` between `a` and `b`. */
  lemma FlattenSplit(a: Tree, x: Node, b: Tree)
    ensures Flatten(a + [x] + b) == Flatten(a) + Flatten([x]) + Flatten(b)
  {
    FlattenAppend(a + [x], b);
    FlattenAppend(a, [x]);
  }

  lemma {:induction false} FlattenAppend(a: Tree, b: Tree)
    ensures Flatten(a + b) == Flatten(a) + Flatten(b)
  {
    if a == [] {
      assert a + b == b;
    } else {
      var n, rest := a[0], a[1..];
      assert a + b == [n] + (rest + b);
      assert a == [n] + rest;
      FlattenCons(n, rest + b);
      FlattenCons(n, rest);
      FlattenAppend(rest, b);
      AppendAssoc([n] + Flatten(Kids(n)), Flatten(rest), Flatten(b));
    }
  }

  lemma {:induction false} IdsOfAppend(a: seq<Node>, b: seq<Node>)
    ensures IdsOf(a + b) == IdsOf(a) + IdsOf(b)
  {
  }

  lemma IdBagCons(n: Node, rest: Tree)
    ensures IdBag([n] + rest) == multiset{n.id} + IdBag(Kids(n)) + IdBag(rest)
  {
    FlattenCons(n, rest);
    IdsOfAppend([n] + Flatten(Kids(n)), Flatten(rest));
    IdsOfAppend([n], Flatten(Kids(n)));
  }

  lemma IdBagAppend(a: Tree, b: Tree)
    ensures IdBag(a + b) == IdBag(a) + IdBag(b)
  {
    FlattenAppend(a, b);
    IdsOfAppend(Flatten(a), Flatten(b));
  }

  /** A node of a forest is in its pre-order listing, and so is every node below it. */
  lemma {:induction false} FlattenMember(t: Tree, i: nat)
    requires i < |t|
    ensures t[i] in Flatten(t)
    ensures forall m :: m in Flatten(Kids(t[i])) ==> m in Flatten(t)
  {
    assert t == [t[0]] + t[1..];
    FlattenCons(t[0], t[1..]);
    if i > 0 {
      FlattenMember(t[1..], i - 1);
    }
  }

  /** Being below a node that is in the listing puts a node in the listing too. */
  lemma {:induction false} FlattenBelow(t: Tree, n: Node, m: Node)
    requires n in Flatten(t) && m in Flatten(Kids(n))
    ensures m in Flatten(t)
  {
    assert t != [];
    assert t == [t[0]] + t[1..];
    FlattenCons(t[0], t[1..]);
    if n == t[0] {
    } else if n in Flatten(Kids(t[0])) {
      FlattenBelow(Kids(t[0]), n, m);
    } else {
      FlattenBelow(t[1..], n, m);
    }
  }

  lemma IdsMember(t: Tree, x: string)
    ensures x in Ids(t) <==> exists n :: n in Flatten(t) && n.id == x
  {
    var s := Flatten(t);
    if x in Ids(t) {
      var i :| 0 <= i < |Ids(t)| && Ids(t)[i] == x;
      assert s[i] in s;
    }
  }

  lemma IdSetBag(t: Tree, x: string)
    ensures x in IdSet(t) <==> x in IdBag(t)
  {
    IdsMember(t, x);
    assert x in IdBag(t) <==> x in Ids(t);
  }

  lemma {:induction false} UniqueCount(s: seq<string>, x: string)
    requires Unique(s)
    ensures multiset(s)[x] <= 1
  {
    if s != [] {
      assert s == [s[0]] + s[1..];
      UniqueCount(s[1..], x);
      if s[0] == x {
        assert x !in s[1..];
      }
    }
  }

  lemma {:induction false} CountUnique(s: seq<string>)
    requires forall x :: multiset(s)[x] <= 1
    ensures Unique(s)
  {
    if s != [] {
      assert s == [s[0]] + s[1..];
      forall x ensures multiset(s[1..])[x] <= 1 {
        assert multiset(s)[x] == multiset{s[0]}[x] + multiset(s[1..])[x];
      }
      CountUnique(s[1..]);
      assert s[0] !in s[1..] by {
        assert multiset(s)[s[0]] == 1 + multiset(s[1..])[s[0]];
      }
      forall i, j | 0 <= i < j < |s| ensures s[i] != s[j] {
        if i == 0 {
          assert s[j] == s[1..][j - 1];
        } else {
          assert s[i] == s[1..][i - 1] && s[j] == s[1..][j - 1];
        }
      }
    }
  }

  /** Uniqueness, stated on the multiset of identifiers. */
  lemma WellFormedBag(t: Tree)
    ensures WellFormed(t) <==> forall x :: IdBag(t)[x] <= 1
  {
    if WellFormed(t) {
      forall x ensures IdBag(t)[x] <= 1 {
        UniqueCount(Ids(t), x);
      }
    }
    if forall x :: IdBag(t)[x] <= 1 {
      assert IdBag(t) == multiset(Ids(t));
      CountUnique(Ids(t));
    }
  }

  /** In a well-formed forest two listed nodes with the same identifier are the same node. */
  lemma SameIdSameNode(t: Tree, a: Node, b: Node)
    requires WellFormed(t)
    requires a in Flatten(t) && b in Flatten(t) && a.id == b.id
    ensures a == b
  {
    var s := Flatten(t);
    var i :| 0 <= i < |s| && s[i] == a;
    var j :| 0 <= j < |s| && s[j] == b;
    assert Ids(t)[i] == a.id && Ids(t)[j] == b.id;
    if i < j {
      assert false;
    } else if j < i {
      assert false;
    }
  }
}
