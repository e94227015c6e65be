/**
 * `removeNode`, `addNode` and `updateNode` of `TreeUtils`, and the detaching
 * step that `moveNode` shares with `removeNode`. Each source routine clones
 * its input and mutates the clone; here each is a function from the input
 * forest to the new one, so the input is never changed.
 */
module TreeEdit {
  import opened Wrappers
  import opened TreeNodes
  import opened TreeShape
  import opened TreeSearch
  import opened TreeLookup
  import opened TreeOutline

  /** `children.filter(child => child.id !== id)`. */
  function Without(s: seq<Node>, id: string): (r: seq<Node>)
    ensures |r| <= |s|
    ensures forall c :: c in r <==> c in s && c.id != id
  {
    if s == [] then []
    else (if s[0].id == id then [] else [s[0]]) + Without(s[1..], id)
  }

  /**
   * The parent's edit when a child is detached: the children without `id`;
   * `removeNode` deletes an array that became empty, `moveNode` keeps it.
   */
  function DropChild(id: string, deleteEmpty: bool): Node -> Node {
    (n: Node) =>
      var k := Without(Kids(n), id);
      n.(children := if deleteEmpty && |k| == 0 then Absent else Present(k))
  }

  /**
   * The source's detaching step: filter `id` out of the children of the node
   * `findParentNode` returns, or else splice the first root with that
   * identifier out of the root list.
   */
  function Detach(t: Tree, id: string, deleteEmpty: bool): Tree {
    match FindParentNode(t, id)
    case Some(_) => EditFirst(t, HasKidWithId(id), DropChild(id, deleteEmpty))
    case None =>
      var i := FindIndex(t, IdIs(id));
      if i < 0 then t else t[..i] + t[i + 1..]
  }

  /** `removeNode`: an empty identifier returns the input. */
  function RemoveNode(t: Tree, id: string): Tree {
    if id == "" then t else Detach(t, id, true)
  }

  /** No node carries an empty `children` array. */
  ghost predicate NoEmptyLists(t: Tree) {
    forall n :: n in Flatten(t) ==> n.children != Present([])
  }

  // ---------------------------------------------------------------- helpers

  /** A forest whose identifiers are among a well-formed forest's is well-formed. */
  lemma WellFormedSub(a: Tree, b: Tree)
    requires WellFormed(b) && IdBag(a) <= IdBag(b)
    ensures WellFormed(a)
  {
    WellFormedBag(b);
    forall x ensures IdBag(a)[x] <= 1 {
      assert IdBag(b)[x] <= 1;
    }
    WellFormedBag(a);
  }

  /** A node listed below a listed node's children is listed. */
  lemma ListedKid(t: Tree, n: Node, k: nat)
    requires n in Flatten(t) && k < |Kids(n)|
    ensures Kids(n)[k] in Flatten(t)
  {
    FlattenMember(Kids(n), k);
    FlattenBelow(t, n, Kids(n)[k]);
  }

  /** Every listed node that is not a root is a direct child of some listed node. */
  lemma {:induction false} ParentExists(t: Tree, n: Node) returns (p: Node)
    requires n in Flatten(t) && n !in t
    ensures p in Flatten(t) && n in Kids(p)
  {
    var j := RootOf(t, n);
    FlattenMember(t, j);
    assert t[j].children.Present?;
    var c := t[j].children.nodes;
    if n in c {
      p := t[j];
    } else {
      p := ParentExists(c, n);
      FlattenBelow(t, t[j], p);
    }
  }

  /** No identifier of an absent... node: filtering out an identifier no child has changes nothing. */
  lemma {:induction false} WithoutAbsent(s: seq<Node>, id: string)
    requires forall c :: c in s ==> c.id != id
    ensures Without(s, id) == s
  {
    if s != [] {
      WithoutAbsent(s[1..], id);
      assert s == [s[0]] + s[1..];
    }
  }

  /** In a well-formed forest no other root shares a root's identifier. */
  lemma OtherRootsDiffer(s: seq<Node>, k: nat)
    requires WellFormed(s) && k < |s|
    ensures forall j :: 0 <= j < |s| && j != k ==> s[j].id != s[k].id
  {
    forall j | 0 <= j < |s| && j != k ensures s[j].id != s[k].id {
      if s[j].id == s[k].id {
        NodeBag(s[k]);
        NodeBag(s[j]);
        RootsDisjoint(s, j, k, s[k].id);
      }
    }
  }

  /** The roots after the first of a well-formed forest form a well-formed forest. */
  lemma WellFormedTail(s: seq<Node>)
    requires WellFormed(s) && s != []
    ensures WellFormed(s[1..])
  {
    assert s == [s[0]] + s[1..];
    IdBagCons(s[0], s[1..]);
    WellFormedSub(s[1..], s);
  }

  /** In a well-formed forest filtering out a root's identifier removes exactly that root. */
  lemma {:induction false} WithoutOne(s: seq<Node>, id: string, k: nat)
    requires WellFormed(s) && k < |s| && s[k].id == id
    ensures Without(s, id) == s[..k] + s[k + 1..]
  {
    OtherRootsDiffer(s, k);
    if k == 0 {
      assert forall c :: c in s[1..] ==> c.id != id;
      WithoutAbsent(s[1..], id);
    } else {
      WellFormedTail(s);
      WithoutOne(s[1..], id, k - 1);
      assert Without(s, id) == [s[0]] + Without(s[1..], id);
      SliceCons(s, k);
    }
  }

  lemma SliceCons<T>(s: seq<T>, k: nat)
    requires 0 < k < |s|
    ensures s[..k] + s[k + 1..] == [s[0]] + (s[1..][..k - 1] + s[1..][k..])
  {
    assert s[1..][..k - 1] == s[1..k];
    assert s[..k] == [s[0]] + s[1..k];
    assert s[1..][k..] == s[k + 1..];
  }

  /** Identifier bookkeeping for the parent's edit: the dropped child's subtree leaves. */
  lemma DropChildBag(p: Node, id: string, deleteEmpty: bool, k: nat)
    requires WellFormed(Kids(p)) && k < |Kids(p)| && Kids(p)[k].id == id
    ensures IdBag([DropChild(id, deleteEmpty)(p)]) + IdBag([Kids(p)[k]]) == IdBag([p])
  {
    var s := Kids(p);
    var q := DropChild(id, deleteEmpty)(p);
    WithoutOne(s, id, k);
    assert Kids(q) == s[..k] + s[k + 1..];
    BagSplit(s, k);
    IdBagAppend(s[..k], s[k + 1..]);
    NodeBag(q);
    NodeBag(p);
    BagDrop(p.id, IdBag(s[..k]), IdBag([s[k]]), IdBag(s[k + 1..]), IdBag(Kids(q)), IdBag(s), IdBag([q]), IdBag([p]));
  }

  lemma BagDrop(x: string, a: multiset<string>, b: multiset<string>, c: multiset<string>,
                kq: multiset<string>, kp: multiset<string>, bq: multiset<string>, bp: multiset<string>)
    requires kp == a + b + c && kq == a + c && bq == multiset{x} + kq && bp == multiset{x} + kp
    ensures bq + b == bp
  {
    forall e ensures (bq + b)[e] == bp[e] {
    }
  }

  lemma BagCancel(d: multiset<string>, p: multiset<string>, t: multiset<string>, q: multiset<string>, s: multiset<string>)
    requires d + p == t + q && q + s == p
    ensures d + s == t
  {
    forall e ensures (d + s)[e] == t[e] {
      assert (d + p)[e] == (t + q)[e];
      assert (q + s)[e] == p[e];
    }
  }

  // ---------------------------------------------------------------- detaching

  /** Detaching an identifier the forest does not have changes nothing. */
  lemma DetachAbsent(t: Tree, id: string, deleteEmpty: bool)
    requires id !in Ids(t)
    ensures Detach(t, id, deleteEmpty) == t
  {
    IdsMember(t, id);
    forall n | n in Flatten(t) ensures id !in IdsOf(Kids(n)) {
      if id in IdsOf(Kids(n)) {
        var k :| 0 <= k < |Kids(n)| && IdsOf(Kids(n))[k] == id;
        ListedKid(t, n, k);
      }
    }
    forall j | 0 <= j < |t| ensures !IdIs(id)(t[j]) {
      FlattenMember(t, j);
    }
  }

  /**
   * In a well-formed forest detaching a present identifier removes exactly
   * the subtree of the node `findNodeById` returns.
   */
  lemma DetachBag(t: Tree, id: string, deleteEmpty: bool, s: Node)
    requires WellFormed(t) && FindNodeById(t, id) == Some(s)
    ensures IdBag(Detach(t, id, deleteEmpty)) + IdBag([s]) == IdBag(t)
  {
    if FindParentNode(t, id).Some? {
      DetachFromParent(t, id, deleteEmpty, s, FindParentNode(t, id).value);
    } else {
      DetachRoot(t, id, deleteEmpty, s);
    }
  }

  lemma DetachRoot(t: Tree, id: string, deleteEmpty: bool, s: Node)
    requires WellFormed(t) && FindNodeById(t, id) == Some(s) && FindParentNode(t, id).None?
    ensures IdBag(Detach(t, id, deleteEmpty)) + IdBag([s]) == IdBag(t)
  {
    var i := SourceRootIndex(t, id, s);
    assert Detach(t, id, deleteEmpty) == t[..i] + t[i + 1..];
    SpliceBag(t, i);
  }

  lemma DetachFromParent(t: Tree, id: string, deleteEmpty: bool, s: Node, p: Node)
    requires WellFormed(t) && FindNodeById(t, id) == Some(s) && FindParentNode(t, id) == Some(p)
    ensures IdBag(EditFirst(t, HasKidWithId(id), DropChild(id, deleteEmpty))) + IdBag([s]) == IdBag(t)
  {
    var k :| 0 <= k < |Kids(p)| && IdsOf(Kids(p))[k] == id;
    ListedKid(t, p, k);
    SameIdSameNode(t, Kids(p)[k], s);
    WellFormedBelow(t, p);
    DropChildBag(p, id, deleteEmpty, k);
    var f := DropChild(id, deleteEmpty);
    EditFirstBag(t, HasKidWithId(id), f, p);
    BagCancel(IdBag(EditFirst(t, HasKidWithId(id), f)), IdBag([p]), IdBag(t), IdBag([f(p)]), IdBag([s]));
  }

  /**
   * The detaching step under a parent, in the pre-order listing: only that
   * parent's block changes, to the listing of the parent without the child.
   */
  lemma DetachParentFrame(t: Tree, id: string, deleteEmpty: bool, p: Node)
    requires FindParentNode(t, id) == Some(p)
    ensures BlockAt(Flatten(t), FindIndex(Flatten(t), HasKidWithId(id)), Flatten([p]))
    ensures Outlines(Flatten(Detach(t, id, deleteEmpty))) ==
      Spliced(Flatten(t), FindIndex(Flatten(t), HasKidWithId(id)), |Flatten([p])|,
        Outlines(Flatten([DropChild(id, deleteEmpty)(p)])))
  {
    EditFirstFrame(t, HasKidWithId(id), DropChild(id, deleteEmpty), p);
  }

  /**
   * The detaching step for a root at `i`: the root's subtree is cut out of
   * the pre-order listing and every other node stays, in its order.
   */
  lemma DetachRootFrame(t: Tree, id: string, deleteEmpty: bool, i: nat)
    requires FindParentNode(t, id).None? && FindIndex(t, IdIs(id)) == i
    ensures i < |t|
    ensures Flatten(t) == Flatten(t[..i]) + Flatten([t[i]]) + Flatten(t[i + 1..])
    ensures Flatten(Detach(t, id, deleteEmpty)) == Flatten(t[..i]) + Flatten(t[i + 1..])
  {
    var a, b := t[..i], t[i + 1..];
    DetachRootIs(t, id, deleteEmpty, i);
    SplitAt(t, i);
    FlattenSplit(a, t[i], b);
    FlattenAppend(a, b);
  }

  lemma DetachRootIs(t: Tree, id: string, deleteEmpty: bool, i: nat)
    requires FindParentNode(t, id).None? && FindIndex(t, IdIs(id)) == i
    ensures i < |t| && Detach(t, id, deleteEmpty) == t[..i] + t[i + 1..]
  {
  }

  /** In a well-formed forest a present node without a parent is a root, the first root with its identifier. */
  lemma SourceRootIndex(t: Tree, id: string, s: Node) returns (i: nat)
    requires WellFormed(t) && FindNodeById(t, id) == Some(s) && FindParentNode(t, id).None?
    ensures FindIndex(t, IdIs(id)) == i && i < |t| && t[i] == s
  {
    if s !in t {
      var p := ParentExists(t, s);
      KidId(p, s);
    }
    var j :| 0 <= j < |t| && t[j] == s;
    assert IdIs(id)(t[j]);
    i := FindIndex(t, IdIs(id));
    FlattenMember(t, i);
    SameIdSameNode(t, t[i], s);
  }

  lemma KidId(p: Node, c: Node)
    requires c in Kids(p)
    ensures c.id in IdsOf(Kids(p))
  {
    var k :| 0 <= k < |Kids(p)| && Kids(p)[k] == c;
    assert IdsOf(Kids(p))[k] == c.id;
  }

  /** Splicing a root out of the root list removes exactly that root's subtree. */
  lemma SpliceBag(t: Tree, i: nat)
    requires i < |t|
    ensures IdBag(t[..i] + t[i + 1..]) + IdBag([t[i]]) == IdBag(t)
  {
    BagSplit(t, i);
    IdBagAppend(t[..i], t[i + 1..]);
    var a, b, c := IdBag(t[..i]), IdBag([t[i]]), IdBag(t[i + 1..]);
    forall e ensures ((a + c) + b)[e] == (a + b + c)[e] {
    }
  }

  /** Removing a present identifier from a well-formed forest removes its subtree and keeps the forest well-formed. */
  lemma RemoveNodeBag(t: Tree, id: string, s: Node)
    requires WellFormed(t) && FindNodeById(t, id) == Some(s)
    ensures IdBag(RemoveNode(t, id)) + IdBag([s]) == IdBag(t)
    ensures WellFormed(RemoveNode(t, id)) && id !in Ids(RemoveNode(t, id))
  {
    var r := RemoveNode(t, id);
    DetachBag(t, id, true, s);
    WellFormedSub(r, t);
    WellFormedBag(t);
    NodeBag(s);
    assert IdBag(t)[id] <= 1;
    assert multiset(Ids(r))[id] == 0;
  }

  /** Removing an empty or absent identifier returns the forest unchanged. */
  lemma RemoveNodeAbsent(t: Tree, id: string)
    requires id == "" || id !in Ids(t)
    ensures RemoveNode(t, id) == t
  {
    if id != "" {
      DetachAbsent(t, id, true);
    }
  }

  // ---------------------------------------------------------------- empty child arrays

  /** A forest made of roots of another lists only nodes that the other lists. */
  lemma FlattenSubset(a: Tree, b: Tree)
    requires forall c :: c in a ==> c in b
    ensures forall x :: x in Flatten(a) ==> x in Flatten(b)
  {
    forall x | x in Flatten(a) ensures x in Flatten(b) {
      var j := RootOf(a, x);
      assert a[j] in a;
      var i :| 0 <= i < |b| && b[i] == a[j];
      FlattenMember(b, i);
    }
  }

  /** Everything listed below a listed node is listed. */
  lemma BelowListed(t: Tree, n: Node)
    requires n in Flatten(t)
    ensures forall x :: x in Flatten(Kids(n)) ==> x in Flatten(t)
  {
    forall x | x in Flatten(Kids(n)) ensures x in Flatten(t) {
      FlattenBelow(t, n, x);
    }
  }

  /** An edit whose result carries no empty array keeps a forest free of empty arrays. */
  lemma {:induction false} EditFirstNoEmpty(t: Tree, p: Node -> bool, f: Node -> Node, m: Node)
    requires FindFirst(t, p) == Some(m) && NoEmptyLists(t) && NoEmptyLists([f(m)])
    ensures NoEmptyLists(EditFirst(t, p, f))
  {
    var rest := t[1..];
    assert t == [t[0]] + rest;
    FlattenCons(t[0], rest);
    var r := EditFirst(t, p, f);
    if p(t[0]) {
      assert r == [f(m)] + rest;
      FlattenCons(f(m), rest);
      FlattenCons(f(m), []);
      assert [f(m)] + [] == [f(m)];
    } else if t[0].children.Present? && FindFirst(t[0].children.nodes, p).Some? {
      var c := t[0].children.nodes;
      EditFirstNoEmpty(c, p, f, m);
      EditFirstLength(c, p, f);
      var n' := t[0].(children := Present(EditFirst(c, p, f)));
      assert r == [n'] + rest;
      FlattenCons(n', rest);
    } else {
      EditFirstNoEmpty(rest, p, f, m);
      assert r == [t[0]] + EditFirst(rest, p, f);
      FlattenCons(t[0], EditFirst(rest, p, f));
    }
  }

  /** `removeNode` never leaves an empty `children` array behind, unlike `moveNode`. */
  lemma RemoveNodeNoEmpty(t: Tree, id: string)
    requires NoEmptyLists(t)
    ensures NoEmptyLists(RemoveNode(t, id))
  {
    if id != "" {
      match FindParentNode(t, id)
      case Some(p) => DropNoEmpty(t, id, p);
      case None =>
        var i := FindIndex(t, IdIs(id));
        if i >= 0 {
          assert RemoveNode(t, id) == t[..i] + t[i + 1..];
          FlattenSubset(t[..i] + t[i + 1..], t);
        }
    }
  }

  lemma DropNoEmpty(t: Tree, id: string, p: Node)
    requires NoEmptyLists(t) && FindParentNode(t, id) == Some(p)
    ensures NoEmptyLists(EditFirst(t, HasKidWithId(id), DropChild(id, true)))
  {
    var f := DropChild(id, true);
    BelowListed(t, p);
    FlattenSubset(Without(Kids(p), id), Kids(p));
    assert Kids(f(p)) == Without(Kids(p), id);
    FlattenCons(f(p), []);
    assert [f(p)] + [] == [f(p)];
    EditFirstNoEmpty(t, HasKidWithId(id), f, p);
  }

  /**
   * In a well-formed forest `removeNode` filters the identifier out of its
   * parent's children and deletes the array when nothing is left, whatever
   * the rest of the forest carries: the edited parent is the one node with
   * the parent's identifier, and `findNodeById` finds it.
   */
  lemma RemoveNodeParent(t: Tree, id: string, p: Node)
    requires WellFormed(t) && FindParentNode(t, id) == Some(p)
    ensures var k := Without(Kids(p), id);
      var p' := p.(children := if k == [] then Absent else Present(k));
      p' in Flatten(RemoveNode(t, id)) &&
      (forall n :: n in Flatten(RemoveNode(t, id)) && n.id == p.id ==> n == p') &&
      (p.id != "" ==> FindNodeById(RemoveNode(t, id), p.id) == Some(p'))
  {
    var r := RemoveNode(t, id);
    var f := DropChild(id, true);
    var j :| 0 <= j < |Kids(p)| && IdsOf(Kids(p))[j] == id;
    ListedKid(t, p, j);
    IdsMember(t, id);
    var s := FindNodeById(t, id).value;
    RemoveNodeBag(t, id, s);
    assert r == EditFirst(t, HasKidWithId(id), f);
    EditFirstHas(t, HasKidWithId(id), f, p);
    var p' := f(p);
    assert p'.id == p.id;
    forall n | n in Flatten(r) && n.id == p.id ensures n == p' {
      SameIdSameNode(r, n, p');
    }
    if p.id != "" {
      FindNodeUnique(r, p');
    }
  }

  // ---------------------------------------------------------------- adding

  /** The new node, given `freshId` (the source's `generateId()`) only when its identifier is empty. */
  function Stamped(node: Node, freshId: string): (r: Node)
    ensures r.id == if node.id == "" then freshId else node.id
    ensures r.(id := node.id) == node
  {
    if node.id == "" then node.(id := freshId) else node
  }

  /** The parent's edit: `children.push(node)`, creating the array when it is missing. */
  function AppendChild(x: Node): Node -> Node {
    (n: Node) => n.(children := Present(Kids(n) + [x]))
  }

  /**
   * `addNode`: the node goes last among the children of the node
   * `parentId` names, or last among the roots when `parentId` is empty or
   * names no node.
   */
  function AddNode(t: Tree, node: Node, parentId: string, freshId: string): Tree {
    var x := Stamped(node, freshId);
    if parentId == "" then t + [x]
    else
      match FindNodeById(t, parentId)
      case Some(_) => EditFirst(t, IdIs(parentId), AppendChild(x))
      case None => t + [x]
  }

  lemma AppendChildBag(p: Node, x: Node)
    ensures IdBag([AppendChild(x)(p)]) == IdBag([p]) + IdBag([x])
  {
    var q := AppendChild(x)(p);
    NodeBag(q);
    NodeBag(p);
    IdBagAppend(Kids(p), [x]);
    var a, b := IdBag(Kids(p)), IdBag([x]);
    forall e ensures (multiset{p.id} + (a + b))[e] == (multiset{p.id} + a + b)[e] {
    }
  }

  lemma BagAdd(r: multiset<string>, p: multiset<string>, t: multiset<string>, q: multiset<string>, x: multiset<string>)
    requires r + p == t + q && q == p + x
    ensures r == t + x
  {
    forall e ensures r[e] == (t + x)[e] {
      assert (r + p)[e] == (t + q)[e];
    }
  }

  /**
   * `addNode` adds exactly the new node's subtree: the identifiers grow by
   * its identifiers and the node count by its size (by one for a node
   * without children).
   */
  lemma AddNodeBag(t: Tree, node: Node, parentId: string, freshId: string)
    ensures IdBag(AddNode(t, node, parentId, freshId)) == IdBag(t) + IdBag([Stamped(node, freshId)])
    ensures |Flatten(AddNode(t, node, parentId, freshId))| == |Flatten(t)| + |Flatten([Stamped(node, freshId)])|
  {
    var x := Stamped(node, freshId);
    var r := AddNode(t, node, parentId, freshId);
    if parentId != "" && FindNodeById(t, parentId).Some? {
      var p := FindNodeById(t, parentId).value;
      EditFirstBag(t, IdIs(parentId), AppendChild(x), p);
      AppendChildBag(p, x);
      BagAdd(IdBag(r), IdBag([p]), IdBag(t), IdBag([AppendChild(x)(p)]), IdBag([x]));
    } else {
      IdBagAppend(t, [x]);
    }
    assert |IdBag(r)| == |IdBag(t)| + |IdBag([x])|;
  }

  /**
   * Where `addNode` puts the node: under the parent it names, as its last
   * child, or else at the end of the root list.
   */
  lemma AddNodePlacement(t: Tree, node: Node, parentId: string, freshId: string)
    ensures parentId == "" || FindNodeById(t, parentId).None? ==>
      AddNode(t, node, parentId, freshId) == t + [Stamped(node, freshId)]
    ensures parentId != "" && FindNodeById(t, parentId).Some? ==>
      var p := FindNodeById(t, parentId).value;
      FindNodeById(AddNode(t, node, parentId, freshId), parentId) ==
        Some(p.(children := Present(Kids(p) + [Stamped(node, freshId)])))
  {
    if parentId != "" && FindNodeById(t, parentId).Some? {
      EditFirstFind(t, parentId, AppendChild(Stamped(node, freshId)), FindNodeById(t, parentId).value);
    }
  }

  /**
   * Everything else about `addNode` under a parent: in the pre-order listing
   * only the parent's block changes, and within it the parent gains one
   * child count, its old descendants keep their outlines, and the new
   * subtree follows them.
   */
  lemma AddNodeFrame(t: Tree, node: Node, parentId: string, freshId: string, p: Node)
    requires parentId != "" && FindNodeById(t, parentId) == Some(p)
    ensures BlockAt(Flatten(t), FindIndex(Flatten(t), IdIs(parentId)), Flatten([p]))
    ensures Outlines(Flatten(AddNode(t, node, parentId, freshId))) ==
      Spliced(Flatten(t), FindIndex(Flatten(t), IdIs(parentId)), |Flatten([p])|,
        Outlines(Flatten([AppendChild(Stamped(node, freshId))(p)])))
    ensures Outlines(Flatten([AppendChild(Stamped(node, freshId))(p)])) ==
      [Outline(AppendChild(Stamped(node, freshId))(p))] + Outlines(Flatten(Kids(p))) +
      Outlines(Flatten([Stamped(node, freshId)]))
  {
    var x := Stamped(node, freshId);
    EditFirstFrame(t, IdIs(parentId), AppendChild(x), p);
    OwnListing(AppendChild(x)(p), Kids(p), [x]);
  }

  /** The listing of one node whose children are `a + b`, as outlines. */
  lemma OwnListing(q: Node, a: Tree, b: Tree)
    requires Kids(q) == a + b
    ensures Outlines(Flatten([q])) == [Outline(q)] + Outlines(Flatten(a)) + Outlines(Flatten(b))
  {
    ListingParts([q]);
    FlattenAppend(a, b);
    AppendAssoc([q], Flatten(a), Flatten(b));
    OutlinesCons(q, Flatten(a), Flatten(b));
  }

  /** Adding a well-formed subtree whose identifiers are new keeps the forest well-formed. */
  lemma AddNodeWellFormed(t: Tree, node: Node, parentId: string, freshId: string)
    requires WellFormed(t) && WellFormed([Stamped(node, freshId)])
    requires forall y :: y in IdBag([Stamped(node, freshId)]) ==> y !in IdBag(t)
    ensures WellFormed(AddNode(t, node, parentId, freshId))
  {
    var x := Stamped(node, freshId);
    AddNodeBag(t, node, parentId, freshId);
    WellFormedBag(t);
    WellFormedBag([x]);
    forall y ensures IdBag(AddNode(t, node, parentId, freshId))[y] <= 1 {
      assert IdBag(t)[y] <= 1 && IdBag([x])[y] <= 1;
    }
    WellFormedBag(AddNode(t, node, parentId, freshId));
  }

  // ---------------------------------------------------------------- updating

  /**
   * The `updates` object of `updateNode`: each field it carries, and the
   * extra attributes it sets.
   */
  datatype Updates = Updates(id: Option<string>, name: Option<string>, kind: Option<string>,
                             attrs: map<string, string>, children: Option<ChildList>)

  /** `Object.assign(node, updates)`: every carried field overrides, the rest stay. */
  function Assign(u: Updates): Node -> Node {
    (n: Node) => Node(
      if u.id.Some? then u.id.value else n.id,
      if u.name.Some? then u.name.value else n.name,
      if u.kind.Some? then u.kind.value else n.kind,
      n.attrs + u.attrs,
      if u.children.Some? then u.children.value else n.children)
  }

  /** `updateNode`: an empty or absent identifier returns the input. */
  function UpdateNode(t: Tree, id: string, u: Updates): Tree {
    if id == "" then t
    else
      match FindNodeById(t, id)
      case Some(_) => EditFirst(t, IdIs(id), Assign(u))
      case None => t
  }

  /** Applying the same updates twice is applying them once. */
  lemma AssignIdempotent(n: Node, u: Updates)
    ensures Assign(u)(Assign(u)(n)) == Assign(u)(n)
  {
    assert (n.attrs + u.attrs) + u.attrs == n.attrs + u.attrs;
  }

  /**
   * The node `updateNode` changes is the one `findNodeById` returns; when the
   * updates keep its identifier it is found again, updated.
   */
  lemma UpdateNodeFind(t: Tree, id: string, u: Updates)
    ensures id == "" || id !in Ids(t) ==> UpdateNode(t, id, u) == t
    ensures FindNodeById(t, id).Some? && (u.id.None? || u.id == Some(id)) ==>
      FindNodeById(UpdateNode(t, id, u), id) == Some(Assign(u)(FindNodeById(t, id).value))
  {
    if FindNodeById(t, id).Some? && (u.id.None? || u.id == Some(id)) {
      EditFirstFind(t, id, Assign(u), FindNodeById(t, id).value);
    }
  }

  /**
   * Everything else about `updateNode`: in the pre-order listing only the
   * updated node's block changes; updates that leave the children alone
   * change only that node's own outline.
   */
  lemma UpdateNodeFrame(t: Tree, id: string, u: Updates, m: Node)
    requires id != "" && FindNodeById(t, id) == Some(m)
    ensures BlockAt(Flatten(t), FindIndex(Flatten(t), IdIs(id)), Flatten([m]))
    ensures Outlines(Flatten(UpdateNode(t, id, u))) ==
      Spliced(Flatten(t), FindIndex(Flatten(t), IdIs(id)), |Flatten([m])|, Outlines(Flatten([Assign(u)(m)])))
    ensures u.children.None? ==>
      Outlines(Flatten([Assign(u)(m)])) == [Outline(Assign(u)(m))] + Outlines(Flatten(Kids(m)))
  {
    EditFirstFrame(t, IdIs(id), Assign(u), m);
    if u.children.None? {
      assert Kids(Assign(u)(m)) == Kids(m) + [];
      OwnListing(Assign(u)(m), Kids(m), []);
      assert Outlines(Flatten([])) == [];
    }
  }

  /** Updates that set neither the identifier nor the children keep every identifier. */
  lemma UpdateNodeBag(t: Tree, id: string, u: Updates)
    requires u.id.None? && u.children.None?
    ensures IdBag(UpdateNode(t, id, u)) == IdBag(t)
  {
    if id != "" && FindNodeById(t, id).Some? {
      var m := FindNodeById(t, id).value;
      EditFirstBag(t, IdIs(id), Assign(u), m);
      NodeBag(m);
      NodeBag(Assign(u)(m));
      BagAdd(IdBag(UpdateNode(t, id, u)), IdBag([m]), IdBag(t), IdBag([Assign(u)(m)]), multiset{});
    }
  }

  /** `updateNode` is idempotent when the updates keep the node's identifier. */
  lemma UpdateNodeIdempotent(t: Tree, id: string, u: Updates)
    requires u.id.None? || u.id == Some(id)
    ensures UpdateNode(UpdateNode(t, id, u), id, u) == UpdateNode(t, id, u)
  {
    if id != "" && FindNodeById(t, id).Some? {
      var m := FindNodeById(t, id).value;
      UpdateNodeFind(t, id, u);
      AssignIdempotent(m, u);
      EditFirstAgain(t, id, Assign(u), Assign(u), m);
    }
  }
}
