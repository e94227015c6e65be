/**
 * `moveNode` of `TreeUtils`. The source detaches the moved node first and
 * only then looks the target up in what is left, so a target that is the
 * moved node itself or lies inside its subtree is no longer found, and the
 * moved subtree is simply gone from the result; the same happens for a
 * position the code does not place (`inside` on a non-folder, or any other
 * string). The lemmas below state both the placements and these losses.
 */
module TreeMove {
  import opened Wrappers
  import opened TreeNodes
  import opened TreeShape
  import opened TreeSearch
  import opened TreeLookup
  import opened TreeEdit
  import opened TreeOutline

  /** The target's edit for `inside`: `children.unshift(source)`, creating the array when missing. */
  function ChildFirst(x: Node): Node -> Node {
    (n: Node) => n.(children := Present([x] + Kids(n)))
  }

  /** `s` with `x` spliced in at position `j`. */
  function SpliceIn(s: seq<Node>, j: nat, x: Node): seq<Node>
    requires j <= |s|
  {
    s[..j] + [x] + s[j..]
  }

  /**
   * The parent's edit for `before`/`after`: splice `x` into the children at
   * the index of the child `id`, or one past it.
   */
  function BesideChild(x: Node, id: string, after: bool): Node -> Node {
    (n: Node) =>
      var i := FindIndex(Kids(n), IdIs(id));
      if i < 0 then n
      else n.(children := Present(SpliceIn(Kids(n), if after then i + 1 else i, x)))
  }

  /** The forest after the detaching step of `moveNode`. */
  function Detached(t: Tree, sourceId: string): Tree {
    Detach(t, sourceId, false)
  }

  /**
   * `moveNode`: detach the node `sourceId`, then place it relative to the
   * target.
   */
  function MoveNode(t: Tree, sourceId: string, targetId: string, position: string): Tree {
    if sourceId == "" || targetId == "" || position == "" then t
    else
      match FindNodeById(t, sourceId)
      case None => t
      case Some(s) => Place(Detached(t, sourceId), s, targetId, position)
  }

  /**
   * The second half of `moveNode`: put `s` `inside` the target (first child,
   * folders only) or `before`/`after` it among the target's siblings; an
   * absent target or a position that does not place leaves `d` as it is.
   */
  function Place(d: Tree, s: Node, targetId: string, position: string): Tree {
    match FindNodeById(d, targetId)
    case None => d
    case Some(g) =>
      if position == "inside" && IsFolder(g) then EditFirst(d, IdIs(targetId), ChildFirst(s))
      else if position == "before" || position == "after" then
        match FindParentNode(d, targetId)
        case Some(_) => EditFirst(d, HasKidWithId(targetId), BesideChild(s, targetId, position == "after"))
        case None => BesideRoot(d, s, targetId, position == "after")
      else d
  }

  /** The root branch of `before`/`after`: splice `s` in at the target root's index, or one past it. */
  function BesideRoot(d: Tree, s: Node, targetId: string, after: bool): Tree {
    var i := FindIndex(d, IdIs(targetId));
    if i < 0 then d else SpliceIn(d, if after then i + 1 else i, s)
  }

  /**
   * A move that can succeed: both nodes present and the target neither
   * the moved node nor inside its subtree.
   */
  ghost predicate LegalMove(t: Tree, sourceId: string, targetId: string) {
    sourceId != "" && targetId != "" && FindNodeById(t, sourceId).Some? &&
    targetId in Ids(t) && targetId !in IdBag([FindNodeById(t, sourceId).value])
  }

  /** A position `moveNode` places at, for the target it finds after detaching. */
  predicate Placed(position: string, target: Node) {
    position == "before" || position == "after" || (position == "inside" && IsFolder(target))
  }

  // ---------------------------------------------------------------- losses

  /** A falsy argument or an absent source leaves the forest as it is. */
  lemma MoveNodeNoSource(t: Tree, sourceId: string, targetId: string, position: string)
    requires sourceId == "" || targetId == "" || position == "" || sourceId !in Ids(t)
    ensures MoveNode(t, sourceId, targetId, position) == t
  {
  }

  /**
   * Once the source is found, a target that is not found after detaching, or
   * a position that does not place, yields the detached forest: in a
   * well-formed forest, the input minus the source's whole subtree.
   */
  lemma MoveNodeLoss(t: Tree, sourceId: string, targetId: string, position: string)
    requires sourceId != "" && targetId != "" && position != ""
    requires FindNodeById(t, sourceId).Some?
    requires FindNodeById(Detached(t, sourceId), targetId).None? ||
             !Placed(position, FindNodeById(Detached(t, sourceId), targetId).value)
    ensures MoveNode(t, sourceId, targetId, position) == Detached(t, sourceId)
    ensures WellFormed(t) ==>
      IdBag(MoveNode(t, sourceId, targetId, position)) + IdBag([FindNodeById(t, sourceId).value]) == IdBag(t)
  {
    if WellFormed(t) {
      DetachBag(t, sourceId, false, FindNodeById(t, sourceId).value);
    }
  }

  /**
   * In a well-formed forest, moving a node onto itself or onto any node of
   * its own subtree loses the subtree, whatever the position.
   */
  lemma MoveIntoOwnSubtree(t: Tree, sourceId: string, targetId: string, position: string)
    requires WellFormed(t) && sourceId != "" && targetId != "" && position != ""
    requires FindNodeById(t, sourceId).Some? && targetId in IdBag([FindNodeById(t, sourceId).value])
    ensures MoveNode(t, sourceId, targetId, position) == Detached(t, sourceId)
    ensures IdBag(MoveNode(t, sourceId, targetId, position)) + IdBag([FindNodeById(t, sourceId).value]) == IdBag(t)
    ensures targetId !in Ids(MoveNode(t, sourceId, targetId, position))
  {
    var s := FindNodeById(t, sourceId).value;
    var d := Detached(t, sourceId);
    DetachBag(t, sourceId, false, s);
    WellFormedBag(t);
    assert IdBag(t)[targetId] <= 1;
    assert IdBag(d)[targetId] == 0;
    assert multiset(Ids(d))[targetId] == 0;
    MoveNodeLoss(t, sourceId, targetId, position);
  }

  /** A move onto the moved node itself drops it. */
  lemma MoveOntoItself(t: Tree, id: string, position: string)
    requires WellFormed(t) && id != "" && position != "" && FindNodeById(t, id).Some?
    ensures id !in Ids(MoveNode(t, id, id, position))
    ensures IdBag(MoveNode(t, id, id, position)) + IdBag([FindNodeById(t, id).value]) == IdBag(t)
  {
    NodeBag(FindNodeById(t, id).value);
    MoveIntoOwnSubtree(t, id, id, position);
  }

  // ---------------------------------------------------------------- legal moves

  lemma SpliceInBag(s: seq<Node>, j: nat, x: Node)
    requires j <= |s|
    ensures IdBag(SpliceIn(s, j, x)) == IdBag(s) + IdBag([x])
  {
    assert s == s[..j] + s[j..];
    IdBagAppend(s[..j] + [x], s[j..]);
    IdBagAppend(s[..j], [x]);
    IdBagAppend(s[..j], s[j..]);
    BagSwap(IdBag(s[..j]), IdBag([x]), IdBag(s[j..]));
  }

  lemma BagSwap(a: multiset<string>, b: multiset<string>, c: multiset<string>)
    ensures a + b + c == a + c + b
  {
  }

  /** A node's identifiers after a subtree is added to its children. */
  lemma KidsGrowBag(p: Node, q: Node, x: Node)
    requires q.id == p.id && IdBag(Kids(q)) == IdBag(Kids(p)) + IdBag([x])
    ensures IdBag([q]) == IdBag([p]) + IdBag([x])
  {
    NodeBag(p);
    NodeBag(q);
    var a, b := IdBag(Kids(p)), IdBag([x]);
    forall e ensures (multiset{p.id} + (a + b))[e] == (multiset{p.id} + a + b)[e] {
    }
  }

  lemma ChildFirstBag(g: Node, x: Node)
    ensures IdBag([ChildFirst(x)(g)]) == IdBag([g]) + IdBag([x])
  {
    SpliceInBag(Kids(g), 0, x);
    assert Kids(ChildFirst(x)(g)) == SpliceIn(Kids(g), 0, x);
    KidsGrowBag(g, ChildFirst(x)(g), x);
  }

  lemma BesideChildBag(p: Node, x: Node, id: string, after: bool)
    requires FindIndex(Kids(p), IdIs(id)) >= 0
    ensures IdBag([BesideChild(x, id, after)(p)]) == IdBag([p]) + IdBag([x])
  {
    var i := FindIndex(Kids(p), IdIs(id));
    var j := if after then i + 1 else i;
    var q := BesideChild(x, id, after)(p);
    assert q == p.(children := Present(SpliceIn(Kids(p), j, x)));
    var k := SpliceIn(Kids(p), j, x);
    assert Kids(q) == k;
    SpliceInBag(Kids(p), j, x);
    assert IdBag(Kids(q)) == IdBag(Kids(p)) + IdBag([x]);
    KidsGrowBag(p, q, x);
  }

  /** In a well-formed forest a legal target survives the detaching step, which keeps the forest well-formed. */
  lemma LegalTargetFound(t: Tree, sourceId: string, targetId: string)
    requires WellFormed(t) && LegalMove(t, sourceId, targetId)
    ensures WellFormed(Detached(t, sourceId))
    ensures FindNodeById(Detached(t, sourceId), targetId).Some?
  {
    var s := FindNodeById(t, sourceId).value;
    var d := Detached(t, sourceId);
    DetachBag(t, sourceId, false, s);
    WellFormedSub(d, t);
    assert targetId in multiset(Ids(t));
    assert targetId in IdBag(d);
  }

  lemma PlaceInsideBag(d: Tree, s: Node, targetId: string, g: Node)
    requires FindNodeById(d, targetId) == Some(g)
    ensures IdBag(EditFirst(d, IdIs(targetId), ChildFirst(s))) == IdBag(d) + IdBag([s])
  {
    EditFirstBag(d, IdIs(targetId), ChildFirst(s), g);
    ChildFirstBag(g, s);
    BagAdd(IdBag(EditFirst(d, IdIs(targetId), ChildFirst(s))), IdBag([g]), IdBag(d), IdBag([ChildFirst(s)(g)]), IdBag([s]));
  }

  lemma PlaceBesideKidBag(d: Tree, s: Node, targetId: string, after: bool, p: Node)
    requires FindParentNode(d, targetId) == Some(p)
    ensures IdBag(EditFirst(d, HasKidWithId(targetId), BesideChild(s, targetId, after))) == IdBag(d) + IdBag([s])
  {
    KidWithId(targetId);
    var f := BesideChild(s, targetId, after);
    EditFirstBag(d, HasKidWithId(targetId), f, p);
    BesideChildBag(p, s, targetId, after);
    BagAdd(IdBag(EditFirst(d, HasKidWithId(targetId), f)), IdBag([p]), IdBag(d), IdBag([f(p)]), IdBag([s]));
  }

  lemma PlaceRootBag(d: Tree, s: Node, targetId: string, after: bool, g: Node)
    requires WellFormed(d) && FindNodeById(d, targetId) == Some(g) && FindParentNode(d, targetId).None?
    ensures var i := FindIndex(d, IdIs(targetId));
      i >= 0 && IdBag(SpliceIn(d, if after then i + 1 else i, s)) == IdBag(d) + IdBag([s])
  {
    var i := SourceRootIndex(d, targetId, g);
    RootSpliceBag(d, s, targetId, after, i);
  }

  lemma RootSpliceBag(d: Tree, s: Node, targetId: string, after: bool, i: nat)
    requires FindIndex(d, IdIs(targetId)) == i && i < |d|
    ensures var i := FindIndex(d, IdIs(targetId));
      i >= 0 && IdBag(SpliceIn(d, if after then i + 1 else i, s)) == IdBag(d) + IdBag([s])
  {
    SpliceInBag(d, if after then i + 1 else i, s);
  }

  /** In a well-formed forest a placing position adds exactly the placed subtree's identifiers. */
  lemma PlaceBag(d: Tree, s: Node, targetId: string, position: string)
    requires WellFormed(d) && FindNodeById(d, targetId).Some?
    requires Placed(position, FindNodeById(d, targetId).value)
    ensures IdBag(Place(d, s, targetId, position)) == IdBag(d) + IdBag([s])
  {
    var g := FindNodeById(d, targetId).value;
    var r := Place(d, s, targetId, position);
    if position == "inside" && IsFolder(g) {
      assert r == EditFirst(d, IdIs(targetId), ChildFirst(s));
      PlaceInsideBag(d, s, targetId, g);
    } else if FindParentNode(d, targetId).Some? {
      assert r == EditFirst(d, HasKidWithId(targetId), BesideChild(s, targetId, position == "after"));
      PlaceBesideKidBag(d, s, targetId, position == "after", FindParentNode(d, targetId).value);
    } else {
      PlaceRootBag(d, s, targetId, position == "after", g);
      var i := FindIndex(d, IdIs(targetId));
      assert r == SpliceIn(d, if position == "after" then i + 1 else i, s);
    }
  }

  /**
   * A legal move to a placing position keeps every identifier: the moved
   * subtree leaves its old place and arrives at the new one, and the forest
   * stays well-formed.
   */
  lemma MoveNodeBag(t: Tree, sourceId: string, targetId: string, position: string)
    requires WellFormed(t) && LegalMove(t, sourceId, targetId)
    requires FindNodeById(Detached(t, sourceId), targetId).Some? ==>
      Placed(position, FindNodeById(Detached(t, sourceId), targetId).value)
    ensures IdBag(MoveNode(t, sourceId, targetId, position)) == IdBag(t)
    ensures WellFormed(MoveNode(t, sourceId, targetId, position))
  {
    var s := FindNodeById(t, sourceId).value;
    var d := Detached(t, sourceId);
    var r := MoveNode(t, sourceId, targetId, position);
    DetachBag(t, sourceId, false, s);
    LegalTargetFound(t, sourceId, targetId);
    PlaceBag(d, s, targetId, position);
    assert r == Place(d, s, targetId, position);
    assert IdBag(r) == IdBag(d) + IdBag([s]);
    WellFormedSub(r, t);
  }

  // ---------------------------------------------------------------- where the node lands

  /**
   * The sibling list a node is in, as `moveNode` resolves it: the children of
   * the node `findParentNode` returns, or the root list.
   */
  function Siblings(t: Tree, id: string): seq<Node> {
    match FindParentNode(t, id)
    case Some(p) => Kids(p)
    case None => t
  }

  /** In a well-formed forest the first root with a root's identifier is that root. */
  lemma IndexOfRoot(s: seq<Node>, k: nat)
    requires WellFormed(s) && k < |s|
    ensures FindIndex(s, IdIs(s[k].id)) == k
  {
    OtherRootsDiffer(s, k);
    assert IdIs(s[k].id)(s[k]);
  }

  lemma SpliceInAt(s: seq<Node>, j: nat, x: Node, i: nat)
    requires j <= |s| && i < |s|
    ensures SpliceIn(s, j, x)[j] == x
    ensures SpliceIn(s, j, x)[if i < j then i else i + 1] == s[i]
  {
  }

  /**
   * A legal move `inside` a folder makes the moved node the folder's first
   * child: looking the target up in the result finds it with the moved node
   * in front of its children, and the moved node's parent is that target.
   */
  lemma MoveNodeInside(t: Tree, sourceId: string, targetId: string)
    requires WellFormed(t) && LegalMove(t, sourceId, targetId)
    requires FindNodeById(Detached(t, sourceId), targetId).Some?
    requires IsFolder(FindNodeById(Detached(t, sourceId), targetId).value)
    ensures var s := FindNodeById(t, sourceId).value;
      var g := FindNodeById(Detached(t, sourceId), targetId).value;
      var r := MoveNode(t, sourceId, targetId, "inside");
      FindNodeById(r, targetId) == Some(g.(children := Present([s] + Kids(g)))) &&
      FindParentNode(r, sourceId) == FindNodeById(r, targetId)
  {
    var s := FindNodeById(t, sourceId).value;
    var d := Detached(t, sourceId);
    var g := FindNodeById(d, targetId).value;
    var r := MoveNode(t, sourceId, targetId, "inside");
    assert r == EditFirst(d, IdIs(targetId), ChildFirst(s));
    EditFirstFind(d, targetId, ChildFirst(s), g);
    EditFirstHas(d, IdIs(targetId), ChildFirst(s), g);
    MoveNodeBag(t, sourceId, targetId, "inside");
    var g' := ChildFirst(s)(g);
    assert s in Kids(g');
    ParentUnique(r, g', s);
  }

  /** `moveNode` with a found source is `Place` on the detached forest. */
  lemma MoveIsPlace(t: Tree, sourceId: string, targetId: string, position: string, s: Node)
    requires sourceId != "" && targetId != "" && position != ""
    requires FindNodeById(t, sourceId) == Some(s)
    ensures MoveNode(t, sourceId, targetId, position) == Place(Detached(t, sourceId), s, targetId, position)
  {
  }

  lemma BesideRootAt(d: Tree, s: Node, targetId: string, after: bool, i: nat)
    requires FindIndex(d, IdIs(targetId)) == i && i < |d|
    ensures BesideRoot(d, s, targetId, after) == SpliceIn(d, if after then i + 1 else i, s)
  {
  }

  /** What `Place` builds for `before`/`after` when the target has a parent. */
  lemma PlaceUnderParent(d: Tree, s: Node, targetId: string, after: bool, g: Node, p: Node)
    requires FindNodeById(d, targetId) == Some(g) && FindParentNode(d, targetId) == Some(p)
    ensures Place(d, s, targetId, if after then "after" else "before") ==
      EditFirst(d, HasKidWithId(targetId), BesideChild(s, targetId, after))
  {
    var position := if after then "after" else "before";
    assert position != "inside" by {
      assert position[0] != "inside"[0];
    }
    assert (position == "after") == after by {
      assert "before"[0] != "after"[0];
    }
  }

  /** What `Place` builds for `before`/`after` when the target is the root at `i`. */
  lemma PlaceBesideRoot(d: Tree, s: Node, targetId: string, after: bool, g: Node)
    requires FindNodeById(d, targetId) == Some(g) && FindParentNode(d, targetId).None?
    ensures Place(d, s, targetId, if after then "after" else "before") == BesideRoot(d, s, targetId, after)
  {
    var position := if after then "after" else "before";
    assert position != "inside" by {
      assert position[0] != "inside"[0];
    }
    assert (position == "after") == after by {
      assert "before"[0] != "after"[0];
    }
  }

  /**
   * `inside`, in the pre-order listing: only the target folder's block
   * changes; the folder gains one child count and the moved subtree comes
   * right after it, before its old descendants.
   */
  lemma PlaceInsideFrame(d: Tree, s: Node, targetId: string, g: Node)
    requires FindNodeById(d, targetId) == Some(g) && IsFolder(g)
    ensures BlockAt(Flatten(d), FindIndex(Flatten(d), IdIs(targetId)), Flatten([g]))
    ensures Outlines(Flatten(Place(d, s, targetId, "inside"))) ==
      Spliced(Flatten(d), FindIndex(Flatten(d), IdIs(targetId)), |Flatten([g])|, Outlines(Flatten([ChildFirst(s)(g)])))
    ensures Outlines(Flatten([ChildFirst(s)(g)])) ==
      [Outline(ChildFirst(s)(g))] + Outlines(Flatten([s])) + Outlines(Flatten(Kids(g)))
  {
    EditFirstFrame(d, IdIs(targetId), ChildFirst(s), g);
    OwnListing(ChildFirst(s)(g), [s], Kids(g));
  }

  /**
   * `before`/`after` a target under a parent, in the pre-order listing: only
   * that parent's block changes, to the parent with the moved node spliced in.
   */
  lemma PlaceBesideKidFrame(d: Tree, s: Node, targetId: string, after: bool, g: Node, p: Node)
    requires FindNodeById(d, targetId) == Some(g) && FindParentNode(d, targetId) == Some(p)
    ensures BlockAt(Flatten(d), FindIndex(Flatten(d), HasKidWithId(targetId)), Flatten([p]))
    ensures Outlines(Flatten(Place(d, s, targetId, if after then "after" else "before"))) ==
      Spliced(Flatten(d), FindIndex(Flatten(d), HasKidWithId(targetId)), |Flatten([p])|,
        Outlines(Flatten([BesideChild(s, targetId, after)(p)])))
  {
    PlaceUnderParent(d, s, targetId, after, g, p);
    EditFirstFrame(d, HasKidWithId(targetId), BesideChild(s, targetId, after), p);
  }

  /**
   * `before`/`after` a root target at `i`: the moved subtree is inserted into
   * the pre-order listing at the target root's block, or right after it, and
   * every other node stays, in its order.
   */
  lemma PlaceBesideRootFrame(d: Tree, s: Node, targetId: string, after: bool, g: Node, i: nat, j: nat)
    requires FindNodeById(d, targetId) == Some(g) && FindParentNode(d, targetId).None?
    requires FindIndex(d, IdIs(targetId)) == i && j == if after then i + 1 else i
    ensures j <= |d|
    ensures Flatten(d) == Flatten(d[..j]) + Flatten(d[j..])
    ensures Flatten(Place(d, s, targetId, if after then "after" else "before")) ==
      Flatten(d[..j]) + Flatten([s]) + Flatten(d[j..])
  {
    PlaceBesideRoot(d, s, targetId, after, g);
    BesideRootAt(d, s, targetId, after, i);
    SplitTwo(d, j);
    FlattenSplit(d[..j], s, d[j..]);
    FlattenAppend(d[..j], d[j..]);
  }

  /**
   * A legal move `before` or `after` a target under a parent: the moved node
   * becomes the target's sibling, just before or just after it.
   */
  lemma MoveBesideUnderParent(t: Tree, sourceId: string, targetId: string, after: bool, p: Node)
    requires WellFormed(t) && LegalMove(t, sourceId, targetId)
    requires FindParentNode(Detached(t, sourceId), targetId) == Some(p)
    ensures var r := MoveNode(t, sourceId, targetId, if after then "after" else "before");
      var sib := Siblings(r, targetId);
      FindParentNode(r, sourceId) == FindParentNode(r, targetId) &&
      0 <= FindIndex(sib, IdIs(sourceId)) &&
      FindIndex(sib, IdIs(targetId)) == FindIndex(sib, IdIs(sourceId)) + (if after then -1 else 1)
  {
    var position := if after then "after" else "before";
    var s := FindNodeById(t, sourceId).value;
    var d := Detached(t, sourceId);
    var r := MoveNode(t, sourceId, targetId, position);
    LegalTargetFound(t, sourceId, targetId);
    var g := FindNodeById(d, targetId).value;
    var f := BesideChild(s, targetId, after);
    MoveIsPlace(t, sourceId, targetId, position, s);
    PlaceUnderParent(d, s, targetId, after, g, p);
    MoveNodeBag(t, sourceId, targetId, position);
    var j, ti := SpliceBesideKid(d, s, targetId, after, p);
    SiblingPositions(r, f(p), sourceId, targetId, j, ti);
  }

  /** The parent, edited, is in the result, with the moved node at `j` and the target at `ti`. */
  lemma SpliceBesideKid(d: Tree, s: Node, targetId: string, after: bool, p: Node) returns (j: nat, ti: nat)
    requires FindParentNode(d, targetId) == Some(p)
    ensures var p' := BesideChild(s, targetId, after)(p);
      p' in Flatten(EditFirst(d, HasKidWithId(targetId), BesideChild(s, targetId, after))) &&
      j < |Kids(p')| && ti < |Kids(p')| && Kids(p')[j] == s && Kids(p')[ti].id == targetId &&
      ti == if after then j - 1 else j + 1
  {
    KidWithId(targetId);
    var f := BesideChild(s, targetId, after);
    EditFirstHas(d, HasKidWithId(targetId), f, p);
    var k := Kids(p);
    var i := FindIndex(k, IdIs(targetId));
    j := if after then i + 1 else i;
    ti := if after then i else i + 1;
    assert Kids(f(p)) == SpliceIn(k, j, s);
    SpliceInAt(k, j, s, i);
  }

  /**
   * In a well-formed forest two children of one listed node have that node
   * as parent, and their sibling list is its children.
   */
  lemma SiblingPositions(r: Tree, q: Node, sourceId: string, targetId: string, j: nat, ti: nat)
    requires WellFormed(r) && q in Flatten(r) && sourceId != "" && targetId != ""
    requires j < |Kids(q)| && ti < |Kids(q)| && Kids(q)[j].id == sourceId && Kids(q)[ti].id == targetId
    ensures FindParentNode(r, sourceId) == Some(q) && FindParentNode(r, targetId) == Some(q)
    ensures FindIndex(Siblings(r, targetId), IdIs(sourceId)) == j
    ensures FindIndex(Siblings(r, targetId), IdIs(targetId)) == ti
  {
    ParentUnique(r, q, Kids(q)[j]);
    ParentUnique(r, q, Kids(q)[ti]);
    WellFormedBelow(r, q);
    IndexOfRoot(Kids(q), j);
    IndexOfRoot(Kids(q), ti);
  }

  /**
   * A legal move `before` or `after` a root target: the moved node becomes a
   * root just before or just after the target.
   */
  lemma MoveBesideRoot(t: Tree, sourceId: string, targetId: string, after: bool)
    requires WellFormed(t) && LegalMove(t, sourceId, targetId)
    requires FindParentNode(Detached(t, sourceId), targetId).None?
    ensures var r := MoveNode(t, sourceId, targetId, if after then "after" else "before");
      var sib := Siblings(r, targetId);
      FindParentNode(r, sourceId) == FindParentNode(r, targetId) &&
      0 <= FindIndex(sib, IdIs(sourceId)) &&
      FindIndex(sib, IdIs(targetId)) == FindIndex(sib, IdIs(sourceId)) + (if after then -1 else 1)
  {
    var position := if after then "after" else "before";
    var s := FindNodeById(t, sourceId).value;
    var d := Detached(t, sourceId);
    var r := MoveNode(t, sourceId, targetId, position);
    LegalTargetFound(t, sourceId, targetId);
    var g := FindNodeById(d, targetId).value;
    var i := SourceRootIndex(d, targetId, g);
    var j := if after then i + 1 else i;
    MoveIsPlace(t, sourceId, targetId, position, s);
    PlaceBesideRoot(d, s, targetId, after, g);
    assert r == BesideRoot(d, s, targetId, after);
    BesideRootAt(d, s, targetId, after, i);
    MoveNodeBag(t, sourceId, targetId, position);
    var ti := if after then i else i + 1;
    SpliceInAt(d, j, s, i);
    ParentOfRoot(r, j);
    ParentOfRoot(r, ti);
    IndexOfRoot(r, j);
    IndexOfRoot(r, ti);
  }
}
