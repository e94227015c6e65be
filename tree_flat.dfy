/**
 * `flattenTree` and `buildTreeFromFlatArray` of `TreeUtils`.
 *
 * `buildTreeFromFlatArray` returns a graph of objects: every object it
 * creates is `nodeMap[id]` for the identifier of some entry, and every
 * children array belongs to one of them. `Linked` records that graph with each
 * object named by its identifier: the root list, the objects without their
 * children, and each object's children as identifiers. `Unfold` reads the
 * graph back as a forest value, down to a given depth.
 */
module TreeFlat {
  import opened Wrappers
  import opened TreeNodes
  import opened TreeShape

  /** `flattenTree`: push each node, then the flattening of its non-empty child list. */
  method FlattenTree(t: Tree) returns (result: seq<Node>)
    ensures result == Flatten(t)
    decreases t
  {
    result := [];
    var i := 0;
    while i < |t|
      invariant 0 <= i <= |t| && result == Flatten(t[..i])
    {
      var node := t[i];
      FlattenSnoc(t, i);
      result := result + [node];
      if node.children.Present? && |node.children.nodes| > 0 {
        var below := FlattenTree(node.children.nodes);
        result := result + below;
      } else {
        assert Flatten(Kids(node)) == [];
      }
      i := i + 1;
    }
    assert t[..|t|] == t;
  }

  /** One more root listed: the root, then what is below it. */
  lemma FlattenSnoc(t: Tree, i: nat)
    requires i < |t|
    ensures Flatten(t[..i + 1]) == Flatten(t[..i]) + [t[i]] + Flatten(Kids(t[i]))
  {
    FlattenAppend(t[..i], [t[i]]);
    FlattenCons(t[i], []);
    assert t[..i + 1] == t[..i] + [t[i]];
    assert [t[i]] + [] == [t[i]];
    AppendAssoc(Flatten(t[..i]), [t[i]], Flatten(Kids(t[i])));
  }

  // ------------------------------------------------------------ building

  /** `node[parentIdKey]`: one of the fields, an attribute, or `undefined` (`None`). */
  function ParentValue(n: Node, key: string): Option<string> {
    if key == "id" then Some(n.id)
    else if key == "name" then Some(n.name)
    else if key == "type" then Some(n.kind)
    else if key in n.attrs then Some(n.attrs[key])
    else None
  }

  /** The property name `nodeMap[parentId]` looks up: `undefined` becomes `"undefined"`. */
  function MapKey(v: Option<string>): string {
    match v
    case None => "undefined"
    case Some(s) => s
  }

  /** `{ ...node, children: [] }`. */
  function Fresh(n: Node): Node {
    n.(children := Present([]))
  }

  /** The object graph, each object named by its identifier. */
  datatype Linked = Linked(roots: seq<string>, objects: map<string, Node>, kids: map<string, seq<string>>)

  /** The first loop: `nodeMap[node.id] = { ...node, children: [] }`, a later entry replacing an earlier one. */
  function Objects(s: seq<Node>): map<string, Node> {
    if s == [] then map[] else Objects(s[..|s| - 1])[s[|s| - 1].id := Fresh(s[|s| - 1])]
  }

  /** Where the second loop puts an entry: the root list, or the children of the object named `x`. */
  datatype Slot = Root | Under(x: string)

  /**
   * The root list when the parent value `===` the root value or names no
   * object, otherwise the children of `nodeMap[parentId]`.
   */
  function SlotOf(n: Node, key: string, rootParentId: Option<string>, ids: set<string>): Slot {
    var v := ParentValue(n, key);
    if v.Some? && v == rootParentId then Root
    else if MapKey(v) in ids then Under(MapKey(v))
    else Root
  }

  /** The identifiers of the entries put in `slot`, in input order. */
  function Select(s: seq<Node>, key: string, rootParentId: Option<string>, ids: set<string>, slot: Slot): seq<string> {
    if s == [] then []
    else
      var last := s[|s| - 1];
      Select(s[..|s| - 1], key, rootParentId, ids, slot) + (if SlotOf(last, key, rootParentId, ids) == slot then [last.id] else [])
  }

  /** What `buildTreeFromFlatArray` builds, stated entry by entry. */
  function Built(nodes: seq<Node>, key: string, rootParentId: Option<string>): Linked {
    var objects := Objects(nodes);
    var ids := objects.Keys;
    Linked(Select(nodes, key, rootParentId, ids, Root), objects,
           map x | x in ids :: Select(nodes, key, rootParentId, ids, Under(x)))
  }

  /** The first loop of `buildTreeFromFlatArray`: one fresh object per entry, keyed by identifier. */
  method NodeMap(nodes: seq<Node>) returns (nodeMap: map<string, Node>)
    ensures nodeMap == Objects(nodes)
  {
    nodeMap := map[];
    var i := 0;
    while i < |nodes|
      invariant 0 <= i <= |nodes| && nodeMap == Objects(nodes[..i])
    {
      assert nodes[..i + 1][..i] == nodes[..i];
      nodeMap := nodeMap[nodes[i].id := Fresh(nodes[i])];
      i := i + 1;
    }
    assert nodes[..|nodes|] == nodes;
  }

  /** `kids` maps every object to the entries put under it so far. */
  ghost predicate KidsAre(kids: map<string, seq<string>>, s: seq<Node>, key: string, rootParentId: Option<string>, ids: set<string>) {
    kids.Keys == ids && forall x :: x in kids ==> kids[x] == Select(s, key, rootParentId, ids, Under(x))
  }

  lemma KidsStart(nodes: seq<Node>, key: string, rootParentId: Option<string>, ids: set<string>)
    ensures Select(nodes[..0], key, rootParentId, ids, Root) == []
    ensures KidsAre(map x | x in ids :: [], nodes[..0], key, rootParentId, ids)
  {
    assert nodes[..0] == [];
  }

  lemma KidsDone(kids: map<string, seq<string>>, s: seq<Node>, key: string, rootParentId: Option<string>, ids: set<string>)
    requires KidsAre(kids, s, key, rootParentId, ids)
    ensures kids == map x | x in ids :: Select(s, key, rootParentId, ids, Under(x))
  {
  }

  /** The second loop: each entry's identifier pushed onto the root list or onto its parent's children. */
  method Dispatch(nodes: seq<Node>, parentIdKey: string, rootParentId: Option<string>, nodeMap: map<string, Node>)
    returns (roots: seq<string>, kids: map<string, seq<string>>)
    ensures roots == Select(nodes, parentIdKey, rootParentId, nodeMap.Keys, Root)
    ensures kids == map x | x in nodeMap.Keys :: Select(nodes, parentIdKey, rootParentId, nodeMap.Keys, Under(x))
  {
    var ids := nodeMap.Keys;
    kids := map x | x in ids :: [];
    roots := [];
    var i := 0;
    KidsStart(nodes, parentIdKey, rootParentId, ids);
    while i < |nodes|
      invariant 0 <= i <= |nodes|
      invariant roots == Select(nodes[..i], parentIdKey, rootParentId, ids, Root)
      invariant KidsAre(kids, nodes[..i], parentIdKey, rootParentId, ids)
    {
      var node := nodes[i];
      ghost var before, oldRoots := kids, roots;
      var parentId := ParentValue(node, parentIdKey);
      if parentId.Some? && parentId == rootParentId {
        roots := roots + [node.id];
      } else if MapKey(parentId) in nodeMap {
        var k := MapKey(parentId);
        kids := kids[k := kids[k] + [node.id]];
      } else {
        roots := roots + [node.id];
      }
      Dispatched(nodes, i, parentIdKey, rootParentId, ids, before, kids, oldRoots, roots);
      i := i + 1;
    }
    assert nodes[..|nodes|] == nodes;
    KidsDone(kids, nodes, parentIdKey, rootParentId, ids);
  }

  /**
   * `buildTreeFromFlatArray(nodes, parentIdKey, rootParentId)`: a fresh object
   * per entry, then each entry pushed onto the root list or onto its parent's
   * children, in input order.
   */
  method BuildTreeFromFlatArray(nodes: seq<Node>, parentIdKey: string, rootParentId: Option<string>)
    returns (b: Linked)
    ensures b == Built(nodes, parentIdKey, rootParentId)
  {
    var nodeMap := NodeMap(nodes);
    var roots, kids := Dispatch(nodes, parentIdKey, rootParentId, nodeMap);
    b := Linked(roots, nodeMap, kids);
  }

  /** One turn of the second loop keeps the root list and the children lists equal to their selections. */
  lemma Dispatched(nodes: seq<Node>, i: nat, key: string, rootParentId: Option<string>, ids: set<string>,
                   kids: map<string, seq<string>>, kids': map<string, seq<string>>,
                   roots: seq<string>, roots': seq<string>)
    requires i < |nodes| && KidsAre(kids, nodes[..i], key, rootParentId, ids)
    requires roots == Select(nodes[..i], key, rootParentId, ids, Root)
    requires var v := ParentValue(nodes[i], key);
      if (v.Some? && v == rootParentId) || MapKey(v) !in ids then roots' == roots + [nodes[i].id] && kids' == kids
      else roots' == roots && kids' == kids[MapKey(v) := kids[MapKey(v)] + [nodes[i].id]]
    ensures roots' == Select(nodes[..i + 1], key, rootParentId, ids, Root)
    ensures KidsAre(kids', nodes[..i + 1], key, rootParentId, ids)
  {
    assert nodes[..i + 1][..i] == nodes[..i];
    var slot := SlotOf(nodes[i], key, rootParentId, ids);
    assert slot.Under? ==> slot.x in ids;
  }

  // ------------------------------------------------------------ reading the graph back

  /** The objects named `ids`, each with its children read back, down to depth `fuel`. */
  ghost function UnfoldList(b: Linked, ids: seq<string>, fuel: nat): seq<Node>
    decreases fuel, |ids|
  {
    if ids == [] then [] else [UnfoldOne(b, ids[0], fuel)] + UnfoldList(b, ids[1..], fuel)
  }

  ghost function UnfoldOne(b: Linked, x: string, fuel: nat): Node
    decreases fuel, 0
  {
    var obj := if x in b.objects then b.objects[x] else Node(x, "", "", map[], Present([]));
    if fuel == 0 || x !in b.kids then obj
    else obj.(children := Present(UnfoldList(b, b.kids[x], fuel - 1)))
  }

  /** The forest `buildTreeFromFlatArray` returns, read to depth `fuel`. */
  ghost function Unfold(b: Linked, fuel: nat): Tree {
    UnfoldList(b, b.roots, fuel)
  }

  /** The number of levels of a forest. */
  function Height(t: Tree): nat {
    if t == [] then 0
    else
      var below := match t[0].children case Present(c) => Height(c) case Absent => 0;
      var rest := Height(t[1..]);
      if below + 1 < rest then rest else below + 1
  }

  /** The forest with every missing `children` attribute replaced by an empty array. */
  function Filled(t: Tree): Tree {
    if t == [] then []
    else
      var below := match t[0].children case Present(c) => Filled(c) case Absent => [];
      [t[0].(children := Present(below))] + Filled(t[1..])
  }

  /**
   * Every node carries the identifier of its parent under `key`, and the
   * roots carry `p` (`None`: the attribute is missing).
   */
  ghost predicate Annotated(t: Tree, key: string, p: Option<string>) {
    forall i :: 0 <= i < |t| ==>
      ParentValue(t[i], key) == p &&
      (t[i].children.Present? ==> Annotated(t[i].children.nodes, key, Some(t[i].id)))
  }

  // ------------------------------------------------------------ the first loop, entry by entry

  /** The objects are keyed by the entries' identifiers. */
  lemma {:induction false} ObjectsKeys(s: seq<Node>)
    ensures Objects(s).Keys == set n | n in s :: n.id
  {
    if s != [] {
      var k := |s| - 1;
      ObjectsKeys(s[..k]);
      assert s == s[..k] + [s[k]];
    }
  }

  /** An identifier's object is made from the last entry carrying it, with an empty children array. */
  lemma {:induction false} ObjectsLast(s: seq<Node>, j: nat)
    requires j < |s| && forall k :: j < k < |s| ==> s[k].id != s[j].id
    ensures s[j].id in Objects(s) && Objects(s)[s[j].id] == Fresh(s[j])
    ensures Objects(s)[s[j].id].children == Present([])
  {
    var k := |s| - 1;
    if j < k {
      ObjectsLast(s[..k], j);
    }
  }

  // ------------------------------------------------------------ the second loop, level by level

  /** Where the entries whose parent value is `q` go. */
  function LevelSlot(q: Option<string>, rootParentId: Option<string>): Slot {
    if q == rootParentId then Root else Under(MapKey(q))
  }

  /** The identifiers of the children of the listed node named `x`, found anywhere in `t`. */
  ghost function Below(t: Tree, x: string): seq<string> {
    if t == [] then []
    else
      var kids := match t[0].children case Present(c) => c case Absent => [];
      var below := match t[0].children case Present(c) => Below(c, x) case Absent => [];
      (if t[0].id == x then IdsOf(kids) else []) + below + Below(t[1..], x)
  }

  /**
   * A level of an annotated forest as `buildTreeFromFlatArray` sees it: the
   * identifiers `ids` of all entries include the level's, the root value names
   * no entry, and the level's parent value is the root value or the identifier
   * of an entry outside the level.
   */
  ghost predicate Level(t: Tree, key: string, rootParentId: Option<string>, ids: set<string>, q: Option<string>) {
    Annotated(t, key, q) && WellFormed(t) && IdSet(t) <= ids && MapKey(rootParentId) !in ids &&
    (q == rootParentId || (q.Some? && q.value in ids && q.value !in IdSet(t)))
  }

  lemma {:induction false} BelowAbsent(t: Tree, x: string)
    requires x !in IdSet(t)
    ensures Below(t, x) == []
  {
    if t != [] {
      IdSetCons(t);
      if t[0].children.Present? {
        BelowAbsent(t[0].children.nodes, x);
      }
      BelowAbsent(t[1..], x);
    }
  }

  /** In a well-formed forest, `Below` finds the children of the node carrying `x`. */
  lemma {:induction false} BelowAt(t: Tree, n: Node)
    requires WellFormed(t) && n in Flatten(t)
    ensures Below(t, n.id) == IdsOf(Kids(n))
  {
    var a, rest := t[0], t[1..];
    IdSetCons(t);
    Disjoint(t);
    BelowCons(t, n.id);
    if n == a {
      BelowAbsent(Kids(a), n.id);
      BelowAbsent(rest, n.id);
      assert Below(t, n.id) == IdsOf(Kids(a)) + [] + [];
    } else if n in Flatten(Kids(a)) {
      assert n.id in IdSet(Kids(a)) && a.id != n.id;
      BelowAt(a.children.nodes, n);
      BelowAbsent(rest, n.id);
      assert Below(t, n.id) == [] + IdsOf(Kids(n)) + [];
    } else {
      assert n in Flatten(rest) && n.id in IdSet(rest) && a.id != n.id;
      BelowAbsent(Kids(a), n.id);
      BelowAt(rest, n);
      assert Below(t, n.id) == [] + [] + IdsOf(Kids(n));
    }
  }

  /** The identifiers of a non-empty forest: the first root's, those below it, and the rest's. */
  lemma IdSetCons(t: Tree)
    requires t != []
    ensures Flatten(t) == [t[0]] + Flatten(Kids(t[0])) + Flatten(t[1..])
    ensures IdSet(t) == {t[0].id} + IdSet(Kids(t[0])) + IdSet(t[1..])
  {
    assert t == [t[0]] + t[1..];
    FlattenCons(t[0], t[1..]);
  }

  /** In a well-formed forest the first root, its subtree and the other roots own disjoint identifiers. */
  lemma Disjoint(t: Tree)
    requires WellFormed(t) && t != []
    ensures WellFormed(Kids(t[0])) && WellFormed(t[1..])
    ensures t[0].id !in IdSet(Kids(t[0])) && t[0].id !in IdSet(t[1..])
    ensures IdSet(Kids(t[0])) !! IdSet(t[1..])
  {
    var a, rest := t[0], t[1..];
    assert t == [a] + rest;
    IdBagCons(a, rest);
    WellFormedBag(t);
    WellFormedBag(Kids(a));
    WellFormedBag(rest);
    forall x ensures IdBag(Kids(a))[x] <= 1 && IdBag(rest)[x] <= 1 {
      assert IdBag(t)[x] <= 1;
    }
    forall x ensures x in IdSet(Kids(a)) ==> x != a.id && x !in IdSet(rest) {
      IdSetBag(Kids(a), x);
      IdSetBag(rest, x);
      assert IdBag(t)[x] <= 1;
    }
    IdSetBag(rest, a.id);
    assert IdBag(t)[a.id] <= 1;
  }

  /**
   * In the flattening of a level, the entries put in `slot` are the level's
   * roots when `slot` is the level's own slot, followed by the children of
   * the node named by `slot` wherever it sits in the level.
   */
  lemma {:induction false} SelectLevel(t: Tree, key: string, rootParentId: Option<string>, ids: set<string>,
                                       q: Option<string>, slot: Slot)
    requires Level(t, key, rootParentId, ids, q)
    ensures Select(Flatten(t), key, rootParentId, ids, slot) ==
      (if slot == LevelSlot(q, rootParentId) then IdsOf(t) else []) + (if slot.Under? then Below(t, slot.x) else [])
  {
    if t == [] {
      assert Select([], key, rootParentId, ids, slot) == [];
    } else {
      var a, rest := t[0], t[1..];
      var c := Kids(a);
      IdSetCons(t);
      Disjoint(t);
      LevelParts(t, key, rootParentId, ids, q);
      if a.children.Present? {
        SelectLevel(a.children.nodes, key, rootParentId, ids, Some(a.id), slot);
      } else {
        assert Select([], key, rootParentId, ids, slot) == [];
      }
      SelectLevel(rest, key, rootParentId, ids, q, slot);
      SelectThree(a, Flatten(c), Flatten(rest), key, rootParentId, ids, slot);
      if slot == LevelSlot(q, rootParentId) && slot.Under? {
        BelowAbsent(c, slot.x);
        BelowAbsent(rest, slot.x);
      }
      var own := LevelSlot(q, rootParentId);
      var first := Select([a], key, rootParentId, ids, slot);
      var below := Select(Flatten(c), key, rootParentId, ids, slot);
      var later := Select(Flatten(rest), key, rootParentId, ids, slot);
      SelectOne(a, key, rootParentId, ids, slot);
      assert first == if own == slot then [t[0].id] else [];
      assert below == (if slot == Under(t[0].id) then IdsOf(Kids(t[0])) else []) +
        (if slot.Under? then Below(Kids(t[0]), slot.x) else []);
      assert later == (if slot == own then IdsOf(t[1..]) else []) + (if slot.Under? then Below(t[1..], slot.x) else []);
      CombineLevel(t, slot, own, first, below, later);
    }
  }

  /** The three parts of a level's selection put together. */
  lemma CombineLevel(t: Tree, slot: Slot, own: Slot, first: seq<string>, below: seq<string>, later: seq<string>)
    requires t != []
    requires first == if own == slot then [t[0].id] else []
    requires below == (if slot == Under(t[0].id) then IdsOf(Kids(t[0])) else []) +
      (if slot.Under? then Below(Kids(t[0]), slot.x) else [])
    requires later == (if slot == own then IdsOf(t[1..]) else []) + (if slot.Under? then Below(t[1..], slot.x) else [])
    requires own == slot && slot.Under? ==>
      slot.x != t[0].id && Below(Kids(t[0]), slot.x) == [] && Below(t[1..], slot.x) == []
    ensures first + below + later ==
      (if slot == own then IdsOf(t) else []) + (if slot.Under? then Below(t, slot.x) else [])
  {
    if slot.Under? {
      BelowCons(t, slot.x);
      if slot == own {
        assert first == [t[0].id];
        assert below == [];
        assert later == IdsOf(t[1..]);
        assert Below(t, slot.x) == [];
        assert IdsOf(t) == [t[0].id] + IdsOf(t[1..]);
      } else {
        assert first == [];
        assert later == Below(t[1..], slot.x);
      }
    } else {
      assert below == [];
      if slot == own {
        assert IdsOf(t) == [t[0].id] + IdsOf(t[1..]);
      } else {
        assert first == [] && later == [];
      }
    }
  }

  lemma BelowCons(t: Tree, x: string)
    requires t != []
    ensures Below(t, x) == (if t[0].id == x then IdsOf(Kids(t[0])) else []) + Below(Kids(t[0]), x) + Below(t[1..], x)
  {
  }

  /** The first root's subtree and the other roots form levels of their own. */
  lemma LevelParts(t: Tree, key: string, rootParentId: Option<string>, ids: set<string>, q: Option<string>)
    requires Level(t, key, rootParentId, ids, q) && t != []
    requires IdSet(t) == {t[0].id} + IdSet(Kids(t[0])) + IdSet(t[1..])
    requires WellFormed(Kids(t[0])) && WellFormed(t[1..]) && t[0].id !in IdSet(Kids(t[0]))
    ensures SlotOf(t[0], key, rootParentId, ids) == LevelSlot(q, rootParentId)
    ensures LevelSlot(Some(t[0].id), rootParentId) == Under(t[0].id)
    ensures Level(Kids(t[0]), key, rootParentId, ids, Some(t[0].id))
    ensures Level(t[1..], key, rootParentId, ids, q)
  {
    var rest := t[1..];
    forall i | 0 <= i < |rest| ensures ParentValue(rest[i], key) == q {
      assert rest[i] == t[i + 1];
    }
  }

  /** Selecting from a root's entry, its subtree's entries and the rest's entries. */
  lemma SelectThree(a: Node, below: seq<Node>, rest: seq<Node>, key: string, rootParentId: Option<string>,
                    ids: set<string>, slot: Slot)
    ensures Select([a] + below + rest, key, rootParentId, ids, slot) ==
      (if SlotOf(a, key, rootParentId, ids) == slot then [a.id] else []) +
      Select(below, key, rootParentId, ids, slot) + Select(rest, key, rootParentId, ids, slot)
  {
    SelectAppend([a] + below, rest, key, rootParentId, ids, slot);
    SelectAppend([a], below, key, rootParentId, ids, slot);
    SelectOne(a, key, rootParentId, ids, slot);
  }

  lemma {:induction false} SelectAppend(s: seq<Node>, s': seq<Node>, key: string, rootParentId: Option<string>,
                                        ids: set<string>, slot: Slot)
    ensures Select(s + s', key, rootParentId, ids, slot) ==
      Select(s, key, rootParentId, ids, slot) + Select(s', key, rootParentId, ids, slot)
    decreases |s'|
  {
    if s' == [] {
      assert s + s' == s;
    } else {
      var k := |s'| - 1;
      assert (s + s')[..|s + s'| - 1] == s + s'[..k];
      SelectAppend(s, s'[..k], key, rootParentId, ids, slot);
    }
  }

  /** An identifier is in the list for `slot` exactly when some entry carrying it is put there. */
  lemma {:induction false} SelectMember(s: seq<Node>, key: string, rootParentId: Option<string>, ids: set<string>,
                                        slot: Slot, x: string)
    ensures x in Select(s, key, rootParentId, ids, slot) <==>
      exists i :: 0 <= i < |s| && s[i].id == x && SlotOf(s[i], key, rootParentId, ids) == slot
  {
    if s != [] {
      var k := |s| - 1;
      SelectMember(s[..k], key, rootParentId, ids, slot, x);
      if x in Select(s[..k], key, rootParentId, ids, slot) {
        var i :| 0 <= i < k && s[..k][i].id == x && SlotOf(s[..k][i], key, rootParentId, ids) == slot;
        assert s[i] == s[..k][i];
      }
      if exists i :: 0 <= i < |s| && s[i].id == x && SlotOf(s[i], key, rootParentId, ids) == slot {
        var i :| 0 <= i < |s| && s[i].id == x && SlotOf(s[i], key, rootParentId, ids) == slot;
        if i < k {
          assert s[..k][i] == s[i];
        }
      }
    }
  }

  /** The list for `slot` holds one identifier per entry put there. */
  lemma {:induction false} SelectCount(s: seq<Node>, key: string, rootParentId: Option<string>, ids: set<string>, slot: Slot)
    ensures |Select(s, key, rootParentId, ids, slot)| == |Positions(s, key, rootParentId, ids, slot)|
  {
    if s != [] {
      var k := |s| - 1;
      SelectCount(s[..k], key, rootParentId, ids, slot);
      PositionsStep(s, key, rootParentId, ids, slot);
    }
  }

  lemma PositionsStep(s: seq<Node>, key: string, rootParentId: Option<string>, ids: set<string>, slot: Slot)
    requires s != []
    ensures var k := |s| - 1;
      Positions(s, key, rootParentId, ids, slot) ==
        Positions(s[..k], key, rootParentId, ids, slot) + (if SlotOf(s[k], key, rootParentId, ids) == slot then {k} else {})
  {
    var k := |s| - 1;
    assert forall i :: 0 <= i < k ==> s[..k][i] == s[i];
  }

  /** The positions of the entries put in `slot`. */
  ghost function Positions(s: seq<Node>, key: string, rootParentId: Option<string>, ids: set<string>, slot: Slot): set<nat> {
    set i: nat | i < |s| && SlotOf(s[i], key, rootParentId, ids) == slot
  }

  lemma SelectOne(n: Node, key: string, rootParentId: Option<string>, ids: set<string>, slot: Slot)
    ensures Select([n], key, rootParentId, ids, slot) == if SlotOf(n, key, rootParentId, ids) == slot then [n.id] else []
  {
    assert [n][..0] == [];
  }

  // ------------------------------------------------------------ reading back

  lemma FilledCons(t: Tree)
    requires t != []
    ensures Filled(t) == [t[0].(children := Present(Filled(Kids(t[0]))))] + Filled(t[1..])
  {
    if t[0].children.Absent? {
      assert Filled([]) == [];
    }
  }

  /** The objects of `b` reproduce the listed nodes of `t` with their children read back. */
  ghost predicate Mirrors(b: Linked, t: Tree) {
    forall n :: n in Flatten(t) ==>
      n.id in b.objects && b.objects[n.id] == Fresh(n) && n.id in b.kids && b.kids[n.id] == IdsOf(Kids(n))
  }

  lemma MirrorsCons(b: Linked, t: Tree)
    requires Mirrors(b, t) && t != []
    ensures Mirrors(b, Kids(t[0])) && Mirrors(b, t[1..])
    ensures t[0].id in b.objects && b.objects[t[0].id] == Fresh(t[0])
    ensures t[0].id in b.kids && b.kids[t[0].id] == IdsOf(Kids(t[0]))
  {
    IdSetCons(t);
    assert t[0] in Flatten(t);
  }

  /** Reading back the objects named by a level's identifiers, deep enough, gives the level with filled arrays. */
  lemma {:induction false} UnfoldMirrors(b: Linked, t: Tree, fuel: nat)
    requires Mirrors(b, t) && Height(t) <= fuel
    ensures UnfoldList(b, IdsOf(t), fuel) == Filled(t)
  {
    if t != [] {
      var a, rest := t[0], t[1..];
      MirrorsCons(b, t);
      if a.children.Present? {
        UnfoldMirrors(b, a.children.nodes, fuel - 1);
      }
      UnfoldMirrors(b, rest, fuel);
      UnfoldHead(b, a, fuel);
      FilledCons(t);
      assert IdsOf(t) == [a.id] + IdsOf(rest);
    }
  }

  /** One object read back: the node with its children read back and filled. */
  lemma UnfoldHead(b: Linked, a: Node, fuel: nat)
    requires fuel > 0
    requires a.id in b.objects && b.objects[a.id] == Fresh(a)
    requires a.id in b.kids && b.kids[a.id] == IdsOf(Kids(a))
    requires UnfoldList(b, IdsOf(Kids(a)), fuel - 1) == Filled(Kids(a))
    ensures UnfoldOne(b, a.id, fuel) == a.(children := Present(Filled(Kids(a))))
  {
  }

  /**
   * Rebuilding the flattening of a well-formed forest, annotated with parent
   * identifiers under `key` and with `rootParentId` on its roots, gives the
   * forest back, with an empty children array wherever the attribute was missing.
   */
  lemma RebuildFlattened(t: Tree, key: string, rootParentId: Option<string>)
    requires WellFormed(t) && Annotated(t, key, rootParentId) && MapKey(rootParentId) !in IdSet(t)
    ensures Unfold(Built(Flatten(t), key, rootParentId), Height(t)) == Filled(t)
  {
    var b := Built(Flatten(t), key, rootParentId);
    RebuiltRoots(t, key, rootParentId);
    forall n | n in Flatten(t)
      ensures n.id in b.objects && b.objects[n.id] == Fresh(n) && n.id in b.kids && b.kids[n.id] == IdsOf(Kids(n))
    {
      RebuiltNode(t, key, rootParentId, n);
    }
    UnfoldMirrors(b, t, Height(t));
  }

  /** The identifiers of the rebuilt objects are the forest's, and its roots come back as the root list. */
  lemma RebuiltRoots(t: Tree, key: string, rootParentId: Option<string>)
    requires WellFormed(t) && Annotated(t, key, rootParentId) && MapKey(rootParentId) !in IdSet(t)
    ensures Objects(Flatten(t)).Keys == IdSet(t)
    ensures Built(Flatten(t), key, rootParentId).roots == IdsOf(t)
  {
    ObjectsKeys(Flatten(t));
    SelectLevel(t, key, rootParentId, IdSet(t), rootParentId, Root);
  }

  /** Each listed node comes back as a fresh object whose children are the node's children, in order. */
  lemma RebuiltNode(t: Tree, key: string, rootParentId: Option<string>, n: Node)
    requires WellFormed(t) && Annotated(t, key, rootParentId) && MapKey(rootParentId) !in IdSet(t)
    requires n in Flatten(t)
    ensures var b := Built(Flatten(t), key, rootParentId);
      n.id in b.objects && b.objects[n.id] == Fresh(n) && n.id in b.kids && b.kids[n.id] == IdsOf(Kids(n))
  {
    var s := Flatten(t);
    ObjectsKeys(s);
    var j :| 0 <= j < |s| && s[j] == n;
    LastOfId(t, j);
    ObjectsLast(s, j);
    SelectLevel(t, key, rootParentId, IdSet(t), rootParentId, Under(n.id));
    BelowAt(t, n);
  }

  /** In a well-formed forest no later listed node repeats an identifier. */
  lemma LastOfId(t: Tree, j: nat)
    requires WellFormed(t) && j < |Flatten(t)|
    ensures forall k :: j < k < |Flatten(t)| ==> Flatten(t)[k].id != Flatten(t)[j].id
  {
    forall k | j < k < |Flatten(t)| ensures Flatten(t)[k].id != Flatten(t)[j].id {
      assert Ids(t)[k] == Flatten(t)[k].id && Ids(t)[j] == Flatten(t)[j].id;
    }
  }
}
