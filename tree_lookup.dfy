/**
 * The read-only lookups of `TreeUtils`: a node by identifier, the parent of a
 * node, the identifiers of a node's ancestors, and that same path as a set.
 * An empty identifier is falsy in the source, and every lookup answers it
 * with "nothing".
 */
module TreeLookup {
  import opened Wrappers
  import opened TreeNodes
  import opened TreeShape
  import opened TreeSearch

  /** `findNodeById`: the first node in pre-order whose identifier is `id`. */
  function FindNodeById(t: Tree, id: string): (r: Option<Node>)
    ensures r.Some? ==> r.value.id == id && r.value in Flatten(t)
    ensures r.None? <==> id == "" || id !in Ids(t)
  {
    if id == "" then None
    else
      FirstFound(t, IdIs(id));
      IdsMember(t, id);
      FindFirst(t, IdIs(id))
  }

  /** `findParentNode`: the first node in pre-order one of whose direct children has identifier `id`. */
  function FindParentNode(t: Tree, id: string): (r: Option<Node>)
    ensures r.Some? ==> r.value in Flatten(t) && id in IdsOf(Kids(r.value))
    ensures r.None? <==> id == "" || forall n :: n in Flatten(t) ==> id !in IdsOf(Kids(n))
  {
    if id == "" then None
    else
      FirstFound(t, HasKidWithId(id));
      KidWithId(id);
      FindFirst(t, HasKidWithId(id))
  }

  /** `_getPathToNodeHelper`: the path `cur` extended by the ancestors of the first match below `t`. */
  function PathFrom(t: Tree, id: string, cur: seq<string>): seq<string> {
    if t == [] then []
    else if t[0].id == id then cur
    else
      var below := match t[0].children case Present(c) => PathFrom(c, id, cur + [t[0].id]) case Absent => [];
      if |below| > 0 then below else PathFrom(t[1..], id, cur)
  }

  /** `getPathToNode`: the identifiers of the ancestors of the node `id`, from its root down to its parent. */
  function GetPathToNode(t: Tree, id: string): seq<string> {
    if id == "" then [] else PathFrom(t, id, [])
  }

  /** `getExpandedForNode`: the ancestors' identifiers as a set (the source's object of `true` flags). */
  function GetExpandedForNode(t: Tree, id: string): (r: set<string>)
    ensures forall x :: x in r <==> x in GetPathToNode(t, id)
  {
    set x | x in GetPathToNode(t, id)
  }

  /**
   * `path` names, root first, a chain of nodes of `t`, each a child of the
   * one before, whose last member has `n` as a direct child; the empty path
   * says that `n` is a root.
   */
  ghost predicate PathTo(t: Tree, path: seq<string>, n: Node)
    decreases |path|
  {
    if path == [] then n in t
    else exists a :: a in t && a.id == path[0] && PathTo(Kids(a), path[1..], n)
  }

  /** Any first-match search result is listed, and no listed node passes when there is none. */
  lemma FirstFound(t: Tree, p: Node -> bool)
    ensures FindFirst(t, p).Some? ==> FindFirst(t, p).value in Flatten(t)
    ensures FindFirst(t, p).None? <==> forall n :: n in Flatten(t) ==> !p(n)
  {
    FindFirstIsFirst(t, p);
    var s := Flatten(t);
    if FindFirst(t, p).None? {
      forall n | n in s ensures !p(n) {
        var i :| 0 <= i < |s| && s[i] == n;
      }
    }
  }

  lemma KidWithId(id: string)
    ensures forall n :: HasKidWithId(id)(n) <==> id in IdsOf(Kids(n))
  {
    forall n ensures HasKidWithId(id)(n) <==> id in IdsOf(Kids(n)) {
      var k := FindIndex(Kids(n), IdIs(id));
      if id in IdsOf(Kids(n)) {
        var j :| 0 <= j < |Kids(n)| && IdsOf(Kids(n))[j] == id;
        assert IdIs(id)(Kids(n)[j]);
      }
    }
  }

  /** `findNodeById` returns the first node of the pre-order listing with that identifier. */
  lemma FindNodeIsFirst(t: Tree, id: string, k: nat)
    requires id != "" && k < |Flatten(t)| && Flatten(t)[k].id == id
    requires forall j :: 0 <= j < k ==> Flatten(t)[j].id != id
    ensures FindNodeById(t, id) == Some(Flatten(t)[k])
  {
    FindFirstIsFirst(t, IdIs(id));
    var q := FindIndex(Flatten(t), IdIs(id));
    assert IdIs(id)(Flatten(t)[k]);
  }

  /** In a well-formed forest `findNodeById` finds every listed node by its identifier. */
  lemma FindNodeUnique(t: Tree, n: Node)
    requires WellFormed(t) && n in Flatten(t) && n.id != ""
    ensures FindNodeById(t, n.id) == Some(n)
  {
    IdsMember(t, n.id);
    var m := FindNodeById(t, n.id).value;
    SameIdSameNode(t, m, n);
  }

  /** In a well-formed forest a root has no parent. */
  lemma ParentOfRoot(t: Tree, i: nat)
    requires WellFormed(t) && i < |t|
    ensures FindParentNode(t, t[i].id).None?
  {
    var x := t[i].id;
    if FindParentNode(t, x).Some? {
      var n := FindParentNode(t, x).value;
      var j :| 0 <= j < |Kids(n)| && IdsOf(Kids(n))[j] == x;
      FlattenMember(Kids(n), j);
      ListedId(Kids(n), Kids(n)[j]);
      RootNotBelow(t, i, n);
    }
  }

  /** The node at the end of a path is listed, and so is every node named on it. */
  lemma {:induction false} PathListed(t: Tree, path: seq<string>, n: Node)
    requires PathTo(t, path, n)
    ensures n in Flatten(t)
    ensures path != [] ==> exists a :: a in t && a.id == path[0] && n in Flatten(Kids(a))
    decreases |path|
  {
    if path == [] {
      var i :| 0 <= i < |t| && t[i] == n;
      FlattenMember(t, i);
    } else {
      var a :| a in t && a.id == path[0] && PathTo(Kids(a), path[1..], n);
      PathListed(Kids(a), path[1..], n);
      var i :| 0 <= i < |t| && t[i] == a;
      FlattenMember(t, i);
    }
  }

  /**
   * Every identifier on a path belongs to an ancestor of the node at its end:
   * a listed node with that identifier which has the end node below it.
   */
  lemma {:induction false} AncestorAt(t: Tree, path: seq<string>, n: Node, k: nat) returns (a: Node)
    requires PathTo(t, path, n) && k < |path|
    ensures a in Flatten(t) && a.id == path[k] && n in Flatten(Kids(a))
    decreases |path|
  {
    var i := PathHead(t, path, n);
    var b := t[i];
    FlattenMember(t, i);
    if k == 0 {
      PathListed(Kids(b), path[1..], n);
      a := b;
    } else {
      a := AncestorAt(Kids(b), path[1..], n, k - 1);
      assert path[1..][k - 1] == path[k];
    }
  }

  lemma {:induction false} PathFromSpec(t: Tree, id: string, cur: seq<string>)
    ensures FindFirst(t, IdIs(id)).None? ==> PathFrom(t, id, cur) == []
    ensures FindFirst(t, IdIs(id)).Some? ==>
      var r := PathFrom(t, id, cur);
      |cur| <= |r| && r[..|cur|] == cur && PathTo(t, r[|cur|..], FindFirst(t, IdIs(id)).value)
  {
    if t != [] {
      if t[0].id == id {
        var r := PathFrom(t, id, cur);
        assert r[|cur|..] == [];
      } else if t[0].children.Present? && FindFirst(t[0].children.nodes, IdIs(id)).Some? {
        PathFromSpec(t[0].children.nodes, id, cur + [t[0].id]);
        PathFromDown(t, id, cur);
      } else {
        if t[0].children.Present? {
          PathFromSpec(t[0].children.nodes, id, cur + [t[0].id]);
        }
        PathFromSpec(t[1..], id, cur);
        PathFromOn(t, id, cur);
      }
    }
  }

  /** What `PathFromSpec` states, as one predicate for its two case lemmas. */
  ghost predicate PathFromMeets(t: Tree, id: string, cur: seq<string>) {
    (FindFirst(t, IdIs(id)).None? ==> PathFrom(t, id, cur) == []) &&
    (FindFirst(t, IdIs(id)).Some? ==>
      var r := PathFrom(t, id, cur);
      |cur| <= |r| && r[..|cur|] == cur && PathTo(t, r[|cur|..], FindFirst(t, IdIs(id)).value))
  }

  /** The case of `PathFromSpec` where the node is found below the first root. */
  lemma PathFromDown(t: Tree, id: string, cur: seq<string>)
    requires t != [] && t[0].id != id && t[0].children.Present?
    requires FindFirst(t[0].children.nodes, IdIs(id)).Some?
    requires PathFromMeets(t[0].children.nodes, id, cur + [t[0].id])
    ensures PathFromMeets(t, id, cur)
  {
    var c := t[0].children.nodes;
    var cur' := cur + [t[0].id];
    var r := PathFrom(t, id, cur);
    assert r == PathFrom(c, id, cur');
    assert r[..|cur|] == cur' [..|cur|];
    var tail := r[|cur|..];
    assert tail[0] == t[0].id && tail[1..] == r[|cur'|..];
    assert PathTo(Kids(t[0]), tail[1..], FindFirst(t, IdIs(id)).value);
  }

  /** The case of `PathFromSpec` where the node is not at or below the first root. */
  lemma PathFromOn(t: Tree, id: string, cur: seq<string>)
    requires t != [] && t[0].id != id
    requires t[0].children.Present? ==>
      FindFirst(t[0].children.nodes, IdIs(id)).None? && PathFromMeets(t[0].children.nodes, id, cur + [t[0].id])
    requires PathFromMeets(t[1..], id, cur)
    ensures PathFromMeets(t, id, cur)
  {
    var rest := t[1..];
    var r := PathFrom(t, id, cur);
    assert FindFirst(t, IdIs(id)) == FindFirst(rest, IdIs(id));
    assert r == PathFrom(rest, id, cur);
    if FindFirst(rest, IdIs(id)).Some? {
      var m := FindFirst(rest, IdIs(id)).value;
      var tail := r[|cur|..];
      if tail != [] {
        var a :| a in rest && a.id == tail[0] && PathTo(Kids(a), tail[1..], m);
        assert a in t;
      }
    }
  }

  /**
   * `getPathToNode` is empty for an empty or absent identifier, and otherwise
   * is a path of ancestors down to the node `findNodeById` returns.
   */
  lemma GetPathToNodeSpec(t: Tree, id: string)
    ensures FindNodeById(t, id).None? ==> GetPathToNode(t, id) == []
    ensures FindNodeById(t, id).Some? ==> PathTo(t, GetPathToNode(t, id), FindNodeById(t, id).value)
  {
    if id != "" {
      PathFromSpec(t, id, []);
    }
  }

  /** In a well-formed forest a node has only one path, whichever node with its identifier it ends at. */
  lemma {:induction false} PathUnique(t: Tree, p: seq<string>, q: seq<string>, n: Node, m: Node)
    requires WellFormed(t) && PathTo(t, p, n) && PathTo(t, q, m) && n.id == m.id
    ensures p == q
    decreases |p|, 1
  {
    if |p| == 0 {
      if |q| != 0 {
        var i :| 0 <= i < |t| && t[i] == n;
        RootNotOnPath(t, q, m, i);
      }
    } else if |q| == 0 {
      var i :| 0 <= i < |t| && t[i] == m;
      RootNotOnPath(t, p, n, i);
    } else {
      PathStep(t, p, q, n, m);
    }
  }

  /** The inductive step of `PathUnique`: both paths start from the same root. */
  lemma {:induction false} PathStep(t: Tree, p: seq<string>, q: seq<string>, n: Node, m: Node)
    requires WellFormed(t) && p != [] && q != [] && PathTo(t, p, n) && PathTo(t, q, m) && n.id == m.id
    ensures p == q
    decreases |p|, 0
  {
    var i := SharedHead(t, p, q, n, m);
    FlattenMember(t, i);
    WellFormedBelow(t, t[i]);
    PathUnique(Kids(t[i]), p[1..], q[1..], n, m);
    HeadTail(p, q);
  }

  /** Two non-empty paths to nodes with one identifier start from the same root. */
  lemma SharedHead(t: Tree, p: seq<string>, q: seq<string>, n: Node, m: Node) returns (i: nat)
    requires WellFormed(t) && p != [] && q != [] && PathTo(t, p, n) && PathTo(t, q, m) && n.id == m.id
    ensures i < |t| && p[0] == t[i].id && q[0] == t[i].id
    ensures PathTo(Kids(t[i]), p[1..], n) && PathTo(Kids(t[i]), q[1..], m)
  {
    i := PathHead(t, p, n);
    var k := PathHead(t, q, m);
    NodeBag(t[i]);
    NodeBag(t[k]);
    SameRoot(t, i, k, n.id);
  }

  lemma HeadTail(p: seq<string>, q: seq<string>)
    requires p != [] && q != [] && p[0] == q[0] && p[1..] == q[1..]
    ensures p == q
  {
    assert p == [p[0]] + p[1..] && q == [q[0]] + q[1..];
  }

  /** The root a non-empty path starts from, which has the path's end node below it. */
  lemma PathHead(t: Tree, p: seq<string>, n: Node) returns (i: nat)
    requires p != [] && PathTo(t, p, n)
    ensures i < |t| && t[i].id == p[0] && PathTo(Kids(t[i]), p[1..], n)
    ensures n.id in IdBag(Kids(t[i]))
  {
    var a :| a in t && a.id == p[0] && PathTo(Kids(a), p[1..], n);
    i :| 0 <= i < |t| && t[i] == a;
    PathListed(Kids(a), p[1..], n);
    ListedId(Kids(a), n);
  }

  /** In a well-formed forest only one root owns a given identifier. */
  lemma SameRoot(t: Tree, i: nat, k: nat, x: string)
    requires WellFormed(t) && i < |t| && k < |t|
    requires x in IdBag([t[i]]) && x in IdBag([t[k]])
    ensures i == k
  {
    if i != k {
      RootsDisjoint(t, i, k, x);
    }
  }

  /** In a well-formed forest no node at the end of a non-empty path shares a root's identifier. */
  lemma RootNotOnPath(t: Tree, q: seq<string>, m: Node, i: nat)
    requires WellFormed(t) && q != [] && PathTo(t, q, m) && i < |t|
    ensures t[i].id != m.id
  {
    var k := PathHead(t, q, m);
    FlattenMember(t, k);
    RootNotBelow(t, i, t[k]);
  }

  /**
   * In a well-formed forest `getPathToNode` returns exactly the path to the
   * node: for a root, the empty path.
   */
  lemma PathIsAncestors(t: Tree, p: seq<string>, n: Node)
    requires WellFormed(t) && PathTo(t, p, n) && n.id != ""
    ensures GetPathToNode(t, n.id) == p
  {
    PathListed(t, p, n);
    FindNodeUnique(t, n);
    GetPathToNodeSpec(t, n.id);
    PathUnique(t, GetPathToNode(t, n.id), p, n, n);
  }

  /** In a well-formed forest a node's own identifier is never among the identifiers expanded for it. */
  lemma ExpandedExcludesNode(t: Tree, n: Node)
    requires WellFormed(t) && n in Flatten(t) && n.id != ""
    ensures n.id !in GetExpandedForNode(t, n.id)
  {
    FindNodeUnique(t, n);
    GetPathToNodeSpec(t, n.id);
    var p := GetPathToNode(t, n.id);
    if n.id in p {
      var k :| 0 <= k < |p| && p[k] == n.id;
      var a := AncestorAt(t, p, n, k);
      ListedId(Kids(a), n);
      WellFormedBelow(t, a);
    }
  }

  /** Every listed node has a path. */
  lemma {:induction false} PathExists(t: Tree, n: Node) returns (path: seq<string>)
    requires n in Flatten(t)
    ensures PathTo(t, path, n)
  {
    var j := RootOf(t, n);
    assert t[j] in t;
    if n == t[j] {
      path := [];
    } else {
      var c := t[j].children.nodes;
      var rest := PathExists(c, n);
      path := [t[j].id] + rest;
      assert path[1..] == rest;
    }
  }

  /** A path to a node extended by that node's identifier is a path to each of its children. */
  lemma {:induction false} PathExtend(t: Tree, path: seq<string>, p: Node, c: Node)
    requires PathTo(t, path, p) && c in Kids(p)
    ensures PathTo(t, path + [p.id], c)
    decreases |path|
  {
    if path == [] {
      assert PathTo(Kids(p), [], c);
      assert ([] + [p.id])[1..] == [];
    } else {
      var a :| a in t && a.id == path[0] && PathTo(Kids(a), path[1..], p);
      PathExtend(Kids(a), path[1..], p, c);
      assert (path + [p.id])[1..] == path[1..] + [p.id];
    }
  }

  /** In a well-formed forest `findParentNode` returns the one parent of every non-root node. */
  lemma ParentUnique(t: Tree, p: Node, c: Node)
    requires WellFormed(t) && p in Flatten(t) && c in Kids(p) && c.id != ""
    ensures FindParentNode(t, c.id) == Some(p)
  {
    var k :| 0 <= k < |Kids(p)| && Kids(p)[k] == c;
    assert IdsOf(Kids(p))[k] == c.id;
    var q := FindParentNode(t, c.id).value;
    var k' :| 0 <= k' < |Kids(q)| && IdsOf(Kids(q))[k'] == c.id;
    var c' := Kids(q)[k'];
    var pathP := PathExists(t, p);
    var pathQ := PathExists(t, q);
    PathExtend(t, pathP, p, c);
    PathExtend(t, pathQ, q, c');
    PathUnique(t, pathP + [p.id], pathQ + [q.id], c, c');
    assert (pathP + [p.id])[|pathP|] == p.id;
    assert (pathQ + [q.id])[|pathQ|] == q.id;
    SameIdSameNode(t, p, q);
  }
}
