/**
 * `filterTree` and `searchTree` of `TreeUtils`.
 *
 * The filter runs in two passes. The first walks the forest with the path of
 * ancestor identifiers and collects the identifiers to keep: those of the
 * matching nodes and, with `keepPath`, those of every ancestor of a match.
 * The second keeps, level by level, the nodes whose identifier was collected,
 * and filters the children of the nodes it keeps. Identifiers are compared,
 * not nodes, exactly as the source's `Set` of identifiers does.
 */
module TreeFilter {
  import opened TreeNodes
  import opened Text

  /** What the first pass returns for a list: the identifiers collected and whether anything matched. */
  datatype Marks = Marks(keep: set<string>, found: bool)

  /** `identifyNodesToKeep(nodes, path)`. */
  function Identify(t: Tree, f: Node -> bool, keepPath: bool, path: seq<string>): Marks {
    if t == [] then Marks({}, false)
    else
      var n := t[0];
      var below := if n.children.Present? && |n.children.nodes| > 0
        then Identify(n.children.nodes, f, keepPath, path + [n.id]) else Marks({}, false);
      var matches := f(n);
      var here := below.keep + (if matches then {n.id} else {}) +
        (if keepPath && (matches || below.found) then set x | x in path else {});
      var rest := Identify(t[1..], f, keepPath, path);
      Marks(here + rest.keep, matches || below.found || rest.found)
  }

  /** `filterNodes`: keep the nodes whose identifier was collected, and filter their non-empty child lists. */
  function Prune(t: Tree, keep: set<string>): Tree {
    if t == [] then []
    else if t[0].id !in keep then Prune(t[1..], keep)
    else
      var n := t[0];
      var n' := if n.children.Present? && |n.children.nodes| > 0
        then n.(children := Present(Prune(n.children.nodes, keep))) else n;
      [n'] + Prune(t[1..], keep)
  }

  /** `filterTree(tree, filterFn, keepPath)`. */
  function FilterTree(t: Tree, f: Node -> bool, keepPath: bool): Tree {
    Prune(t, Identify(t, f, keepPath, []).keep)
  }

  /** `properties.some(prop => node[prop] && String(node[prop]).toLowerCase().includes(lowered))`. */
  predicate AnyProperty(n: Node, properties: seq<string>, lowered: string) {
    if properties == [] then false
    else
      var v := Prop(n, properties[0]);
      (v != "" && Includes(Lower(v), lowered)) || AnyProperty(n, properties[1..], lowered)
  }

  /** The `filterFn` of `searchTree`. */
  function SearchMatch(properties: seq<string>, lowered: string): Node -> bool {
    (n: Node) => AnyProperty(n, properties, lowered)
  }

  /** `searchTree(tree, searchText, properties, keepPath)`: empty text returns the input. */
  function SearchTree(t: Tree, text: string, properties: seq<string>, keepPath: bool): Tree {
    if text == "" then t else FilterTree(t, SearchMatch(properties, Lower(text)), keepPath)
  }

  // ------------------------------------------------------------ specification

  /** Some listed node passes `p`. */
  ghost predicate AnyWhere(t: Tree, p: Node -> bool) {
    exists n :: n in Flatten(t) && p(n)
  }

  /** The identifiers of the listed nodes that pass `p`. */
  ghost function IdsWhere(t: Tree, p: Node -> bool): set<string> {
    set n | n in Flatten(t) && p(n) :: n.id
  }

  /** The test "some node strictly below this one passes `f`". */
  ghost function HasMatchBelow(f: Node -> bool): Node -> bool {
    (n: Node) => AnyWhere(Kids(n), f)
  }

  // ------------------------------------------------------------ first pass

  lemma ListedCons(n: Node, rest: Tree, m: Node)
    ensures m in Flatten([n] + rest) <==> m == n || m in Flatten(Kids(n)) || m in Flatten(rest)
  {
    FlattenCons(n, rest);
  }

  lemma AnyWhereCons(n: Node, rest: Tree, p: Node -> bool)
    ensures AnyWhere([n] + rest, p) == (p(n) || AnyWhere(Kids(n), p) || AnyWhere(rest, p))
  {
    FlattenCons(n, rest);
    if AnyWhere([n] + rest, p) {
      var m :| m in Flatten([n] + rest) && p(m);
      ListedCons(n, rest, m);
    }
    if p(n) {
      ListedCons(n, rest, n);
    }
  }

  lemma IdsWhereCons(n: Node, rest: Tree, p: Node -> bool)
    ensures IdsWhere([n] + rest, p) ==
      (if p(n) then {n.id} else {}) + IdsWhere(Kids(n), p) + IdsWhere(rest, p)
  {
    FlattenCons(n, rest);
    forall x | x in IdsWhere([n] + rest, p)
      ensures x in (if p(n) then {n.id} else {}) + IdsWhere(Kids(n), p) + IdsWhere(rest, p)
    {
      var m :| m in Flatten([n] + rest) && p(m) && m.id == x;
      ListedCons(n, rest, m);
    }
    if p(n) {
      ListedCons(n, rest, n);
    }
  }

  /** A node without a non-empty child list has nothing below it. */
  lemma NothingBelow(n: Node, p: Node -> bool)
    requires !(n.children.Present? && |n.children.nodes| > 0)
    ensures !AnyWhere(Kids(n), p) && IdsWhere(Kids(n), p) == {}
  {
    assert Kids(n) == [];
  }

  /**
   * The first pass reports whether anything matched, and collects exactly the
   * identifiers of the matches and, with `keepPath`, those of their ancestors:
   * the ones below `t` and, when there is a match, the ones on `path`.
   */
  lemma {:induction false} IdentifySpec(t: Tree, f: Node -> bool, keepPath: bool, path: seq<string>)
    ensures Identify(t, f, keepPath, path).found == AnyWhere(t, f)
    ensures Identify(t, f, keepPath, path).keep == IdsWhere(t, f) +
      (if keepPath then IdsWhere(t, HasMatchBelow(f)) + (if AnyWhere(t, f) then set x | x in path else {}) else {})
  {
    if t != [] {
      var n, rest := t[0], t[1..];
      assert t == [n] + rest;
      var g := HasMatchBelow(f);
      var below := if n.children.Present? && |n.children.nodes| > 0
        then Identify(n.children.nodes, f, keepPath, path + [n.id]) else Marks({}, false);
      var r := Identify(rest, f, keepPath, path);
      var pathSet := set x | x in path;
      assert Identify(t, f, keepPath, path) == Marks(
        below.keep + (if f(n) then {n.id} else {}) +
          (if keepPath && (f(n) || below.found) then pathSet else {}) + r.keep,
        f(n) || below.found || r.found);
      if n.children.Present? && |n.children.nodes| > 0 {
        IdentifySpec(n.children.nodes, f, keepPath, path + [n.id]);
        assert (set x | x in path + [n.id]) == pathSet + {n.id};
      } else {
        NothingBelow(n, f);
        NothingBelow(n, g);
      }
      IdentifySpec(rest, f, keepPath, path);
      AnyWhereCons(n, rest, f);
      IdsWhereCons(n, rest, f);
      IdsWhereCons(n, rest, g);
      assert g(n) == AnyWhere(Kids(n), f);
      KeepAlgebra(below.keep, r.keep, {n.id}, pathSet, IdsWhere(Kids(n), f), IdsWhere(rest, f),
        IdsWhere(Kids(n), g), IdsWhere(rest, g), f(n), below.found, r.found, keepPath);
    }
  }

  /** The set algebra of one step of the first pass. */
  lemma KeepAlgebra(below: set<string>, rest: set<string>, here: set<string>, path: set<string>,
                    matchBelow: set<string>, matchRest: set<string>,
                    ancBelow: set<string>, ancRest: set<string>,
                    m: bool, bf: bool, rf: bool, keepPath: bool)
    requires below == matchBelow + (if keepPath then ancBelow + (if bf then path + here else {}) else {})
    requires rest == matchRest + (if keepPath then ancRest + (if rf then path else {}) else {})
    ensures below + (if m then here else {}) + (if keepPath && (m || bf) then path else {}) + rest ==
      ((if m then here else {}) + matchBelow + matchRest) +
      (if keepPath then ((if bf then here else {}) + ancBelow + ancRest) +
        (if m || bf || rf then path else {}) else {})
  {
  }

  // ------------------------------------------------------------ second pass

  /** Every identifier left by the second pass was collected. */
  lemma {:induction false} PruneKept(t: Tree, keep: set<string>)
    ensures IdSet(Prune(t, keep)) <= keep
  {
    if t != [] {
      var n := t[0];
      PruneKept(t[1..], keep);
      if n.id in keep {
        var n' := Prune(t, keep)[0];
        assert Prune(t, keep) == [n'] + Prune(t[1..], keep);
        if n.children.Present? && |n.children.nodes| > 0 {
          PruneKept(n.children.nodes, keep);
        }
        assert Kids(n') == [] || Kids(n') == Prune(n.children.nodes, keep);
        forall x | x in IdSet(Prune(t, keep)) ensures x in keep {
          var m :| m in Flatten([n'] + Prune(t[1..], keep)) && m.id == x;
          ListedCons(n', Prune(t[1..], keep), m);
        }
      }
    }
  }

  /** The roots of the second pass are the roots whose identifier was collected, in their order. */
  lemma {:induction false} PruneRoots(t: Tree, keep: set<string>)
    ensures IdsOf(Prune(t, keep)) == KeptIds(IdsOf(t), keep)
  {
    if t != [] {
      PruneRoots(t[1..], keep);
      assert IdsOf(t)[1..] == IdsOf(t[1..]);
    }
  }

  /** The identifiers of `s` that are in `keep`, in their order. */
  function KeptIds(s: seq<string>, keep: set<string>): seq<string> {
    if s == [] then [] else (if s[0] in keep then [s[0]] else []) + KeptIds(s[1..], keep)
  }

  /** The roots whose identifier was collected, in their order. */
  function KeptRoots(t: Tree, keep: set<string>): (r: Tree)
    ensures |r| <= |t|
    ensures forall n :: n in r <==> n in t && n.id in keep
  {
    if t == [] then [] else (if t[0].id in keep then [t[0]] else []) + KeptRoots(t[1..], keep)
  }

  /** A kept node as the second pass leaves it: its own fields, with a non-empty child list filtered. */
  function Trimmed(n: Node, keep: set<string>): (r: Node)
    ensures r.(children := n.children) == n
    ensures Kids(n) == [] ==> r == n
  {
    if n.children.Present? && |n.children.nodes| > 0
    then n.(children := Present(Prune(n.children.nodes, keep))) else n
  }

  /**
   * The second pass, level by level: the kept roots, in their order, each
   * with its own fields and its children filtered by the same pass.
   */
  lemma {:induction false} PruneLevel(t: Tree, keep: set<string>)
    ensures |Prune(t, keep)| == |KeptRoots(t, keep)|
    ensures forall i :: 0 <= i < |Prune(t, keep)| ==> Prune(t, keep)[i] == Trimmed(KeptRoots(t, keep)[i], keep)
  {
    if t != [] {
      PruneLevel(t[1..], keep);
      if t[0].id in keep {
        PruneHead(t, keep);
        var r, r', k, k' := Prune(t, keep), Prune(t[1..], keep), KeptRoots(t, keep), KeptRoots(t[1..], keep);
        forall i | 0 < i < |r| ensures r[i] == Trimmed(k[i], keep) {
          assert r[i] == r'[i - 1] && k[i] == k'[i - 1];
        }
      } else {
        assert KeptRoots(t, keep) == [] + KeptRoots(t[1..], keep);
      }
    }
  }

  lemma PruneHead(t: Tree, keep: set<string>)
    requires t != [] && t[0].id in keep
    ensures Prune(t, keep) == [Trimmed(t[0], keep)] + Prune(t[1..], keep)
    ensures KeptRoots(t, keep) == [t[0]] + KeptRoots(t[1..], keep)
  {
  }

  /**
   * When every match and every ancestor of a match was collected, every
   * match and every ancestor of a match survives the second pass.
   */
  lemma {:induction false} PruneSurvives(t: Tree, f: Node -> bool, keep: set<string>, m: Node)
    requires IdsWhere(t, f) + IdsWhere(t, HasMatchBelow(f)) <= keep
    requires m in Flatten(t) && (f(m) || HasMatchBelow(f)(m))
    ensures m.id in IdSet(Prune(t, keep))
  {
    var n, rest := t[0], t[1..];
    assert t == [n] + rest;
    var g := HasMatchBelow(f);
    IdsWhereCons(n, rest, f);
    IdsWhereCons(n, rest, g);
    ListedCons(n, rest, m);
    var r := Prune(t, keep);
    if m == n || m in Flatten(Kids(n)) {
      assert g(n) || f(n) by {
        if m != n {
          if f(m) {
          } else {
            var c :| c in Flatten(Kids(m)) && f(c);
            FlattenBelow(Kids(n), m, c);
          }
        }
      }
      assert n.id in keep;
      var n' := r[0];
      assert r == [n'] + Prune(rest, keep);
      ListedCons(n', Prune(rest, keep), n');
      if m != n {
        PruneSurvives(n.children.nodes, f, keep, m);
        assert Kids(n') == Prune(n.children.nodes, keep);
        var m' :| m' in Flatten(Kids(n')) && m'.id == m.id;
        ListedCons(n', Prune(rest, keep), m');
      }
    } else {
      PruneSurvives(rest, f, keep, m);
      var m' :| m' in Flatten(Prune(rest, keep)) && m'.id == m.id;
      if n.id in keep {
        var n' := r[0];
        assert r == [n'] + Prune(rest, keep);
        ListedCons(n', Prune(rest, keep), m');
      }
    }
  }

  // ------------------------------------------------------------ the filter

  /**
   * With `keepPath`, the identifiers left are exactly those of the matching
   * nodes and of every ancestor of a matching node.
   */
  lemma FilterKeepPath(t: Tree, f: Node -> bool)
    ensures IdSet(FilterTree(t, f, true)) == IdsWhere(t, f) + IdsWhere(t, HasMatchBelow(f))
  {
    var keep := Identify(t, f, true, []).keep;
    IdentifySpec(t, f, true, []);
    PruneKept(t, keep);
    forall x | x in IdsWhere(t, f) + IdsWhere(t, HasMatchBelow(f)) ensures x in IdSet(FilterTree(t, f, true)) {
      var m :| m in Flatten(t) && (f(m) || HasMatchBelow(f)(m)) && m.id == x;
      PruneSurvives(t, f, keep, m);
    }
  }

  /**
   * Without `keepPath`, only identifiers of matching nodes are left, and the
   * roots left are the roots with a matching identifier, in their order.
   */
  lemma FilterNoPath(t: Tree, f: Node -> bool)
    ensures IdSet(FilterTree(t, f, false)) <= IdsWhere(t, f)
    ensures IdsOf(FilterTree(t, f, false)) == KeptIds(IdsOf(t), IdsWhere(t, f))
  {
    IdentifySpec(t, f, false, []);
    assert Identify(t, f, false, []).keep == IdsWhere(t, f);
    PruneKept(t, IdsWhere(t, f));
    PruneRoots(t, IdsWhere(t, f));
  }

  /**
   * Without `keepPath` a match below a parent that does not match is dropped;
   * a kept folder whose children all fail is left with an empty child list.
   */
  lemma FilterDropsOrphans()
    ensures var f := (n: Node) => n.name == "match";
      var orphan := Node("c", "match", "file", map[], Absent);
      var stray := Node("c", "other", "file", map[], Absent);
      FilterTree([Node("p", "other", "folder", map[], Present([orphan]))], f, false) == [] &&
      FilterTree([Node("p", "match", "folder", map[], Present([stray]))], f, false) ==
        [Node("p", "match", "folder", map[], Present([]))]
  {
    var f := (n: Node) => n.name == "match";
    var orphan := Node("c", "match", "file", map[], Absent);
    var stray := Node("c", "other", "file", map[], Absent);
    assert "other" != "match" && "c" != "p";
    assert [] + ["p"] == ["p"];
    assert Identify([orphan], f, false, ["p"]) == Marks({"c"}, true);
    assert Identify([Node("p", "other", "folder", map[], Present([orphan]))], f, false, []).keep == {"c"};
    assert Identify([stray], f, false, ["p"]) == Marks({}, false);
    var q := Node("p", "match", "folder", map[], Present([stray]));
    assert f(q) && [q][1..] == [];
    var k := Identify([q], f, false, []).keep;
    assert k == {} + {"p"} + {} + {};
    assert Prune([stray], k) == [];
  }

  // ------------------------------------------------------------ search

  /**
   * A node matches the search when one of the listed properties is non-empty
   * and contains the text, ignoring case.
   */
  lemma {:induction false} SearchMatchSpec(n: Node, properties: seq<string>, text: string)
    ensures SearchMatch(properties, Lower(text))(n) <==>
      exists i, k :: 0 <= i < |properties| && Prop(n, properties[i]) != "" &&
        OccursAt(Lower(Prop(n, properties[i])), Lower(text), k)
  {
    if properties != [] {
      SearchMatchSpec(n, properties[1..], text);
      var v := Prop(n, properties[0]);
      if v != "" && Includes(Lower(v), Lower(text)) {
        var k := IndexOf(Lower(v), Lower(text));
        assert OccursAt(Lower(Prop(n, properties[0])), Lower(text), k);
      }
      if exists i, k ::
           0 <= i < |properties| && Prop(n, properties[i]) != "" &&
           OccursAt(Lower(Prop(n, properties[i])), Lower(text), k) {
        var i, k :| 0 <= i < |properties| && Prop(n, properties[i]) != "" &&
          OccursAt(Lower(Prop(n, properties[i])), Lower(text), k);
        if i > 0 {
          assert properties[1..][i - 1] == properties[i];
        }
      }
    }
  }

  /** A property holding the text in any mix of cases is found. */
  lemma SearchIgnoresCase(n: Node, properties: seq<string>, text: string, i: nat, k: nat, written: string)
    requires text != "" && i < |properties| && Lower(written) == Lower(text)
    requires OccursAt(Prop(n, properties[i]), written, k)
    ensures SearchMatch(properties, Lower(text))(n)
  {
    var v := Prop(n, properties[i]);
    LowerSlice(v, k, k + |written|);
    assert OccursAt(Lower(v), Lower(text), k);
    assert OccursAt(Lower(Prop(n, properties[i])), Lower(text), k);
    SearchMatchSpec(n, properties, text);
  }
}
