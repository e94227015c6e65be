/**
 * The rules the `TreeView` widget applies without touching its own state:
 * its lookups (which, unlike those of `TreeUtils`, also answer an empty
 * identifier), the descendant test and the drop rule used while dragging,
 * the choice of a drop target among the rows under the pointer, the
 * widget's own filter, the rows visible to keyboard navigation, and the
 * highlighting of a matched name.
 */
module ViewRules {
  import opened Wrappers
  import opened TreeNodes
  import opened TreeShape
  import opened TreeSearch
  import opened Text
  import TreeLookup
  import TreeMove

  // ---------------------------------------------------------------- lookups

  /** `findNodeById(id)`: the first node in pre-order whose identifier is `id`. */
  function NodeById(data: Tree, id: string): (r: Option<Node>)
    ensures r.Some? ==> r.value.id == id && r.value in Flatten(data)
    ensures r.None? <==> id !in Ids(data)
  {
    TreeLookup.FirstFound(data, IdIs(id));
    IdsMember(data, id);
    FindFirst(data, IdIs(id))
  }

  /** `findParentNode(id)`: the first node in pre-order with a direct child whose identifier is `id`. */
  function ParentById(data: Tree, id: string): (r: Option<Node>)
    ensures r.Some? ==> r.value in Flatten(data) && id in IdsOf(Kids(r.value))
    ensures r.None? <==> forall n :: n in Flatten(data) ==> id !in IdsOf(Kids(n))
  {
    TreeLookup.FirstFound(data, HasKidWithId(id));
    TreeLookup.KidWithId(id);
    FindFirst(data, HasKidWithId(id))
  }

  /**
   * `isNodeDescendant(node, id)`: some node strictly below `n` has
   * identifier `id`. A node without a child list has no descendants.
   */
  function IsNodeDescendant(n: Node, id: string): (r: bool)
    ensures r <==> id in Ids(Kids(n))
    decreases n, 1
  {
    match n.children
    case Absent => false
    case Present(c) => AnyDescendant(c, id)
  }

  /** The loop of `isNodeDescendant` over the children `s`: a child, or a node below one, has identifier `id`. */
  function AnyDescendant(s: seq<Node>, id: string): (r: bool)
    ensures r <==> id in Ids(s)
    decreases s, 0
  {
    if s == [] then false
    else
      IdsSplit(s, id);
      s[0].id == id || IsNodeDescendant(s[0], id) || AnyDescendant(s[1..], id)
  }

  /** An identifier occurs in a non-empty forest at its first root, below it, or in the other roots. */
  lemma IdsSplit(s: seq<Node>, x: string)
    requires s != []
    ensures x in Ids(s) <==> x == s[0].id || x in Ids(Kids(s[0])) || x in Ids(s[1..])
  {
    assert s == [s[0]] + s[1..];
    IdBagCons(s[0], s[1..]);
    assert x in Ids(s) <==> x in IdBag(s);
    assert x in Ids(Kids(s[0])) <==> x in IdBag(Kids(s[0]));
    assert x in Ids(s[1..]) <==> x in IdBag(s[1..]);
  }

  // ---------------------------------------------------------------- dropping

  /** `'before'`, `'after'` or `'inside'`. */
  datatype Position = Before | After | Inside

  /**
   * `canDrop(draggedNode, targetNode, position)`: not onto itself, not when
   * the dragged node lies below the target, and inside folders only.
   */
  function CanDrop(dragged: Node, target: Node, position: Position): (r: bool)
    ensures r <==> dragged.id != target.id && dragged.id !in Ids(Kids(target)) && (position == Inside ==> IsFolder(target))
  {
    if dragged.id == target.id then false
    else if IsNodeDescendant(target, dragged.id) then false
    else if position == Inside && !IsFolder(target) then false
    else true
  }

  /**
   * The descendant test runs from the target down, so it guards the wrong
   * pair: a child is refused anywhere around its own parent, while a node
   * may be dropped inside a folder that is its own child.
   */
  lemma CanDropLooksBelowTarget(p: Node, c: Node, position: Position)
    requires WellFormed([p]) && c in Kids(p) && IsFolder(c)
    ensures CanDrop(p, c, Inside)
    ensures !CanDrop(c, p, position)
  {
    var i :| 0 <= i < |Kids(p)| && Kids(p)[i] == c;
    FlattenMember(Kids(p), i);
    FlattenCons(p, []);
    assert c in Flatten([p]);
    RootNotBelow([p], 0, c);
    WellFormedBelow([p], p);
    ListedId(Kids(p), c);
    assert p.id !in Ids(Kids(c)) && c.id in Ids(Kids(p));
  }

  /**
   * A drop the widget accepts can destroy data: moving a node inside its own
   * child folder detaches the node and never reinserts it, so its whole
   * subtree leaves the forest.
   */
  lemma AcceptedDropLosesSubtree(t: Tree, p: Node, c: Node)
    requires WellFormed(t) && p in Flatten(t) && c in Kids(p) && IsFolder(c)
    requires p.id != "" && c.id != ""
    ensures CanDrop(p, c, Inside)
    ensures IdBag(TreeMove.MoveNode(t, p.id, c.id, "inside")) + IdBag([p]) == IdBag(t)
  {
    WellFormedBelow(t, p);
    assert WellFormed([p]) by {
      FlattenCons(p, []);
      assert Flatten([p]) == [p] + Flatten(Kids(p));
      NodeBag(p);
      WellFormedBag([p]);
    }
    CanDropLooksBelowTarget(p, c, Inside);
    TreeLookup.FindNodeUnique(t, p);
    var i :| 0 <= i < |Kids(p)| && Kids(p)[i] == c;
    FlattenMember(Kids(p), i);
    ListedId(Kids(p), c);
    NodeBag(p);
    TreeMove.MoveIntoOwnSubtree(t, p.id, c.id, "inside");
  }

  /** A row of the rendered list: the identifier on its item and its top and bottom edges. */
  datatype Row = Row(id: string, top: int, bottom: int)

  /** The result of `findDropTarget`: the node under the pointer and where it would go. */
  datatype Target = Target(node: Node, position: Position)

  /** The row takes the drop: the pointer is within it, edges included, and its identifier names a node. */
  predicate Takes(data: Tree, row: Row, y: int) {
    row.top <= y <= row.bottom && NodeById(data, row.id).Some?
  }

  /**
   * Where the pointer at height `y` falls in a row of height `h`: the top
   * third gives `Before`, the bottom third `After`, and the middle `Inside`
   * for a folder and `After` otherwise (`y < top + h/3` is `3*y < 3*top + h`).
   */
  function Band(row: Row, y: int, n: Node): Position {
    var h := row.bottom - row.top;
    if 3 * y < 3 * row.top + h then Before
    else if 3 * y > 3 * row.bottom - h then After
    else if IsFolder(n) then Inside
    else After
  }

  /** Row `i` is the first, top to bottom, to take the drop. */
  predicate FirstTaker(data: Tree, rows: seq<Row>, y: int, i: int) {
    0 <= i < |rows| && Takes(data, rows[i], y) && forall j :: 0 <= j < i ==> !Takes(data, rows[j], y)
  }

  /** `findDropTarget(x, y)`: the first row that takes the drop, and the band of it under the pointer. */
  function FindDropTarget(data: Tree, rows: seq<Row>, y: int): (r: Option<Target>)
    ensures r.None? <==> forall i :: 0 <= i < |rows| ==> !Takes(data, rows[i], y)
    ensures r.Some? ==> exists i :: (FirstTaker(data, rows, y, i) &&
      r.value.node == NodeById(data, rows[i].id).value && r.value.position == Band(rows[i], y, r.value.node))
  {
    var k := FindIndex(rows, (row: Row) => Takes(data, row, y));
    if k < 0 then None
    else
      var n := NodeById(data, rows[k].id).value;
      Some(Target(n, Band(rows[k], y, n)))
  }

  /** Top to bottom, the bands of a row come in the order before, inside, after. */
  function Rank(p: Position): int {
    match p
    case Before => 0
    case Inside => 1
    case After => 2
  }

  /**
   * Moving the pointer down a row never moves the drop position back up, and
   * only a folder offers `Inside`.
   */
  lemma BandOrdered(row: Row, y: int, y': int, n: Node)
    requires row.top <= row.bottom && y <= y'
    ensures Rank(Band(row, y, n)) <= Rank(Band(row, y', n))
    ensures Band(row, y, n) == Inside ==> IsFolder(n)
  {
  }

  // ---------------------------------------------------------------- filtering

  /**
   * A root of the widget's filtered list: the literal `true` that `filterNode`
   * returns for a node whose own name matches, or a node object.
   */
  datatype Entry = Matched | Item(node: Node)

  /** The node's lower-cased name contains the lower-cased filter text `q`. */
  predicate NameMatches(n: Node, q: string) {
    Includes(Lower(n.name), q)
  }

  /**
   * `filterNode` for the lower-cased filter text `q`, with `None` for `false`:
   * `true` when the name matches, otherwise a copy of a node with children
   * holding only those original children that pass.
   */
  function FilterNode(n: Node, q: string): Option<Entry>
    decreases n, 1
  {
    if NameMatches(n, q) then Some(Matched)
    else
      match n.children
      case Present(c) =>
        var passing := Passing(c, q);
        if |c| > 0 && |passing| > 0 then Some(Item(n.(children := Present(passing)))) else None
      case Absent => None
  }

  /** `node.children.filter(filterNode)`: the children that pass, unchanged and in order. */
  function Passing(s: seq<Node>, q: string): (r: seq<Node>)
    ensures forall c :: c in r ==> c in s
    decreases s, 0
  {
    if s == [] then []
    else (if FilterNode(s[0], q).Some? then [s[0]] else []) + Passing(s[1..], q)
  }

  /** `data.map(filterNode).filter(Boolean)`, for the lower-cased filter text `q`. */
  function Survivors(data: Tree, q: string): seq<Entry> {
    if data == [] then []
    else
      (match FilterNode(data[0], q) case Some(e) => [e] case None => []) + Survivors(data[1..], q)
  }

  /** The list the widget's `filterTree(text)` stores for a non-empty `text`. */
  function FilterEntries(data: Tree, text: string): seq<Entry> {
    Survivors(data, Lower(text))
  }

  /** Some node of the forest has a matching name. */
  ghost predicate Finds(t: Tree, q: string) {
    exists m :: m in Flatten(t) && NameMatches(m, q)
  }

  lemma FindsCons(n: Node, rest: Tree, q: string)
    ensures Finds([n] + rest, q) <==> NameMatches(n, q) || Finds(Kids(n), q) || Finds(rest, q)
  {
    FlattenCons(n, rest);
  }

  /** A node survives the filter exactly when its name, or a name below it, matches. */
  lemma {:induction false} FilterNodeFinds(n: Node, q: string)
    ensures FilterNode(n, q).Some? <==> Finds([n], q)
    decreases n, 1
  {
    FindsCons(n, [], q);
    assert [n] + [] == [n];
    assert !Finds([], q);
    if !NameMatches(n, q) && n.children.Present? {
      PassingFinds(n.children.nodes, q);
    }
  }

  /** Some child survives exactly when some name among the children or below them matches. */
  lemma {:induction false} PassingFinds(s: seq<Node>, q: string)
    ensures |Passing(s, q)| > 0 <==> Finds(s, q)
    decreases s, 0
  {
    if s != [] {
      assert s == [s[0]] + s[1..];
      FindsCons(s[0], s[1..], q);
      FindsCons(s[0], [], q);
      assert [s[0]] + [] == [s[0]];
      assert !Finds([], q);
      FilterNodeFinds(s[0], q);
      PassingFinds(s[1..], q);
    }
  }

  /** The filtered list is empty exactly when no name in the whole forest matches. */
  lemma {:induction false} SurvivorsEmpty(data: Tree, q: string)
    ensures Survivors(data, q) == [] <==> !Finds(data, q)
  {
    if data != [] {
      assert data == [data[0]] + data[1..];
      FindsCons(data[0], data[1..], q);
      FindsCons(data[0], [], q);
      assert [data[0]] + [] == [data[0]];
      assert !Finds([], q);
      FilterNodeFinds(data[0], q);
      SurvivorsEmpty(data[1..], q);
    }
  }

  /**
   * The filter prunes one level only: an entry's children are original
   * children of a root, kept whole with everything below them, and an entry
   * always has at least one child.
   */
  lemma {:induction false} SurvivorsKeepChildren(data: Tree, q: string)
    ensures forall e :: e in Survivors(data, q) && e.Item? ==>
      HasChildren(e.node) && exists n :: n in data && n.id == e.node.id && forall k :: k in Kids(e.node) ==> k in Kids(n)
  {
    if data != [] {
      SurvivorsKeepChildren(data[1..], q);
      var n := data[0];
      var rest := Survivors(data[1..], q);
      forall e | e in Survivors(data, q) && e.Item?
        ensures HasChildren(e.node) && exists m :: m in data && m.id == e.node.id && forall k :: k in Kids(e.node) ==> k in Kids(m)
      {
        if e in rest {
          var m :| m in data[1..] && m.id == e.node.id && forall k :: k in Kids(e.node) ==> k in Kids(m);
          assert m in data;
        } else {
          assert FilterNode(n, q) == Some(e);
          assert n in data;
        }
      }
    }
  }

  /** The identifiers of every node of the forest with a non-empty child list. */
  function ExpandIds(t: Tree): set<string> {
    set n | n in Flatten(t) && HasChildren(n) :: n.id
  }

  lemma ExpandIdsCons(n: Node, rest: Tree)
    ensures ExpandIds([n] + rest) == (if HasChildren(n) then {n.id} else {}) + ExpandIds(Kids(n)) + ExpandIds(rest)
  {
    FlattenCons(n, rest);
  }

  lemma ExpandIdsAppend(a: Tree, b: Tree)
    ensures ExpandIds(a + b) == ExpandIds(a) + ExpandIds(b)
  {
    FlattenAppend(a, b);
  }

  lemma ExpandIdsSnoc(t: Tree, i: nat)
    requires i < |t|
    ensures !HasChildren(t[i]) ==> ExpandIds(t[..i + 1]) == ExpandIds(t[..i])
    ensures HasChildren(t[i]) ==> ExpandIds(t[..i + 1]) == ExpandIds(t[..i]) + {t[i].id} + ExpandIds(t[i].children.nodes)
  {
    assert t[..i + 1] == t[..i] + [t[i]];
    ExpandIdsAppend(t[..i], [t[i]]);
    ExpandIdsCons(t[i], []);
    assert [t[i]] + [] == [t[i]];
    assert ExpandIds([]) == {};
  }

  /** What `expandFilteredNodes` adds for a filtered list: everything below each entry with children. */
  function FilteredIds(es: seq<Entry>): set<string> {
    if es == [] then {}
    else (match es[0] case Matched => {} case Item(n) => ExpandIds([n])) + FilteredIds(es[1..])
  }

  lemma FilteredIdsSnoc(es: seq<Entry>, i: nat)
    requires i < |es|
    ensures FilteredIds(es[..i + 1]) == FilteredIds(es[..i]) + (match es[i] case Matched => {} case Item(n) => ExpandIds([n]))
  {
    assert es[..i + 1] == es[..i] + [es[i]];
    FilteredIdsAppend(es[..i], [es[i]]);
  }

  lemma FilteredIdsAppend(a: seq<Entry>, b: seq<Entry>)
    ensures FilteredIds(a + b) == FilteredIds(a) + FilteredIds(b)
  {
    if a == [] {
      assert a + b == b;
    } else {
      assert (a + b)[0] == a[0];
      assert (a + b)[1..] == a[1..] + b;
      FilteredIdsAppend(a[1..], b);
    }
  }

  // ---------------------------------------------------------------- visible rows

  /** The rows below `n` when it is drawn open: its visible descendants when it has children and is expanded. */
  function Below(n: Node, expanded: set<string>): seq<Node>
    decreases n, 1
  {
    match n.children
    case Present(c) => if |c| > 0 && n.id in expanded then VisibleNodes(c, expanded) else []
    case Absent => []
  }

  /** `flattenVisibleNodes` over nodes: each node, followed by the rows below it. */
  function VisibleNodes(t: seq<Node>, expanded: set<string>): seq<Node>
    decreases t, 0
  {
    if t == [] then [] else [t[0]] + Below(t[0], expanded) + VisibleNodes(t[1..], expanded)
  }

  /** Nodes as entries of a row list. */
  function Items(t: seq<Node>): (r: seq<Entry>)
    ensures |r| == |t| && forall i :: 0 <= i < |t| ==> r[i] == Item(t[i])
  {
    if t == [] then [] else [Item(t[0])] + Items(t[1..])
  }

  /** The rows one entry contributes: a `true` entry is one row with nothing below it. */
  function EntryRows(e: Entry, expanded: set<string>): seq<Entry> {
    match e
    case Matched => [Matched]
    case Item(n) => [Item(n)] + Items(Below(n, expanded))
  }

  /** `flattenVisibleNodes` over a filtered list. */
  function Rows(es: seq<Entry>, expanded: set<string>): seq<Entry> {
    if es == [] then [] else EntryRows(es[0], expanded) + Rows(es[1..], expanded)
  }

  lemma ItemsAppend(a: seq<Node>, b: seq<Node>)
    ensures Items(a + b) == Items(a) + Items(b)
  {
  }

  lemma {:induction false} VisibleAppend(a: seq<Node>, b: seq<Node>, expanded: set<string>)
    ensures VisibleNodes(a + b, expanded) == VisibleNodes(a, expanded) + VisibleNodes(b, expanded)
  {
    if a == [] {
      assert a + b == b;
    } else {
      assert (a + b)[0] == a[0];
      assert (a + b)[1..] == a[1..] + b;
      VisibleAppend(a[1..], b, expanded);
    }
  }

  lemma {:induction false} RowsAppend(a: seq<Entry>, b: seq<Entry>, expanded: set<string>)
    ensures Rows(a + b, expanded) == Rows(a, expanded) + Rows(b, expanded)
  {
    if a == [] {
      assert a + b == b;
    } else {
      assert (a + b)[0] == a[0];
      assert (a + b)[1..] == a[1..] + b;
      RowsAppend(a[1..], b, expanded);
    }
  }

  lemma VisibleSnoc(t: seq<Node>, i: nat, expanded: set<string>)
    requires i < |t|
    ensures VisibleNodes(t[..i + 1], expanded) == VisibleNodes(t[..i], expanded) + [t[i]] + Below(t[i], expanded)
  {
    assert t[..i + 1] == t[..i] + [t[i]];
    VisibleAppend(t[..i], [t[i]], expanded);
    assert VisibleNodes([t[i]], expanded) == [t[i]] + Below(t[i], expanded) + VisibleNodes([], expanded);
  }

  lemma RowsSnoc(es: seq<Entry>, i: nat, expanded: set<string>)
    requires i < |es|
    ensures Rows(es[..i + 1], expanded) == Rows(es[..i], expanded) + EntryRows(es[i], expanded)
  {
    assert es[..i + 1] == es[..i] + [es[i]];
    RowsAppend(es[..i], [es[i]], expanded);
    assert Rows([es[i]], expanded) == EntryRows(es[i], expanded) + Rows([], expanded);
  }

  /** Without a filter the rows are the visible nodes themselves. */
  lemma {:induction false} RowsOfItems(t: seq<Node>, expanded: set<string>)
    ensures Rows(Items(t), expanded) == Items(VisibleNodes(t, expanded))
  {
    if t != [] {
      assert Items(t)[1..] == Items(t[1..]);
      RowsOfItems(t[1..], expanded);
      ItemsAppend([t[0]] + Below(t[0], expanded), VisibleNodes(t[1..], expanded));
      ItemsAppend([t[0]], Below(t[0], expanded));
    }
  }

  /** With nothing expanded only the roots are visible. */
  lemma {:induction false} VisibleCollapsed(t: seq<Node>)
    ensures VisibleNodes(t, {}) == t
  {
    if t != [] {
      VisibleCollapsed(t[1..]);
      assert t == [t[0]] + t[1..];
    }
  }

  /** Every visible row is a node of the forest. */
  lemma {:induction false} VisibleListed(t: seq<Node>, expanded: set<string>)
    ensures forall m :: m in VisibleNodes(t, expanded) ==> m in Flatten(t)
  {
    if t != [] {
      assert t == [t[0]] + t[1..];
      FlattenCons(t[0], t[1..]);
      VisibleListed(t[1..], expanded);
      if t[0].children.Present? {
        VisibleListed(t[0].children.nodes, expanded);
      }
    }
  }

  /** With every node that has children expanded, the visible rows are the whole forest in pre-order. */
  lemma {:induction false} VisibleAllExpanded(t: seq<Node>, expanded: set<string>)
    requires ExpandIds(t) <= expanded
    ensures VisibleNodes(t, expanded) == Flatten(t)
  {
    if t != [] {
      assert t == [t[0]] + t[1..];
      ExpandIdsCons(t[0], t[1..]);
      FlattenCons(t[0], t[1..]);
      VisibleAllExpanded(t[1..], expanded);
      if t[0].children.Present? {
        VisibleAllExpanded(t[0].children.nodes, expanded);
      }
    }
  }

  /** A root is visible, and so is whatever is visible below it once it is open. */
  lemma {:induction false} VisibleRoot(t: seq<Node>, a: Node, expanded: set<string>)
    requires a in t
    ensures a in VisibleNodes(t, expanded)
    ensures forall m :: m in Below(a, expanded) ==> m in VisibleNodes(t, expanded)
  {
    if t[0] != a {
      assert a in t[1..];
      VisibleRoot(t[1..], a, expanded);
    }
  }

  /** A node is visible once every identifier on its path from the root is expanded. */
  lemma {:induction false} VisibleAlongPath(t: seq<Node>, path: seq<string>, n: Node, expanded: set<string>)
    requires TreeLookup.PathTo(t, path, n)
    requires forall x :: x in path ==> x in expanded
    ensures n in VisibleNodes(t, expanded)
    decreases |path|
  {
    if path == [] {
      VisibleRoot(t, n, expanded);
    } else {
      var a :| a in t && a.id == path[0] && TreeLookup.PathTo(Kids(a), path[1..], n);
      VisibleAlongPath(Kids(a), path[1..], n, expanded);
      assert HasChildren(a);
      VisibleRoot(t, a, expanded);
    }
  }

  /**
   * `getExpandedForNode` does its job: with its identifiers expanded, the
   * node it was asked about is among the visible rows.
   */
  lemma ExpandedForNodeShows(t: Tree, id: string, expanded: set<string>)
    requires TreeLookup.FindNodeById(t, id).Some?
    requires TreeLookup.GetExpandedForNode(t, id) <= expanded
    ensures TreeLookup.FindNodeById(t, id).value in VisibleNodes(t, expanded)
  {
    TreeLookup.GetPathToNodeSpec(t, id);
    VisibleAlongPath(t, TreeLookup.GetPathToNode(t, id), TreeLookup.FindNodeById(t, id).value, expanded);
  }

  // ---------------------------------------------------------------- highlighting

  const HighlightOpen: string := "<span class=\"tree-view-highlight\">"
  const HighlightClose: string := "</span>"

  /**
   * `highlightText(text, highlight)`: the first case-insensitive occurrence
   * of `highlight` in `text`, wrapped in a highlight span.
   */
  function HighlightText(text: string, highlight: string): string {
    if highlight == "" then text
    else
      var index := IndexOf(Lower(text), Lower(highlight));
      if index == -1 then text
      else text[..index] + HighlightOpen + text[index..index + |highlight|] + HighlightClose + text[index + |highlight|..]
  }

  /** The text comes back as it was exactly when there is nothing to highlight. */
  lemma HighlightUnchanged(text: string, highlight: string)
    ensures HighlightText(text, highlight) == text <==> highlight == "" || !Includes(Lower(text), Lower(highlight))
  {
    if highlight != "" && Includes(Lower(text), Lower(highlight)) {
      assert |HighlightText(text, highlight)| > |text|;
    }
  }

  /** `highlight` occurs in `text` at position `i`, up to case. */
  predicate MatchesAt(text: string, highlight: string, i: int) {
    0 <= i <= |text| - |highlight| && Lower(text[i..i + |highlight|]) == Lower(highlight)
  }

  /**
   * When there is a match, the span wraps the earliest stretch `i` of `text`
   * that equals `highlight` up to case, and the text around it is kept.
   */
  lemma HighlightWraps(text: string, highlight: string) returns (i: int)
    requires highlight != "" && Includes(Lower(text), Lower(highlight))
    ensures MatchesAt(text, highlight, i)
    ensures forall j :: 0 <= j < i ==> !MatchesAt(text, highlight, j)
    ensures HighlightText(text, highlight) == text[..i] + HighlightOpen + text[i..i + |highlight|] + HighlightClose + text[i + |highlight|..]
  {
    i := IndexOf(Lower(text), Lower(highlight));
    LowerSlice(text, i, i + |highlight|);
    forall j | 0 <= j < i ensures !MatchesAt(text, highlight, j) {
      LowerSlice(text, j, j + |highlight|);
      assert !OccursAt(Lower(text), Lower(highlight), j);
    }
  }
}
