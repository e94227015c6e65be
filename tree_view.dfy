/**
 * The `TreeView` widget: its state (the forest shown, the selected
 * identifier, the set of expanded identifiers, the filter text and the
 * filtered list, the drag state) and the handlers that change it.
 *
 * Each handler is specified by a function from the state before to the
 * state after together with the callbacks it makes (`onSelect`, `onToggle`,
 * `onDrop`), which the class appends to its `events` log. The lemmas after
 * those functions state what each handler promises. What the handlers draw
 * is left out; where drawing decides what happens, the relevant part of the
 * page is a parameter (the identifiers whose items and child containers are
 * on the page, the rows under the pointer, what a press landed on).
 */
module TreeWidget {
  import opened Wrappers
  import opened TreeNodes
  import opened TreeSearch
  import opened ViewRules
  import opened Text

  /** `dragState`: whether a drag is on, the node dragged, and the drop recorded so far. */
  datatype DragState = DragState(isDragging: bool, draggedNode: Option<Node>, dropTarget: Option<Node>, dropPosition: Option<Position>)

  /** The drag state the constructor sets and `handleDragEnd` restores. */
  const Idle: DragState := DragState(false, None, None, None)

  /** A dragged node exactly while dragging, and a target and position together, only while dragging. */
  predicate DragValid(d: DragState) {
    (d.isDragging <==> d.draggedNode.Some?) &&
    (d.dropTarget.Some? <==> d.dropPosition.Some?) &&
    (!d.isDragging ==> d.dropTarget.None?)
  }

  /** A callback: `onSelect(node)`, `onToggle(node, expanded)` or `onDrop(dragged, target, position)`. */
  datatype Event = Selected(node: Node) | Toggled(node: Node, expanded: bool) | Dropped(dragged: Node, target: Node, position: Position)

  /** The keys `handleKeyDown` tells apart. */
  datatype Key = ArrowUp | ArrowDown | ArrowRight | ArrowLeft | Enter | Space | OtherKey

  /** A mouse press: the identifier on the row it landed in (`None` outside every row) and whether it hit a button or the toggle. */
  datatype Press = Press(row: Option<string>, onControl: bool)

  /** The widget's state apart from its configuration and the callback log. */
  datatype ViewState = ViewState(
    data: Tree,
    selectedNode: Option<string>,
    expandedNodes: set<string>,
    filterText: string,
    filteredData: Option<seq<Entry>>,
    dragState: DragState)

  /** A handler's effect: the state after it and the callbacks it made, in order. */
  datatype Outcome = Outcome(state: ViewState, emitted: seq<Event>)

  /** `this.selectedNode` is truthy. */
  predicate HasSelection(s: ViewState) {
    s.selectedNode.Some? && s.selectedNode.value != ""
  }

  /** `getVisibleNodes`: the rows of the filtered list when there is one, of the forest otherwise. */
  function VisibleRows(s: ViewState): seq<Entry> {
    Rows(match s.filteredData case Some(f) => f case None => Items(s.data), s.expandedNodes)
  }

  /** The test `node.id === id` on a row; a `true` row has no identifier. */
  function RowIs(id: string): Entry -> bool {
    (e: Entry) => e.Item? && e.node.id == id
  }

  // ---------------------------------------------------------------- handlers

  /** `selectNode(id)`. */
  function SelectSpec(s: ViewState, id: string): Outcome {
    match NodeById(s.data, id)
    case None => Outcome(s, [])
    case Some(n) => Outcome(s.(selectedNode := Some(id)), [Selected(n)])
  }

  /** `selectNode(row.id)`: for a `true` row the lookup throws and nothing changes. */
  function SelectRow(s: ViewState, e: Entry): Outcome {
    match e
    case Matched => Outcome(s, [])
    case Item(n) => SelectSpec(s, n.id)
  }

  /**
   * `toggleNode(id)`, where `rendered` holds the identifiers whose item and
   * child container are on the page: the callback is made only for those.
   */
  function ToggleSpec(s: ViewState, id: string, rendered: set<string>): Outcome {
    var wasExpanded := id in s.expandedNodes;
    var s' := s.(expandedNodes := if wasExpanded then s.expandedNodes - {id} else s.expandedNodes + {id});
    if id !in rendered then Outcome(s', [])
    else
      match NodeById(s.data, id)
      case None => Outcome(s', [])
      case Some(n) => Outcome(s', [Toggled(n, !wasExpanded)])
  }

  /** `selectNextNode`. */
  function NextSpec(s: ViewState): Outcome {
    var rows := VisibleRows(s);
    if !HasSelection(s) then
      if |rows| > 0 then SelectRow(s, rows[0]) else Outcome(s, [])
    else
      var k := FindIndex(rows, RowIs(s.selectedNode.value));
      if k < |rows| - 1 then SelectRow(s, rows[k + 1]) else Outcome(s, [])
  }

  /** `selectPreviousNode`. */
  function PrevSpec(s: ViewState): Outcome {
    var rows := VisibleRows(s);
    if !HasSelection(s) then
      if |rows| > 0 then SelectRow(s, rows[|rows| - 1]) else Outcome(s, [])
    else
      var k := FindIndex(rows, RowIs(s.selectedNode.value));
      if k > 0 then SelectRow(s, rows[k - 1]) else Outcome(s, [])
  }

  /** `handleKeyDown(e)` for the key `key`. */
  function KeySpec(s: ViewState, key: Key, rendered: set<string>): Outcome {
    if !HasSelection(s) then Outcome(s, [])
    else
      match NodeById(s.data, s.selectedNode.value)
      case None => Outcome(s, [])
      case Some(node) =>
        match key
        case ArrowUp => PrevSpec(s)
        case ArrowDown => NextSpec(s)
        case ArrowRight =>
          if !HasChildren(node) then Outcome(s, [])
          else if node.id !in s.expandedNodes then ToggleSpec(s, node.id, rendered)
          else SelectSpec(s, Kids(node)[0].id)
        case ArrowLeft =>
          if node.id in s.expandedNodes then ToggleSpec(s, node.id, rendered)
          else (
            match ParentById(s.data, node.id)
            case Some(p) => SelectSpec(s, p.id)
            case None => Outcome(s, []))
        case Enter => Outcome(s, [Selected(node)])
        case Space => if HasChildren(node) then ToggleSpec(s, node.id, rendered) else Outcome(s, [])
        case OtherKey => Outcome(s, [])
  }

  /** `handleDragStart(e)`, with `dragEnabled` the widget's option. */
  function DragStartSpec(s: ViewState, press: Press, dragEnabled: bool): Outcome {
    if !dragEnabled || press.row.None? || press.onControl then Outcome(s, [])
    else
      match NodeById(s.data, press.row.value)
      case None => Outcome(s, [])
      case Some(n) =>
        SelectSpec(s.(dragState := s.dragState.(isDragging := true, draggedNode := Some(n))), press.row.value)
  }

  /**
   * `handleDragMove(e)` with the pointer at height `y` over `rows`. Without a
   * dragged node `canDrop` would throw, which leaves the state as it was.
   */
  function DragMoveSpec(s: ViewState, rows: seq<Row>, y: int): Outcome {
    var d := s.dragState;
    if !d.isDragging then Outcome(s, [])
    else
      match FindDropTarget(s.data, rows, y)
      case None => Outcome(s, [])
      case Some(t) =>
        if d.draggedNode.Some? && CanDrop(d.draggedNode.value, t.node, t.position)
        then Outcome(s.(dragState := d.(dropTarget := Some(t.node), dropPosition := Some(t.position))), [])
        else Outcome(s, [])
  }

  /** `handleDragEnd(e)`. */
  function DragEndSpec(s: ViewState): Outcome {
    var d := s.dragState;
    if !d.isDragging then Outcome(s, [])
    else
      var drop := if d.draggedNode.Some? && d.dropTarget.Some? && d.dropPosition.Some?
        then [Dropped(d.draggedNode.value, d.dropTarget.value, d.dropPosition.value)] else [];
      Outcome(s.(dragState := Idle), drop)
  }

  /** `filterTree(text)`. */
  function FilterSpec(s: ViewState, text: string): ViewState {
    if text == "" then s.(filteredData := None)
    else
      var f := FilterEntries(s.data, text);
      s.(filteredData := Some(f), expandedNodes := s.expandedNodes + FilteredIds(f))
  }

  /** The filtered list with every entry opened up: a `true` row, or an entry and everything below it in pre-order. */
  function Spread(es: seq<Entry>): seq<Entry> {
    if es == [] then []
    else (match es[0] case Matched => [Matched] case Item(n) => Items(Flatten([n]))) + Spread(es[1..])
  }

  // ---------------------------------------------------------------- what the handlers promise

  /**
   * `selectNode` changes the selection and nothing else, and only for an
   * identifier in the forest, reporting a node with that identifier.
   */
  lemma SelectMeaning(s: ViewState, id: string)
    ensures SelectSpec(s, id).state.(selectedNode := s.selectedNode) == s
    ensures SelectSpec(s, id).emitted == [] <==> id !in Ids(s.data)
    ensures SelectSpec(s, id).state == s || SelectSpec(s, id).state.selectedNode == Some(id)
    ensures forall e :: e in SelectSpec(s, id).emitted ==> e.Selected? && e.node.id == id && e.node in Flatten(s.data)
  {
  }

  /**
   * `toggleNode` flips the one identifier and changes nothing else; it
   * reports the new expansion of a node with that identifier when that node
   * is on the page.
   */
  lemma ToggleFlips(s: ViewState, id: string, rendered: set<string>)
    ensures var o := ToggleSpec(s, id, rendered);
      o.state.(expandedNodes := s.expandedNodes) == s &&
      (forall x :: x in o.state.expandedNodes <==> (if x == id then x !in s.expandedNodes else x in s.expandedNodes)) &&
      (o.emitted != [] <==> id in rendered && id in Ids(s.data)) &&
      (forall e :: e in o.emitted ==> e.Toggled? && e.node.id == id && e.expanded == (id in o.state.expandedNodes))
  {
  }

  /** Toggling twice restores the expanded set. */
  lemma ToggleTwice(s: ViewState, id: string, rendered: set<string>, rendered': set<string>)
    ensures ToggleSpec(ToggleSpec(s, id, rendered).state, id, rendered').state == s
  {
    var e := ToggleSpec(ToggleSpec(s, id, rendered).state, id, rendered').state.expandedNodes;
    assert forall x :: x in e <==> x in s.expandedNodes;
  }

  /** A row selection changes only the selection, and only to the identifier of that row. */
  lemma SelectRowMeaning(s: ViewState, e: Entry)
    ensures SelectRow(s, e).state.(selectedNode := s.selectedNode) == s
    ensures SelectRow(s, e).state.selectedNode != s.selectedNode ==> e.Item? && SelectRow(s, e).state.selectedNode == Some(e.node.id)
  {
  }

  /** Down changes only the selection, and only ever to the identifier of a visible row. */
  lemma NextSelectsVisibleRow(s: ViewState)
    ensures NextSpec(s).state.(selectedNode := s.selectedNode) == s
    ensures NextSpec(s).state.selectedNode != s.selectedNode ==>
      exists i :: 0 <= i < |VisibleRows(s)| && VisibleRows(s)[i].Item? && NextSpec(s).state.selectedNode == Some(VisibleRows(s)[i].node.id)
  {
    var rows := VisibleRows(s);
    if HasSelection(s) {
      var k := FindIndex(rows, RowIs(s.selectedNode.value));
      if k < |rows| - 1 {
        SelectRowMeaning(s, rows[k + 1]);
      }
    } else if |rows| > 0 {
      SelectRowMeaning(s, rows[0]);
    }
  }

  /** Up changes only the selection, and only ever to the identifier of a visible row. */
  lemma PrevSelectsVisibleRow(s: ViewState)
    ensures PrevSpec(s).state.(selectedNode := s.selectedNode) == s
    ensures PrevSpec(s).state.selectedNode != s.selectedNode ==>
      exists i :: 0 <= i < |VisibleRows(s)| && VisibleRows(s)[i].Item? && PrevSpec(s).state.selectedNode == Some(VisibleRows(s)[i].node.id)
  {
    var rows := VisibleRows(s);
    if HasSelection(s) {
      var k := FindIndex(rows, RowIs(s.selectedNode.value));
      if k > 0 {
        SelectRowMeaning(s, rows[k - 1]);
      }
    } else if |rows| > 0 {
      SelectRowMeaning(s, rows[|rows| - 1]);
    }
  }

  /**
   * From the first row showing the selected identifier, Down selects the
   * row after it and Up the row before it; there is no wrap-around at either
   * end.
   */
  lemma StepsFromRow(s: ViewState, k: int)
    requires HasSelection(s) && 0 <= k < |VisibleRows(s)|
    requires RowIs(s.selectedNode.value)(VisibleRows(s)[k])
    requires forall j :: 0 <= j < k ==> !RowIs(s.selectedNode.value)(VisibleRows(s)[j])
    ensures k + 1 < |VisibleRows(s)| ==> NextSpec(s) == SelectRow(s, VisibleRows(s)[k + 1])
    ensures k + 1 == |VisibleRows(s)| ==> NextSpec(s) == Outcome(s, [])
    ensures k > 0 ==> PrevSpec(s) == SelectRow(s, VisibleRows(s)[k - 1])
    ensures k == 0 ==> PrevSpec(s) == Outcome(s, [])
  {
    var i := FindIndex(VisibleRows(s), RowIs(s.selectedNode.value));
    assert i == k;
  }

  /**
   * When the selected identifier is on no visible row (collapsed away or
   * filtered out), Down jumps to the first row and Up does nothing.
   */
  lemma StepsFromHiddenSelection(s: ViewState)
    requires HasSelection(s)
    requires forall j :: 0 <= j < |VisibleRows(s)| ==> !RowIs(s.selectedNode.value)(VisibleRows(s)[j])
    ensures |VisibleRows(s)| > 0 ==> NextSpec(s) == SelectRow(s, VisibleRows(s)[0])
    ensures PrevSpec(s) == Outcome(s, [])
  {
  }

  /** Every key is ignored unless the selected identifier is truthy and names a node of the forest. */
  lemma KeysNeedSelection(s: ViewState, key: Key, rendered: set<string>)
    requires !HasSelection(s) || s.selectedNode.value !in Ids(s.data)
    ensures KeySpec(s, key, rendered) == Outcome(s, [])
  {
  }

  /** The first child of a listed node is listed, so selecting it always succeeds. */
  lemma FirstChildListed(data: Tree, n: Node)
    requires n in Flatten(data) && HasChildren(n)
    ensures Kids(n)[0].id in Ids(data)
  {
    FlattenMember(Kids(n), 0);
    FlattenBelow(data, n, Kids(n)[0]);
    IdsMember(data, Kids(n)[0].id);
  }

  /** Right opens a closed parent, moves into an open one, and does nothing on a leaf. */
  lemma KeyRight(s: ViewState, rendered: set<string>)
    requires HasSelection(s) && s.selectedNode.value in Ids(s.data)
    ensures var n := NodeById(s.data, s.selectedNode.value).value;
      && (HasChildren(n) && n.id !in s.expandedNodes ==>
           KeySpec(s, ArrowRight, rendered).state == s.(expandedNodes := s.expandedNodes + {n.id}))
      && (HasChildren(n) && n.id in s.expandedNodes ==>
           KeySpec(s, ArrowRight, rendered).state == s.(selectedNode := Some(Kids(n)[0].id)))
      && (!HasChildren(n) ==> KeySpec(s, ArrowRight, rendered) == Outcome(s, []))
  {
    var n := NodeById(s.data, s.selectedNode.value).value;
    if HasChildren(n) {
      FirstChildListed(s.data, n);
    }
  }

  /** Left closes an open node, otherwise moves to the parent, and does nothing on a closed root. */
  lemma KeyLeft(s: ViewState, rendered: set<string>)
    requires HasSelection(s) && s.selectedNode.value in Ids(s.data)
    ensures var n := NodeById(s.data, s.selectedNode.value).value;
      && (n.id in s.expandedNodes ==>
           KeySpec(s, ArrowLeft, rendered).state == s.(expandedNodes := s.expandedNodes - {n.id}))
      && (n.id !in s.expandedNodes && ParentById(s.data, n.id).Some? ==>
           KeySpec(s, ArrowLeft, rendered).state == s.(selectedNode := Some(ParentById(s.data, n.id).value.id)))
      && (n.id !in s.expandedNodes && ParentById(s.data, n.id).None? ==> KeySpec(s, ArrowLeft, rendered) == Outcome(s, []))
  {
    var n := NodeById(s.data, s.selectedNode.value).value;
    var o := KeySpec(s, ArrowLeft, rendered);
    if n.id in s.expandedNodes {
      assert o == ToggleSpec(s, n.id, rendered);
    } else {
      match ParentById(s.data, n.id)
      case Some(p) =>
        IdsMember(s.data, p.id);
        assert o == SelectSpec(s, p.id);
      case None =>
    }
  }

  /** Enter reports the selected node, Space flips a parent, and other keys do nothing. */
  lemma KeyOthers(s: ViewState, rendered: set<string>)
    requires HasSelection(s) && s.selectedNode.value in Ids(s.data)
    ensures var n := NodeById(s.data, s.selectedNode.value).value;
      && n.id == s.selectedNode.value
      && KeySpec(s, Enter, rendered) == Outcome(s, [Selected(n)])
      && KeySpec(s, Space, rendered) == (if HasChildren(n) then ToggleSpec(s, n.id, rendered) else Outcome(s, []))
      && KeySpec(s, OtherKey, rendered) == Outcome(s, [])
  {
  }

  /** The three drag handlers keep the drag state consistent. */
  lemma DragStaysValid(s: ViewState, press: Press, dragEnabled: bool, rows: seq<Row>, y: int)
    requires DragValid(s.dragState)
    ensures DragValid(DragStartSpec(s, press, dragEnabled).state.dragState)
    ensures DragValid(DragMoveSpec(s, rows, y).state.dragState)
    ensures DragValid(DragEndSpec(s).state.dragState)
  {
  }

  /** Keys and the filter leave the drag state alone. */
  lemma OthersKeepDrag(s: ViewState, key: Key, rendered: set<string>, text: string)
    ensures KeySpec(s, key, rendered).state.dragState == s.dragState
    ensures FilterSpec(s, text).dragState == s.dragState
  {
    match key
    case ArrowUp => PrevSelectsVisibleRow(s);
    case ArrowDown => NextSelectsVisibleRow(s);
    case _ =>
  }

  /**
   * A press starts a drag exactly when dragging is enabled and the press is
   * on a row, off its controls, whose identifier names a node; the drag
   * selects that node.
   */
  lemma DragStartBegins(s: ViewState, press: Press, dragEnabled: bool)
    requires !s.dragState.isDragging
    ensures var o := DragStartSpec(s, press, dragEnabled);
      (o.state.dragState.isDragging <==>
        dragEnabled && press.row.Some? && !press.onControl && press.row.value in Ids(s.data)) &&
      (o.state.dragState.isDragging ==>
        o.state.dragState.draggedNode.value.id == press.row.value &&
        o.state.selectedNode == press.row &&
        o.emitted == [Selected(o.state.dragState.draggedNode.value)])
  {
  }

  /**
   * A move records a drop only for the first row under the pointer and only
   * when `canDrop` allows it; it never touches anything but the drop fields.
   */
  lemma DragMoveRecords(s: ViewState, rows: seq<Row>, y: int)
    ensures var o := DragMoveSpec(s, rows, y); var d := s.dragState; var d' := o.state.dragState;
      o.emitted == [] &&
      o.state.(dragState := d) == s &&
      d'.(dropTarget := d.dropTarget, dropPosition := d.dropPosition) == d &&
      (d' != d ==>
        d.isDragging && FindDropTarget(s.data, rows, y) == Some(Target(d'.dropTarget.value, d'.dropPosition.value)) &&
        CanDrop(d.draggedNode.value, d'.dropTarget.value, d'.dropPosition.value))
  {
  }

  /**
   * A move that finds no row, or one `canDrop` refuses, keeps the drop
   * recorded earlier, so releasing there still drops on the old target.
   */
  lemma StaleDropSurvives(s: ViewState, rows: seq<Row>, y: int)
    requires DragValid(s.dragState) && s.dragState.dropTarget.Some?
    requires FindDropTarget(s.data, rows, y).None?
    ensures var d := s.dragState;
      DragEndSpec(DragMoveSpec(s, rows, y).state).emitted == [Dropped(d.draggedNode.value, d.dropTarget.value, d.dropPosition.value)]
  {
  }

  /**
   * A release ends the drag, resetting the drag state, and calls `onDrop`
   * exactly when a drop was recorded; outside a drag it does nothing.
   */
  lemma DragEndFinishes(s: ViewState)
    requires DragValid(s.dragState)
    ensures var o := DragEndSpec(s); var d := s.dragState;
      (!d.isDragging ==> o == Outcome(s, [])) &&
      (d.isDragging ==> o.state == s.(dragState := Idle)) &&
      (o.emitted != [] <==> d.dropTarget.Some?) &&
      (o.emitted != [] ==> o.emitted == [Dropped(d.draggedNode.value, d.dropTarget.value, d.dropPosition.value)])
  {
  }

  /**
   * The widget's filter: an empty text drops the filtered list; otherwise
   * the list is empty exactly when no name matches, and expansion only grows.
   */
  lemma FilterMeaning(s: ViewState, text: string)
    ensures var s' := FilterSpec(s, text);
      s'.(filteredData := s.filteredData, expandedNodes := s.expandedNodes) == s &&
      s.expandedNodes <= s'.expandedNodes &&
      (text == "" ==> s' == s.(filteredData := None)) &&
      (text != "" ==> s'.filteredData.Some? && (s'.filteredData.value == [] <==> !Finds(s.data, Lower(text))))
  {
    SurvivorsEmpty(s.data, Lower(text));
  }

  /** An entry whose whole subtree is expanded shows as its pre-order listing. */
  lemma ItemSpread(n: Node, expanded: set<string>)
    requires HasChildren(n) && ExpandIds([n]) <= expanded
    ensures [Item(n)] + Items(Below(n, expanded)) == Items(Flatten([n]))
  {
    ExpandIdsCons(n, []);
    assert [n] + [] == [n];
    VisibleAllExpanded(Kids(n), expanded);
    assert Below(n, expanded) == Flatten(Kids(n));
    FlattenCons(n, []);
    assert Flatten([n]) == [n] + Flatten(Kids(n));
    ItemsAppend([n], Flatten(Kids(n)));
  }

  /** The rows of one entry, case by case as `flattenVisibleNodes` builds them. */
  lemma EntryRowsCases(e: Entry, expanded: set<string>)
    ensures EntryRows(e, expanded) ==
      if e.Item? && e.node.children.Present? && |e.node.children.nodes| > 0 && e.node.id in expanded
      then [e] + Items(VisibleNodes(e.node.children.nodes, expanded))
      else [e]
  {
    if e.Item? {
      assert Items([]) == [];
    }
  }

  /** With every entry's parents expanded, the rows of a filtered list are its entries opened up in full. */
  lemma {:induction false} RowsSpread(es: seq<Entry>, expanded: set<string>)
    requires FilteredIds(es) <= expanded
    requires forall e :: e in es && e.Item? ==> HasChildren(e.node)
    ensures Rows(es, expanded) == Spread(es)
  {
    if es != [] {
      RowsSpread(es[1..], expanded);
      match es[0] {
        case Matched =>
        case Item(n) =>
          ItemSpread(n, expanded);
      }
    }
  }

  /**
   * After filtering, nothing kept is hidden: the visible rows are the
   * filtered entries with everything below each of them, in pre-order.
   */
  lemma FilterShowsAll(s: ViewState, text: string)
    requires text != ""
    ensures VisibleRows(FilterSpec(s, text)) == Spread(FilterEntries(s.data, text))
  {
    var f := FilterEntries(s.data, text);
    SurvivorsKeepChildren(s.data, Lower(text));
    RowsSpread(f, s.expandedNodes + FilteredIds(f));
  }

  /**
   * `expandAll` opens the whole forest: without a filter every node becomes
   * a row, in pre-order; `collapseAll` leaves only the roots.
   */
  lemma ExpandCollapseRows(s: ViewState)
    requires s.filteredData.None?
    ensures VisibleRows(s.(expandedNodes := s.expandedNodes + ExpandIds(s.data))) == Items(Flatten(s.data))
    ensures VisibleRows(s.(expandedNodes := {})) == Items(s.data)
  {
    VisibleAllExpanded(s.data, s.expandedNodes + ExpandIds(s.data));
    RowsOfItems(s.data, s.expandedNodes + ExpandIds(s.data));
    RowsOfItems(s.data, {});
    VisibleCollapsed(s.data);
  }

  // ---------------------------------------------------------------- the widget

  class TreeView {
    var data: Tree
    var selectedNode: Option<string>
    var expandedNodes: set<string>
    var filterText: string
    var filteredData: Option<seq<Entry>>
    var dragState: DragState
    const dragEnabled: bool
    /** Every callback made so far, oldest first. */
    var events: seq<Event>

    function State(): ViewState
      reads this
    {
      ViewState(data, selectedNode, expandedNodes, filterText, filteredData, dragState)
    }

    /** The handler had effect `o`: the new state is `o.state` and its callbacks were appended to the log. */
    twostate predicate Did(o: Outcome)
      reads this
    {
      State() == o.state && events == old(events) + o.emitted
    }

    /** `new TreeView({data, dragEnabled})`: nothing selected, expanded, filtered or dragged. */
    constructor (data: Tree, dragEnabled: bool)
      ensures State() == ViewState(data, None, {}, "", None, Idle)
      ensures this.dragEnabled == dragEnabled && events == []
    {
      this.data := data;
      selectedNode := None;
      expandedNodes := {};
      filterText := "";
      filteredData := None;
      dragState := Idle;
      this.dragEnabled := dragEnabled;
      events := [];
    }

    method SelectNode(id: string)
      modifies this
      ensures Did(SelectSpec(old(State()), id))
    {
      var node := NodeById(data, id);
      if node.None? {
        return;
      }
      selectedNode := Some(id);
      events := events + [Selected(node.value)];
    }

    method ToggleNode(id: string, rendered: set<string>)
      modifies this
      ensures Did(ToggleSpec(old(State()), id, rendered))
    {
      var isExpanded := id in expandedNodes;
      if isExpanded {
        expandedNodes := expandedNodes - {id};
      } else {
        expandedNodes := expandedNodes + {id};
      }
      if id !in rendered {
        return;
      }
      var node := NodeById(data, id);
      if node.Some? {
        events := events + [Toggled(node.value, !isExpanded)];
      }
    }

    /** `flattenVisibleNodes` over nodes. */
    method FlattenVisibleNodes(t: seq<Node>) returns (rows: seq<Node>)
      ensures rows == VisibleNodes(t, expandedNodes)
      decreases t
    {
      rows := [];
      var i := 0;
      while i < |t|
        invariant 0 <= i <= |t|
        invariant rows == VisibleNodes(t[..i], expandedNodes)
      {
        var node := t[i];
        rows := rows + [node];
        if node.children.Present? && |node.children.nodes| > 0 && node.id in expandedNodes {
          var below := FlattenVisibleNodes(node.children.nodes);
          rows := rows + below;
        }
        VisibleSnoc(t, i, expandedNodes);
        i := i + 1;
      }
      assert t[..|t|] == t;
    }

    /** `flattenVisibleNodes` over a filtered list, whose `true` entries have nothing below them. */
    method FlattenVisibleEntries(es: seq<Entry>) returns (rows: seq<Entry>)
      ensures rows == Rows(es, expandedNodes)
    {
      rows := [];
      var i := 0;
      while i < |es|
        invariant 0 <= i <= |es|
        invariant rows == Rows(es[..i], expandedNodes)
      {
        var e := es[i];
        var part := [e];
        if e.Item? && e.node.children.Present? && |e.node.children.nodes| > 0 && e.node.id in expandedNodes {
          var below := FlattenVisibleNodes(e.node.children.nodes);
          part := part + Items(below);
        }
        EntryRowsCases(e, expandedNodes);
        rows := rows + part;
        RowsSnoc(es, i, expandedNodes);
        i := i + 1;
      }
      assert es[..|es|] == es;
    }

    method GetVisibleNodes() returns (rows: seq<Entry>)
      ensures rows == VisibleRows(State())
    {
      var top := if filteredData.Some? then filteredData.value else Items(data);
      rows := FlattenVisibleEntries(top);
    }

    method SelectNextNode()
      modifies this
      ensures Did(NextSpec(old(State())))
    {
      var rows := GetVisibleNodes();
      if !(selectedNode.Some? && selectedNode.value != "") {
        if |rows| > 0 {
          match rows[0] {
            case Item(n) => SelectNode(n.id);
            case Matched =>
          }
        }
        return;
      }
      var current := FindIndex(rows, RowIs(selectedNode.value));
      if current < |rows| - 1 {
        match rows[current + 1] {
          case Item(n) => SelectNode(n.id);
          case Matched =>
        }
      }
    }

    method SelectPreviousNode()
      modifies this
      ensures Did(PrevSpec(old(State())))
    {
      var rows := GetVisibleNodes();
      if !(selectedNode.Some? && selectedNode.value != "") {
        if |rows| > 0 {
          match rows[|rows| - 1] {
            case Item(n) => SelectNode(n.id);
            case Matched =>
          }
        }
        return;
      }
      var current := FindIndex(rows, RowIs(selectedNode.value));
      if current > 0 {
        match rows[current - 1] {
          case Item(n) => SelectNode(n.id);
          case Matched =>
        }
      }
    }

    method HandleKeyDown(key: Key, rendered: set<string>)
      modifies this
      ensures Did(KeySpec(old(State()), key, rendered))
    {
      if !(selectedNode.Some? && selectedNode.value != "") {
        return;
      }
      var found := NodeById(data, selectedNode.value);
      if found.None? {
        return;
      }
      var node := found.value;
      match key {
        case ArrowUp => SelectPreviousNode();
        case ArrowDown => SelectNextNode();
        case ArrowRight =>
          if node.children.Present? && |node.children.nodes| > 0 {
            if node.id !in expandedNodes {
              ToggleNode(node.id, rendered);
            } else {
              SelectNode(node.children.nodes[0].id);
            }
          }
        case ArrowLeft =>
          if node.id in expandedNodes {
            ToggleNode(node.id, rendered);
          } else {
            var parent := ParentById(data, node.id);
            if parent.Some? {
              SelectNode(parent.value.id);
            }
          }
        case Enter => events := events + [Selected(node)];
        case Space =>
          if node.children.Present? && |node.children.nodes| > 0 {
            ToggleNode(node.id, rendered);
          }
        case OtherKey =>
      }
    }

    method HandleDragStart(press: Press)
      modifies this
      ensures Did(DragStartSpec(old(State()), press, dragEnabled))
    {
      if !dragEnabled || press.row.None? || press.onControl {
        return;
      }
      var id := press.row.value;
      var node := NodeById(data, id);
      if node.None? {
        return;
      }
      dragState := dragState.(isDragging := true, draggedNode := Some(node.value));
      SelectNode(id);
    }

    method HandleDragMove(rows: seq<Row>, y: int)
      modifies this
      ensures Did(DragMoveSpec(old(State()), rows, y))
    {
      ghost var s := State();
      assert events == old(events) + [];
      if !dragState.isDragging {
        return;
      }
      var target := FindDropTarget(data, rows, y);
      if target.Some? {
        var d := dragState;
        var t := target.value;
        if d.draggedNode.None? || !CanDrop(d.draggedNode.value, t.node, t.position) {
          return;
        }
        dragState := d.(dropTarget := Some(t.node), dropPosition := Some(t.position));
        assert State() == s.(dragState := dragState);
      }
    }

    method HandleDragEnd()
      modifies this
      ensures Did(DragEndSpec(old(State())))
    {
      if !dragState.isDragging {
        return;
      }
      if dragState.draggedNode.Some? && dragState.dropTarget.Some? && dragState.dropPosition.Some? {
        events := events + [Dropped(dragState.draggedNode.value, dragState.dropTarget.value, dragState.dropPosition.value)];
      }
      dragState := Idle;
    }

    /** `expandNodesRecursive(t)`, and the recursion of `expandFilteredNodes` below an entry. */
    method ExpandNodes(t: seq<Node>)
      modifies this
      ensures State() == old(State()).(expandedNodes := old(expandedNodes) + ExpandIds(t))
      ensures events == old(events)
      decreases t
    {
      var i := 0;
      while i < |t|
        invariant 0 <= i <= |t|
        invariant expandedNodes == old(expandedNodes) + ExpandIds(t[..i])
        invariant State() == old(State()).(expandedNodes := expandedNodes)
        invariant events == old(events)
      {
        var node := t[i];
        ExpandIdsSnoc(t, i);
        if node.children.Present? && |node.children.nodes| > 0 {
          expandedNodes := expandedNodes + {node.id};
          ExpandNodes(node.children.nodes);
        }
        assert expandedNodes == old(expandedNodes) + ExpandIds(t[..i + 1]);
        i := i + 1;
      }
      assert t[..|t|] == t;
    }

    /** `expandFilteredNodes(es)` over the filtered list. */
    method ExpandFilteredNodes(es: seq<Entry>)
      modifies this
      ensures State() == old(State()).(expandedNodes := old(expandedNodes) + FilteredIds(es))
      ensures events == old(events)
    {
      var i := 0;
      while i < |es|
        invariant 0 <= i <= |es|
        invariant State() == old(State()).(expandedNodes := old(expandedNodes) + FilteredIds(es[..i]))
        invariant events == old(events)
      {
        match es[i] {
          case Item(node) =>
            if node.children.Present? && |node.children.nodes| > 0 {
              expandedNodes := expandedNodes + {node.id};
              ExpandNodes(node.children.nodes);
            }
            ExpandIdsCons(node, []);
            assert [node] + [] == [node];
          case Matched =>
        }
        FilteredIdsSnoc(es, i);
        i := i + 1;
      }
      assert es[..|es|] == es;
    }

    method FilterTree(text: string)
      modifies this
      ensures State() == FilterSpec(old(State()), text) && events == old(events)
    {
      if text == "" {
        filteredData := None;
        return;
      }
      var filtered := FilterEntries(data, text);
      filteredData := Some(filtered);
      ExpandFilteredNodes(filtered);
    }

    /** The filter box's input handler. */
    method FilterInput(text: string)
      modifies this
      ensures State() == FilterSpec(old(State()).(filterText := text), text) && events == old(events)
    {
      filterText := text;
      FilterTree(filterText);
    }

    /** The filter box's clear button. */
    method ClearFilter()
      modifies this
      ensures State() == old(State()).(filterText := "", filteredData := None) && events == old(events)
    {
      filterText := "";
      FilterTree("");
    }

    method UpdateData(d: Tree)
      modifies this
      ensures State() == FilterSpec(old(State()).(data := d), old(filterText)) && events == old(events)
    {
      data := d;
      FilterTree(filterText);
    }

    method ExpandAll()
      modifies this
      ensures State() == old(State()).(expandedNodes := old(expandedNodes) + ExpandIds(old(data))) && events == old(events)
    {
      ExpandNodes(data);
    }

    method CollapseAll()
      modifies this
      ensures State() == old(State()).(expandedNodes := {}) && events == old(events)
    {
      expandedNodes := {};
    }

    /** `getExpandedNodeIds`: every expanded identifier, once each. */
    method GetExpandedNodeIds() returns (ids: seq<string>)
      ensures forall x :: x in ids <==> x in expandedNodes
      ensures Unique(ids)
    {
      ids := [];
      var rest := expandedNodes;
      while rest != {}
        invariant rest <= expandedNodes
        invariant forall x :: x in ids <==> x in expandedNodes && x !in rest
        invariant Unique(ids)
        decreases rest
      {
        var x :| x in rest;
        ids := ids + [x];
        rest := rest - {x};
      }
    }

    method SetExpandedNodeIds(ids: seq<string>)
      modifies this
      ensures State() == old(State()).(expandedNodes := set x | x in ids) && events == old(events)
    {
      expandedNodes := set x | x in ids;
    }
  }
}
