# HammerGhost tree core, modelled in Dafny

HammerGhost's macro editor shows its items in a tree. Two JavaScript files
hold the core of that tree:

- `TreeUtils` (`tree_utils.js`) is a set of static functions over a forest of
  nodes. A node has an `id`, a `name`, a `type` (`folder` or otherwise),
  further attributes and an optional `children` array. The functions look a
  node up (`findNodeById`, `findParentNode`, `getPathToNode`,
  `getExpandedForNode`) and edit the forest (`moveNode`, `addNode`,
  `removeNode`, `updateNode`). They also reorder it (`sortTree`), filter it
  (`filterTree`, `searchTree`), flatten it (`flattenTree`) and rebuild it
  from a flat list with parent links (`buildTreeFromFlatArray`). Every
  editing function deep-copies its input first, so each one is a function
  from a forest to a new forest.
- `TreeView` (`tree_view.js`) is the widget that shows such a forest. It
  keeps a selected identifier, a set of expanded identifiers, a filter text
  and a filtered list, and a drag state. It changes them in response to the
  keyboard, the mouse and its public methods, and it reports selection,
  expansion and drops through the `onSelect`, `onToggle` and `onDrop`
  callbacks.

The Dafny project follows that split.

- `TreeUtils` becomes pure functions and lemmas over the datatype `Node`,
  whose `children` field is `Absent` or `Present(nodes)`:
  - `TreeNodes` and `TreeShape`: the node, the pre-order listing `Flatten`,
    identifier bags and the well-formedness invariant, which says that
    identifiers are unique across the forest.
  - `TreeSearch`: first-match search and edit in pre-order.
  - `TreeOutline`: a node's outline, which is its own fields and its child
    count. The pre-order listing of outlines determines the forest
    (`OutlinesDetermine`). So a frame lemma that says an edit changes only
    one block of that listing says that every other node keeps its fields,
    its child count and its place.
  - `TreeLookup`: the lookups.
  - `TreeEdit`: `addNode`, `removeNode` and `updateNode`.
  - `TreeMove`: `moveNode`.
  - `TreeSort`, `TreeFilter`: sorting, filtering and searching.
  - `TreeFlat`: flattening and rebuilding.
- `flattenTree` and `buildTreeFromFlatArray` are loops in the source, so
  they are methods. Each is proved equal to a specification function, and
  the round trip between the two is proved about those functions.
- `TreeView` becomes the class `TreeWidget.TreeView`, whose fields are the
  widget's state. Each handler is a method that changes those fields and
  appends the callbacks it makes to an `events` log. Each method is proved
  to do what a function from the old state to the new state and the
  callbacks says.
- The lemmas in `TreeWidget` state what those functions promise.
- `ViewRules` holds the widget's stateless parts: its own lookups, the
  descendant test, the drop rule, the choice of a drop target, the widget's
  filter, the visible rows and highlighting.

The model follows the code. Where the code does something a caller would
not expect from its names and comments, a lemma below states what it does:

- **Moves can lose data.** `moveNode` detaches the source before it looks
  for the target. A move whose target is missing, one that asks `inside` of
  a non-folder, and one whose target lies inside the moved node each return
  the forest without the source's whole subtree (`MoveNodeLoss`,
  `MoveIntoOwnSubtree`). Moving a node onto itself drops it too
  (`MoveOntoItself`).
- **The drop rule tests the wrong direction.** The comment in `canDrop`
  says a node cannot be dropped on its children. The test under it asks
  instead whether the dragged node lies below the target
  (`CanDropLooksBelowTarget`). So a folder can be dropped `inside` its own
  child folder, and that move loses the subtree (`AcceptedDropLosesSubtree`).
- **A released drag can drop on a stale target.** A pointer move over no row
  keeps the drop recorded earlier, so releasing there still reports a drop
  (`StaleDropSurvives`).
- **The widget's filter differs from `TreeUtils.filterTree`.** The widget's
  own filter keeps a root whose name matches as the literal `true`,
  modelled as the `Matched` entry. It prunes only the children of the roots
  and keeps the nodes below them whole (`SurvivorsKeepChildren`).
- **`filterTree` without `keepPath` drops matches.** A match whose
  ancestors were not kept is dropped along with them (`FilterDropsOrphans`).

## Model

Source paths are relative to the repository root.

| member | source | states |
|---|---|---|
| Text.Lower | Spoons/HammerGhost.spoon/assets/tree_utils.js:518 | lower-casing keeps the length and lowers each letter in place |
| Text.IndexFrom | Spoons/HammerGhost.spoon/assets/tree_view.js:1121 | `indexOf` finds the first occurrence at or after the start, or -1 exactly when there is none |
| Text.LowerSlice | Spoons/HammerGhost.spoon/assets/tree_view.js:1118-1125 | lower-casing commutes with taking a substring |
| Text.LowerIdempotent | Spoons/HammerGhost.spoon/assets/tree_view.js:1118-1119 | lower-casing twice is lower-casing once |
| TreeNodes.WellFormedBag | Spoons/HammerGhost.spoon/assets/tree_utils.js:21-48 | identifiers are unique exactly when each occurs at most once in the forest's bag of identifiers |
| TreeNodes.SameIdSameNode | Spoons/HammerGhost.spoon/assets/tree_utils.js:21-48 | in a well-formed forest two listed nodes with one identifier are the same node |
| TreeSearch.FindIndex | Spoons/HammerGhost.spoon/assets/tree_utils.js:167 | `findIndex` returns the first position that passes, or -1 exactly when none does |
| TreeSearch.FindFirstIsFirst | Spoons/HammerGhost.spoon/assets/tree_utils.js:21-48 | the depth-first search returns the first node of the pre-order listing that passes |
| TreeSearch.EditFirstMissing | Spoons/HammerGhost.spoon/assets/tree_utils.js:333-339 | editing where no node is found returns the forest unchanged |
| TreeSearch.EditFirstBag | Spoons/HammerGhost.spoon/assets/tree_utils.js:333-339 | editing the found node in place replaces the identifiers of its subtree by those of the replacement and keeps all others |
| TreeSearch.EditFirstFind | Spoons/HammerGhost.spoon/assets/tree_utils.js:333-339 | after an edit that keeps the identifier, looking it up finds the replacement |
| TreeSearch.EditFirstAgain | Spoons/HammerGhost.spoon/assets/tree_utils.js:333-339 | a second edit that leaves the first edit's result as it is changes nothing |
| TreeSearch.EditFirstFrame | Spoons/HammerGhost.spoon/assets/tree_utils.js:333-339 | editing the first node that passes changes only that node's block of the pre-order listing: every node outside it keeps its own fields, its child count and its place |
| TreeLookup.FindNodeById | Spoons/HammerGhost.spoon/assets/tree_utils.js:21-48 | a found node has the identifier and is in the forest; nothing is found exactly when the identifier is empty or absent |
| TreeLookup.FindNodeIsFirst | Spoons/HammerGhost.spoon/assets/tree_utils.js:21-48 | the result is the first node of the pre-order listing with that identifier |
| TreeLookup.FindNodeUnique | Spoons/HammerGhost.spoon/assets/tree_utils.js:21-48 | in a well-formed forest every listed node is found by its own identifier |
| TreeLookup.FindParentNode | Spoons/HammerGhost.spoon/assets/tree_utils.js:56-86 | a found parent is listed and has a direct child with the identifier; none is found exactly when the identifier is empty or no listed node has such a child |
| TreeLookup.ParentOfRoot | Spoons/HammerGhost.spoon/assets/tree_utils.js:56-86 | in a well-formed forest a root has no parent, so a root and an absent identifier look alike |
| TreeLookup.ParentUnique | Spoons/HammerGhost.spoon/assets/tree_utils.js:56-86 | in a well-formed forest the parent of every non-root node is the node returned |
| TreeLookup.PathFromSpec | Spoons/HammerGhost.spoon/assets/tree_utils.js:105-133 | the helper's result extends the current path by the ancestors of the first match, and is empty when nothing matches |
| TreeLookup.GetPathToNodeSpec | Spoons/HammerGhost.spoon/assets/tree_utils.js:94-99 | the path is empty for an empty or absent identifier, and otherwise leads from a root down to the parent of the node `findNodeById` finds |
| TreeLookup.PathIsAncestors | Spoons/HammerGhost.spoon/assets/tree_utils.js:94-133 | in a well-formed forest `getPathToNode` returns exactly the node's path, the empty path for a root |
| TreeLookup.PathUnique | Spoons/HammerGhost.spoon/assets/tree_utils.js:94-133 | in a well-formed forest a node has only one path |
| TreeLookup.PathExists | Spoons/HammerGhost.spoon/assets/tree_utils.js:94-133 | every listed node has a path |
| TreeLookup.PathExtend | Spoons/HammerGhost.spoon/assets/tree_utils.js:120-123 | the path to a node followed by its identifier is the path to each of its children |
| TreeLookup.AncestorAt | Spoons/HammerGhost.spoon/assets/tree_utils.js:105-133 | every identifier on a path names a listed node that has the path's end node below it |
| TreeLookup.GetExpandedForNode | Spoons/HammerGhost.spoon/assets/tree_utils.js:535-547 | the expanded identifiers are exactly those on the node's path |
| TreeLookup.ExpandedExcludesNode | Spoons/HammerGhost.spoon/assets/tree_utils.js:535-547 | in a well-formed forest a node is never expanded for itself |
| TreeEdit.Without | Spoons/HammerGhost.spoon/assets/tree_utils.js:295 | filtering the children keeps exactly the children with another identifier |
| TreeEdit.DetachBag | Spoons/HammerGhost.spoon/assets/tree_utils.js:158-172 | in a well-formed forest the detaching step removes exactly the subtree of the node found |
| TreeEdit.RemoveNodeBag | Spoons/HammerGhost.spoon/assets/tree_utils.js:279-313 | removing a present node removes exactly its subtree, and the forest stays well-formed without that identifier |
| TreeEdit.RemoveNodeAbsent | Spoons/HammerGhost.spoon/assets/tree_utils.js:281-284 | an empty or absent identifier returns the forest unchanged |
| TreeEdit.RemoveNodeNoEmpty | Spoons/HammerGhost.spoon/assets/tree_utils.js:297-301 | removal never leaves an empty `children` array behind |
| TreeEdit.RemoveNodeParent | Spoons/HammerGhost.spoon/assets/tree_utils.js:289-301 | in a well-formed forest, removing a child leaves its parent with the other children, and without a `children` attribute when none remain, and the parent is found so |
| TreeEdit.DetachParentFrame | Spoons/HammerGhost.spoon/assets/tree_utils.js:156-162 | detaching a child changes only its parent's block of the pre-order listing, to the parent without that child |
| TreeEdit.DetachRootFrame | Spoons/HammerGhost.spoon/assets/tree_utils.js:163-171 | detaching a root cuts its subtree out of the pre-order listing and keeps every other node, in order |
| TreeEdit.Stamped | Spoons/HammerGhost.spoon/assets/tree_utils.js:238-242 | the new node keeps its identifier unless it is empty, when it takes the generated one, and nothing else changes |
| TreeEdit.AddNodeBag | Spoons/HammerGhost.spoon/assets/tree_utils.js:228-271 | adding grows the identifiers by exactly the new subtree's and the node count by its size |
| TreeEdit.AddNodePlacement | Spoons/HammerGhost.spoon/assets/tree_utils.js:244-268 | the new node goes last among the named parent's children, or last among the roots when the parent is empty or not found |
| TreeEdit.AddNodeFrame | Spoons/HammerGhost.spoon/assets/tree_utils.js:244-268 | adding under a parent changes only the parent's block of the pre-order listing: the parent gains one child, its old descendants stay, and the new subtree follows them |
| TreeEdit.AddNodeWellFormed | Spoons/HammerGhost.spoon/assets/tree_utils.js:228-271 | adding a well-formed subtree with new identifiers keeps the forest well-formed |
| TreeEdit.AssignIdempotent | Spoons/HammerGhost.spoon/assets/tree_utils.js:338 | applying the same updates twice equals applying them once |
| TreeEdit.UpdateNodeFind | Spoons/HammerGhost.spoon/assets/tree_utils.js:322-342 | an empty or absent identifier changes nothing; otherwise the node found is the one updated and is found again, updated |
| TreeEdit.UpdateNodeFrame | Spoons/HammerGhost.spoon/assets/tree_utils.js:322-342 | updating changes only the updated node's block of the pre-order listing, and only its own outline when the children are not updated |
| TreeEdit.UpdateNodeBag | Spoons/HammerGhost.spoon/assets/tree_utils.js:322-342 | updates that set neither the identifier nor the children keep every identifier |
| TreeEdit.UpdateNodeIdempotent | Spoons/HammerGhost.spoon/assets/tree_utils.js:322-342 | updating twice with updates that keep the identifier equals updating once |
| TreeMove.MoveNodeNoSource | Spoons/HammerGhost.spoon/assets/tree_utils.js:145-155 | an empty argument or an absent source returns the forest unchanged |
| TreeMove.MoveNodeLoss | Spoons/HammerGhost.spoon/assets/tree_utils.js:174-216 | a target not found after detaching, or a position that does not place, returns the detached forest, which has lost the source's whole subtree |
| TreeMove.MoveIntoOwnSubtree | Spoons/HammerGhost.spoon/assets/tree_utils.js:153-176 | a move onto the source or any node below it loses the subtree, whatever the position |
| TreeMove.MoveOntoItself | Spoons/HammerGhost.spoon/assets/tree_utils.js:153-176 | moving a node onto itself removes it |
| TreeMove.PlaceBag | Spoons/HammerGhost.spoon/assets/tree_utils.js:181-216 | a placing position adds exactly the placed subtree's identifiers |
| TreeMove.MoveNodeBag | Spoons/HammerGhost.spoon/assets/tree_utils.js:143-219 | a legal move to a placing position keeps every identifier and keeps the forest well-formed |
| TreeMove.MoveNodeInside | Spoons/HammerGhost.spoon/assets/tree_utils.js:182-191 | a legal move `inside` a folder makes the moved node the folder's first child |
| TreeMove.MoveBesideUnderParent | Spoons/HammerGhost.spoon/assets/tree_utils.js:192-215 | a legal `before`/`after` move next to a child makes the moved node its sibling, just before or just after it |
| TreeMove.MoveBesideRoot | Spoons/HammerGhost.spoon/assets/tree_utils.js:192-215 | a legal `before`/`after` move next to a root makes the moved node a root, just before or just after it |
| TreeMove.PlaceInsideFrame | Spoons/HammerGhost.spoon/assets/tree_utils.js:182-191 | placing `inside` changes only the folder's block of the pre-order listing, putting the moved subtree right after the folder |
| TreeMove.PlaceBesideKidFrame | Spoons/HammerGhost.spoon/assets/tree_utils.js:192-215 | placing next to a child changes only its parent's block of the pre-order listing |
| TreeMove.PlaceBesideRootFrame | Spoons/HammerGhost.spoon/assets/tree_utils.js:192-215 | placing next to a root inserts the moved subtree into the pre-order listing before or after the root's block and keeps every other node, in order |
| TreeSort.InsertPermutes | Spoons/HammerGhost.spoon/assets/tree_utils.js:394 | one insertion step adds exactly the inserted node |
| TreeSort.InsertSorted | Spoons/HammerGhost.spoon/assets/tree_utils.js:363-394 | inserting into a sorted level keeps it sorted by the comparator |
| TreeSort.InsertTies | Spoons/HammerGhost.spoon/assets/tree_utils.js:394 | insertion puts the new node before every node it ties with |
| TreeSort.SortLevelPermutes | Spoons/HammerGhost.spoon/assets/tree_utils.js:394 | sorting a level is a permutation of it |
| TreeSort.SortLevelSorted | Spoons/HammerGhost.spoon/assets/tree_utils.js:363-394 | a sorted level is ordered by the comparator |
| TreeSort.SortLevelStable | Spoons/HammerGhost.spoon/assets/tree_utils.js:394 | the sort is stable: nodes that tie keep their relative order |
| TreeSort.SortLevelOrder | Spoons/HammerGhost.spoon/assets/tree_utils.js:363-391 | folders come before other nodes, and nodes of one kind are ordered by the property in the requested direction |
| TreeSort.SortTreeShallow | Spoons/HammerGhost.spoon/assets/tree_utils.js:352-414 | an empty property returns the forest unchanged; a non-recursive sort permutes the roots only |
| TreeSort.SortTreeBag | Spoons/HammerGhost.spoon/assets/tree_utils.js:352-414 | sorting keeps every identifier |
| TreeSort.SortEachSorted | Spoons/HammerGhost.spoon/assets/tree_utils.js:397-411 | the recursive step keeps each node of the level and leaves every child list sorted all the way down |
| TreeSort.SortTreeSorted | Spoons/HammerGhost.spoon/assets/tree_utils.js:352-414 | a recursive sort leaves every level of the forest sorted |
| TreeSort.SortEachNodes | Spoons/HammerGhost.spoon/assets/tree_utils.js:397-411 | the recursive step keeps each node of the level in place and changes only its non-empty child list, to that list sorted recursively |
| TreeSort.SortLevelSortEach | Spoons/HammerGhost.spoon/assets/tree_utils.js:352-411 | sorting the child lists first and then the level gives the same forest as sorting the level first |
| TreeSort.SortTreeRecursive | Spoons/HammerGhost.spoon/assets/tree_utils.js:352-414 | a recursive sort is the level sort of the roots, each root keeping its fields and getting its children sorted recursively, so every level is a stable permutation of the input level |
| TreeFilter.IdentifySpec | Spoons/HammerGhost.spoon/assets/tree_utils.js:438-473 | the first pass reports whether anything matches and collects the matches and, with `keepPath`, every ancestor of a match |
| TreeFilter.PruneKept | Spoons/HammerGhost.spoon/assets/tree_utils.js:476-494 | the second pass keeps only collected identifiers |
| TreeFilter.PruneRoots | Spoons/HammerGhost.spoon/assets/tree_utils.js:476-494 | the second pass keeps exactly the collected roots, in order |
| TreeFilter.KeptRoots | Spoons/HammerGhost.spoon/assets/tree_utils.js:478-484 | the kept roots are exactly the roots with a collected identifier |
| TreeFilter.PruneLevel | Spoons/HammerGhost.spoon/assets/tree_utils.js:476-494 | the second pass keeps the collected roots in their order, each with its own fields and its non-empty child list filtered by the same pass |
| TreeFilter.PruneSurvives | Spoons/HammerGhost.spoon/assets/tree_utils.js:476-494 | when every match and every ancestor of a match is collected, each of them survives the second pass |
| TreeFilter.FilterKeepPath | Spoons/HammerGhost.spoon/assets/tree_utils.js:423-495 | with `keepPath` the result holds exactly the matches and the nodes with a match below them |
| TreeFilter.FilterNoPath | Spoons/HammerGhost.spoon/assets/tree_utils.js:423-495 | without `keepPath` only matches survive, and the roots kept are exactly the matching roots, in order |
| TreeFilter.FilterDropsOrphans | Spoons/HammerGhost.spoon/assets/tree_utils.js:476-494 | without `keepPath` a match under a non-matching parent is lost, and a matching parent keeps an emptied array |
| TreeFilter.SearchMatchSpec | Spoons/HammerGhost.spoon/assets/tree_utils.js:512-524 | a node passes the search exactly when one of the named properties is non-empty and contains the lower-cased text |
| TreeFilter.SearchIgnoresCase | Spoons/HammerGhost.spoon/assets/tree_utils.js:512-524 | any spelling of the text that differs only in case finds the node |
| TreeFlat.FlattenTree | Spoons/HammerGhost.spoon/assets/tree_utils.js:554-574 | the loop returns the pre-order listing of the forest |
| TreeFlat.NodeMap | Spoons/HammerGhost.spoon/assets/tree_utils.js:591-595 | the first loop builds one fresh childless object per identifier, the last entry winning |
| TreeFlat.ObjectsKeys | Spoons/HammerGhost.spoon/assets/tree_utils.js:591-595 | the objects are keyed by exactly the entries' identifiers |
| TreeFlat.ObjectsLast | Spoons/HammerGhost.spoon/assets/tree_utils.js:591-595 | the object for an identifier is the last entry with it, with an empty `children` array |
| TreeFlat.Dispatch | Spoons/HammerGhost.spoon/assets/tree_utils.js:598-618 | the second loop puts each entry at the root or under the object its parent value names, in input order |
| TreeFlat.SelectMember | Spoons/HammerGhost.spoon/assets/tree_utils.js:600-618 | an identifier is put in a place exactly when some entry with it belongs there |
| TreeFlat.SelectCount | Spoons/HammerGhost.spoon/assets/tree_utils.js:600-618 | each place receives one identifier per entry that belongs there |
| TreeFlat.BuildTreeFromFlatArray | Spoons/HammerGhost.spoon/assets/tree_utils.js:583-621 | the result is the root list and the object graph the two loops specify |
| TreeFlat.RebuiltRoots | Spoons/HammerGhost.spoon/assets/tree_utils.js:583-621 | rebuilding a well-formed forest's listing with parent links gives back its roots, in order |
| TreeFlat.RebuiltNode | Spoons/HammerGhost.spoon/assets/tree_utils.js:583-621 | rebuilding gives each node its own attributes and its children's identifiers, in order |
| TreeFlat.RebuildFlattened | Spoons/HammerGhost.spoon/assets/tree_utils.js:554-621 | flattening a well-formed forest with parent links and rebuilding it gives back the forest, with an empty array wherever `children` was missing |
| ViewRules.NodeById | Spoons/HammerGhost.spoon/assets/tree_view.js:978-1000 | the widget's lookup finds a listed node with the identifier, and nothing exactly when the identifier is absent |
| ViewRules.ParentById | Spoons/HammerGhost.spoon/assets/tree_view.js:1009-1031 | the widget's parent lookup finds a listed node with such a child, and nothing exactly when no listed node has one |
| ViewRules.IsNodeDescendant | Spoons/HammerGhost.spoon/assets/tree_view.js:1039-1060 | the descendant test holds exactly when the identifier is strictly below the node |
| ViewRules.CanDrop | Spoons/HammerGhost.spoon/assets/tree_view.js:655-676 | a drop is allowed exactly when the target is not the dragged node, the dragged node is not below the target, and `inside` targets a folder |
| ViewRules.CanDropLooksBelowTarget | Spoons/HammerGhost.spoon/assets/tree_view.js:655-676 | a node may be dropped inside its own child folder, while a child is refused everywhere around its parent |
| ViewRules.AcceptedDropLosesSubtree | Spoons/HammerGhost.spoon/assets/tree_view.js:655-676 | a drop `canDrop` accepts, applied with `moveNode`, can remove the dragged node's whole subtree |
| ViewRules.FindDropTarget | Spoons/HammerGhost.spoon/assets/tree_view.js:607-646 | no target exactly when no row under the cursor names a node; otherwise the first such row, with the band under the pointer |
| ViewRules.BandOrdered | Spoons/HammerGhost.spoon/assets/tree_view.js:622-640 | lower in a row never gives an earlier position, and only a folder offers `inside` |
| ViewRules.FilterNodeFinds | Spoons/HammerGhost.spoon/assets/tree_view.js:798-826 | a node survives the widget's filter exactly when its name or a name below it matches |
| ViewRules.SurvivorsEmpty | Spoons/HammerGhost.spoon/assets/tree_view.js:829-831 | the filtered list is empty exactly when no name in the forest matches |
| ViewRules.SurvivorsKeepChildren | Spoons/HammerGhost.spoon/assets/tree_view.js:798-831 | a kept node's children are original children of a root, kept whole, and there is at least one |
| ViewRules.VisibleCollapsed | Spoons/HammerGhost.spoon/assets/tree_view.js:923-940 | with nothing expanded only the roots are visible |
| ViewRules.VisibleListed | Spoons/HammerGhost.spoon/assets/tree_view.js:923-940 | every visible row is a node of the forest |
| ViewRules.VisibleAllExpanded | Spoons/HammerGhost.spoon/assets/tree_view.js:923-940 | with every parent expanded the visible rows are the whole pre-order listing |
| ViewRules.VisibleRoot | Spoons/HammerGhost.spoon/assets/tree_view.js:923-940 | a root is always visible, and so is what is visible below it |
| ViewRules.VisibleAlongPath | Spoons/HammerGhost.spoon/assets/tree_view.js:923-940 | a node is visible once every identifier on its path is expanded |
| ViewRules.ExpandedForNodeShows | Spoons/HammerGhost.spoon/assets/tree_utils.js:535-547 | expanding what `getExpandedForNode` returns makes the node visible |
| ViewRules.HighlightUnchanged | Spoons/HammerGhost.spoon/assets/tree_view.js:1114-1129 | the text comes back unchanged exactly when the highlight is empty or does not occur, ignoring case |
| ViewRules.HighlightWraps | Spoons/HammerGhost.spoon/assets/tree_view.js:1114-1129 | the span wraps the earliest case-insensitive occurrence and keeps the text around it |
| TreeWidget.SelectMeaning | Spoons/HammerGhost.spoon/assets/tree_view.js:682-708 | selecting changes only the selection, only for a present identifier, and reports a node with it |
| TreeWidget.ToggleFlips | Spoons/HammerGhost.spoon/assets/tree_view.js:714-779 | toggling flips the one identifier, changes nothing else, and reports the new state only for a node on the page |
| TreeWidget.ToggleTwice | Spoons/HammerGhost.spoon/assets/tree_view.js:714-779 | toggling twice restores the state |
| TreeWidget.NextSelectsVisibleRow | Spoons/HammerGhost.spoon/assets/tree_view.js:863-882 | Down changes only the selection, and only to a visible row |
| TreeWidget.PrevSelectsVisibleRow | Spoons/HammerGhost.spoon/assets/tree_view.js:887-906 | Up changes only the selection, and only to a visible row |
| TreeWidget.StepsFromRow | Spoons/HammerGhost.spoon/assets/tree_view.js:863-906 | from the selected row Down selects the next row and Up the previous one, with no wrap-around |
| TreeWidget.StepsFromHiddenSelection | Spoons/HammerGhost.spoon/assets/tree_view.js:863-906 | with the selection on no visible row Down selects the first row and Up does nothing |
| TreeWidget.KeysNeedSelection | Spoons/HammerGhost.spoon/assets/tree_view.js:390-395 | every key is ignored without a selection that names a node |
| TreeWidget.KeyRight | Spoons/HammerGhost.spoon/assets/tree_view.js:409-422 | Right opens a closed parent, moves into an open one, and does nothing on a leaf |
| TreeWidget.KeyLeft | Spoons/HammerGhost.spoon/assets/tree_view.js:424-438 | Left closes an open node, otherwise selects the parent, and does nothing on a closed root |
| TreeWidget.KeyOthers | Spoons/HammerGhost.spoon/assets/tree_view.js:440-451 | Enter reports the node, Space toggles a parent, and other keys do nothing |
| TreeWidget.DragStaysValid | Spoons/HammerGhost.spoon/assets/tree_view.js:459-545 | the three drag handlers keep the drag state consistent |
| TreeWidget.OthersKeepDrag | Spoons/HammerGhost.spoon/assets/tree_view.js:390-453 | keys and the filter leave the drag state alone |
| TreeWidget.DragStartBegins | Spoons/HammerGhost.spoon/assets/tree_view.js:459-486 | a press starts a drag exactly when dragging is on and the press is on a node's row off its controls, and the drag selects that node |
| TreeWidget.DragMoveRecords | Spoons/HammerGhost.spoon/assets/tree_view.js:492-519 | a move changes only the recorded drop, and only to the target found under the pointer when `canDrop` allows it |
| TreeWidget.StaleDropSurvives | Spoons/HammerGhost.spoon/assets/tree_view.js:492-545 | after a move over no row, releasing still drops on the target recorded before |
| TreeWidget.DragEndFinishes | Spoons/HammerGhost.spoon/assets/tree_view.js:525-545 | a release ends the drag and reports a drop exactly when one was recorded |
| TreeWidget.FilterMeaning | Spoons/HammerGhost.spoon/assets/tree_view.js:785-840 | an empty text clears the filter; otherwise the list is empty exactly when no name matches, and expansion only grows |
| TreeWidget.FilterShowsAll | Spoons/HammerGhost.spoon/assets/tree_view.js:785-858 | after filtering every kept entry is shown with everything below it, in pre-order |
| TreeWidget.ExpandCollapseRows | Spoons/HammerGhost.spoon/assets/tree_view.js:1144-1175 | without a filter, expanding all shows the whole listing and collapsing all shows the roots |
| TreeWidget.TreeView.constructor | Spoons/HammerGhost.spoon/assets/tree_view.js:33-70 | the widget starts with nothing selected, expanded, filtered or dragged |
| TreeWidget.TreeView.SelectNode | Spoons/HammerGhost.spoon/assets/tree_view.js:682-708 | the handler does what `SelectSpec` specifies |
| TreeWidget.TreeView.ToggleNode | Spoons/HammerGhost.spoon/assets/tree_view.js:714-779 | the handler does what `ToggleSpec` specifies |
| TreeWidget.TreeView.FlattenVisibleNodes | Spoons/HammerGhost.spoon/assets/tree_view.js:923-940 | the loop returns the visible rows of the nodes |
| TreeWidget.TreeView.FlattenVisibleEntries | Spoons/HammerGhost.spoon/assets/tree_view.js:923-940 | the loop returns the visible rows of a filtered list |
| TreeWidget.TreeView.GetVisibleNodes | Spoons/HammerGhost.spoon/assets/tree_view.js:912-916 | the rows come from the filtered list when there is one, from the forest otherwise |
| TreeWidget.TreeView.SelectNextNode | Spoons/HammerGhost.spoon/assets/tree_view.js:863-882 | the handler does what `NextSpec` specifies |
| TreeWidget.TreeView.SelectPreviousNode | Spoons/HammerGhost.spoon/assets/tree_view.js:887-906 | the handler does what `PrevSpec` specifies |
| TreeWidget.TreeView.HandleKeyDown | Spoons/HammerGhost.spoon/assets/tree_view.js:390-453 | the handler does what `KeySpec` specifies |
| TreeWidget.TreeView.HandleDragStart | Spoons/HammerGhost.spoon/assets/tree_view.js:459-486 | the handler does what `DragStartSpec` specifies |
| TreeWidget.TreeView.HandleDragMove | Spoons/HammerGhost.spoon/assets/tree_view.js:492-519 | the handler does what `DragMoveSpec` specifies |
| TreeWidget.TreeView.HandleDragEnd | Spoons/HammerGhost.spoon/assets/tree_view.js:525-545 | the handler does what `DragEndSpec` specifies |
| TreeWidget.TreeView.ExpandNodes | Spoons/HammerGhost.spoon/assets/tree_view.js:1154-1166 | the recursion expands exactly the nodes with children, and nothing else changes |
| TreeWidget.TreeView.ExpandFilteredNodes | Spoons/HammerGhost.spoon/assets/tree_view.js:846-858 | every entry with children, and every node with children below it, is expanded, and nothing else changes |
| TreeWidget.TreeView.FilterTree | Spoons/HammerGhost.spoon/assets/tree_view.js:785-840 | the handler does what `FilterSpec` specifies |
| TreeWidget.TreeView.FilterInput | Spoons/HammerGhost.spoon/assets/tree_view.js:118-123 | the input box stores the text and filters by it |
| TreeWidget.TreeView.ClearFilter | Spoons/HammerGhost.spoon/assets/tree_view.js:125-131 | the clear button empties the text and drops the filtered list |
| TreeWidget.TreeView.UpdateData | Spoons/HammerGhost.spoon/assets/tree_view.js:1135-1139 | new data replaces the forest and the stored filter text is applied again |
| TreeWidget.TreeView.ExpandAll | Spoons/HammerGhost.spoon/assets/tree_view.js:1144-1149 | every node of the unfiltered forest that has children is expanded |
| TreeWidget.TreeView.CollapseAll | Spoons/HammerGhost.spoon/assets/tree_view.js:1171-1175 | nothing is expanded afterwards, and nothing else changes |
| TreeWidget.TreeView.GetExpandedNodeIds | Spoons/HammerGhost.spoon/assets/tree_view.js:1190-1193 | the list holds every expanded identifier, once each |
| TreeWidget.TreeView.SetExpandedNodeIds | Spoons/HammerGhost.spoon/assets/tree_view.js:1199-1203 | the expanded set becomes exactly the identifiers given |

## Left out

- `app.js` (the editor page that uses the widget) and `custom_layouts_api.py` are not part of this model.
- Drawing is left out: `render`, `renderTree`, `renderNodes`, `createFilterBar`'s markup, the drop indicators, `getNodeLevel`, `getIconForNode`, scrolling and focusing. Where the page decides what happens, the fact becomes a parameter:
  - `rendered` is the set of identifiers whose item and child container are on the page;
  - `rows` is the row geometry under the pointer;
  - `Press` says which row a mouse press landed on and whether it hit a control.
- `handleClick`, `handleContextMenu` and the row action buttons: they only call `selectNode`/`toggleNode` or pass a node to a host callback. `getSelectedNode` is a lookup of the selected identifier. `destroy` only detaches listeners.
- `generateId` reads the clock and a random source. `TreeEdit.Stamped` takes the identifier it would produce as the parameter `freshId`.
- `exportToJson` and `importFromJson` are JSON text encoding and parsing.
- A missing input (`!tree`, `!newNode`, `!updates`, `!filterFn`) is left out: a forest is always a sequence here. An empty identifier or property, which the source also treats as missing, is modelled.
- Aliasing is left out. The source deep-copies with JSON. `addNode` stores the caller's node object itself and writes a generated identifier into it. The widget's filter shares child objects with the data. All of these are values here.
- `Text.Lower`: lowers ASCII letters only, because Unicode case mapping is not modelled.
- `TreeSort.SortLevel`: uses a comparator `le` that the caller supplies, assumed total and transitive, in place of `localeCompare`. It compares property values as strings only. The source subtracts non-string values, and that branch is not modelled. `Array.prototype.sort` is modelled as a stable insertion sort, as the language has required since 2019.
- `TreeSort.SortTree`: sorts the child lists before the level, where the source sorts the level first. `SortLevelSortEach` proves that the two orders give the same forest.
- `TreeFlat.RebuildFlattened`: the object graph is read back to a depth given by `Height`, a fuel bound, because the source's objects are plain references without a termination measure. The round trip is stated for forests whose parent links are set and whose identifiers are unique.
- `TreeFlat.Dispatch`: looks a parent value up among the entries' identifiers only. The source's `nodeMap` is a plain object, so it also answers names inherited from `Object.prototype`, such as `constructor` or `toString`. For such a parent value that no entry has as its identifier, the source finds the inherited member and the push at tree_utils.js:612 throws; the model puts the entry at the root instead.
- `TreeFlat.BuildTreeFromFlatArray`: attribute values are strings, so a parent value of `null` cannot be written. `rootParentId` `None` stands for the default `null`, which no parent value then equals. A missing parent attribute is `undefined` and is looked up under the key `"undefined"`, as in the source.
- `ViewRules.FindDropTarget`: pointer and row coordinates are integers, not fractional pixels. The `x` coordinate is unused, as it is in the source.
- `TreeWidget.TreeView.GetExpandedNodeIds`: states the list's contents and that it has no duplicates, but not its order. The model keeps the expanded identifiers as a set, without the insertion order of a JavaScript `Set`.
- `TreeWidget.TreeView.ToggleNode`: the cached child containers that toggling shows and hides are drawing, so only the expanded set and the callback are modelled.
- The `keyboardNavigation` and `searchEnabled` options only decide whether listeners and the filter box exist. The model's handlers are those listeners.
