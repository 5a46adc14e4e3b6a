# Category sidebar: a verified Dafny model

This project models the editable category sidebar of a learning-platform
web front end. The sidebar shows a two-level ordered tree. At the top are
groups, each with a name, an icon and an ordered list of sub-items; a
sub-item is a name and a post count. In edit mode the tree can be reordered
by dragging, grown with new entries, and, in one of the two versions, pruned
through a trash target.

The repository has two diverging versions of the component, and both are
modelled.

- `src/components/CategorySidebar.tsx` uses the browser's native
  drag-and-drop events. A drag records a payload (`dragItemRef`) and a
  before/after placeholder (`dragOver`, `dragOverGroup`). Each drop handler
  turns the placeholder into an insertion index, splices the entry out, and
  splices it back in with JavaScript's clamping `splice`.
- `lp/src/components/CategorySidebar.tsx` uses dnd-kit.
  - Every row is addressed by a string id: `group-G`, `sub-G-S`, the
    droppable `sub-container-G`, and `trash-dropzone`. The drag-end handler
    decodes these with `startsWith`, `replace`, `split('-')` and `parseInt`.
  - Reordering uses `arrayMove`. The model reads it as "remove at `from`,
    insert at `to`".
  - Deletion works in one of two ways. In single mode, a row dropped on the
    trash is proposed and must be confirmed. In multi mode, rows are first
    staged with checkboxes and then deleted in one confirmed batch.
  - Every drag start switches back to single mode (`:563`), and only the
    checkboxes switch to multi mode (`:420`, `:431`). So a drop on the trash
    reaches the multi-mode staging branch (`:694-707`) only when a checkbox
    was toggled while the row was being dragged.

Modules:

- `Tree`: the data model shared by both versions. Also holds the open/closed
  set updater and the "replace one group's sub-items" update.
- `Splice`: JavaScript `splice` with its index clamping, removal and
  insertion by position, the group reposition of the HTML5 version, and
  `arrayMove`.
- `DomIds`: the dnd-kit row ids, and the string functions that take them
  apart (`startsWith`, `split`, `replace`, `parseInt`, with `NaN` modelled as
  `None`).
- `Staging`: the staged-deletion list and its label cache, the checkbox
  selection of a group, and the confirmation rows.
- `Deletion`: what a confirmed entry, or a confirmed batch of entries, does
  to the tree.
- `Html5Sidebar`: the version in `src/`. The insertion-index arithmetic is
  written as functions; the component is the class `CategorySidebar`, with
  one method per handler.
- `DndSidebar`: the version in `lp/`. The drop dispatch on id strings is a
  function; the component is the class `CategorySidebar`, with one method per
  handler.

## How the code differs from the intended behaviour

The model follows the code in each of these places.

- **Multi-mode confirmation processes entries one by one.**
  - The loop at `lp/src/components/CategorySidebar.tsx:983-997` applies the
    entries in staging order, each to the tree left by the previous ones.
  - Checking a group's box stages the group first and its sub-items after
    it. So the group entry is seen while the group still has sub-items, and
    it is skipped.
  - Each sub-item removal then shifts the positions that the later entries
    name.
  - The result: confirming a group selected with its checkbox keeps the
    group, and keeps exactly its sub-items at odd positions
    (`Deletion.DeleteGroupSelection`). For `[A(x, y), B(z)]` the result is
    `[A(y), B(z)]`, not `[B(z)]` (`Deletion.SelectedGroupSurvives`).
  - The same holds for the whole user flow from an empty staging list.
    The checkbox stages the selection in order (`Staging.StageAllIdsAppends`,
    `Staging.GroupSelectionNoDup`). The trash button turns the staged ids
    into confirmation rows, and a batch acts only through its ids
    (`Deletion.DeleteItemsIds`). The composition is
    `Deletion.ConfirmGroupSelection`. The handlers `ToggleGroupSelect`,
    `TrashButtonClick` and `ConfirmDelete` state their effects with exactly
    these functions.
- **Dropping on a sub-item container throws in the dnd-kit version.**
  - A `sub-container-G` id also starts with `sub-`, so the sub-on-sub branch
    at `:733` catches it.
  - That branch reads the group field as `parseInt("container")`, which is
    `NaN`. The cross-group branch then reads `newItems[NaN].categories` and
    throws a `TypeError` while rendering.
  - The container branch at `:791-810` never runs. The model records the
    throw as `TreeUpdate.Crash` and sets the `crashed` flag
    (`DndSidebar.ContainerDropThrows`).
  - The HTML5 version appends to the container as intended
    (`Html5Sidebar.ContainerDropAppends`).
- **Leaving edit mode or cancelling keeps the staged list.** Neither exiting
  edit mode (`:464`, `:842`) nor cancelling the confirmation (`:958`) clears
  the staged ids. Only a confirmed multi-mode deletion clears them.
- **A fallback trash hit always proposes a single deletion.**
  When dnd-kit reports no target but the dragged rectangle lies inside the
  trash zone, the handler proposes a single-mode deletion whatever the mode.
  It pins the trash panel open only in single mode. Since every drag starts
  in single mode, the multi-mode case arises only when a checkbox is toggled
  during the drag.

## Model

| member | source | states |
|---|---|---|
| Tree.Toggled | src/components/CategorySidebar.tsx:136-144 | the toggled name's membership flips; every other name keeps its membership |
| Tree.ToggledTwice | src/components/CategorySidebar.tsx:136-144 | toggling the same group twice restores the set of expanded groups |
| Tree.WithCategories | src/components/CategorySidebar.tsx:196-199 | replacing one group's sub-item list keeps the length, that group's name and icon, and every other group |
| Splice.SpliceStart | src/components/CategorySidebar.tsx:252 | a `splice` start index past the end means the end; a negative one counts from the end, floored at 0 |
| Splice.RemoveAt | src/components/CategorySidebar.tsx:185 | `splice(i, 1)`: one shorter, elements before `i` kept, later ones shifted down by one |
| Splice.InsertAt | src/components/CategorySidebar.tsx:189 | `splice(k, 0, x)` at an in-range `k`: `x` lands at `k`, the elements around it keep their order |
| Splice.SpliceInsert | src/components/CategorySidebar.tsx:252 | an insertion one longer, with the item at the clamped start, and appended when the start is past the end |
| Splice.FilterOutIndex | lp/src/components/CategorySidebar.tsx:975 | `filter((_, idx) => idx !== si)` removes position `si` when it exists, and otherwise changes nothing |
| Splice.RepositionIndex | src/components/CategorySidebar.tsx:186-187 | the corrected insertion index always names a slot of the list |
| Splice.Reposition | src/components/CategorySidebar.tsx:182-189 | the reposition keeps the length and puts the moved entry at the corrected index |
| Splice.ArrayMove | lp/src/components/CategorySidebar.tsx:755 | `arrayMove(from, to)` keeps the length and puts the moved element at `to` |
| Splice.MovePermutes | src/components/CategorySidebar.tsx:185-188 | removing an element and inserting it again anywhere is a permutation |
| Splice.RemoveInserted | src/components/CategorySidebar.tsx:252 | removing what was just inserted at `k` restores the list |
| Splice.RepositionIsMove | src/components/CategorySidebar.tsx:182-189 | a group reposition is a permutation, and apart from the moved group the order is unchanged |
| Splice.RepositionInPlace | src/components/CategorySidebar.tsx:186 | inserting at `fromG` or `fromG + 1` leaves the order unchanged |
| Splice.RepositionAfter | src/components/CategorySidebar.tsx:182-188 | inserting just after target `t` puts the moved group immediately after `t` |
| Splice.RepositionBefore | src/components/CategorySidebar.tsx:182-188 | inserting at target `t` puts the moved group immediately before `t` |
| Splice.ArrayMoveIsMove | lp/src/components/CategorySidebar.tsx:725 | `arrayMove` is a permutation, and apart from the moved element the order is unchanged |
| Splice.ArrayMoveAsReposition | lp/src/components/CategorySidebar.tsx:725 | `arrayMove(from, to)` equals the HTML5 reposition at `to + 1` when moving down and at `to` when moving up |
| DomIds.StartsWith | lp/src/components/CategorySidebar.tsx:568 | `startsWith` holds exactly when every character of the prefix matches the start of the string |
| DomIds.ReplaceFirst | lp/src/components/CategorySidebar.tsx:718 | `replace` with a string pattern rewrites a leading occurrence, and returns a string without any occurrence unchanged |
| DomIds.GroupId | lp/src/components/CategorySidebar.tsx:262 | a group id is `group-` followed by a non-empty decimal numeral |
| DomIds.SubId | lp/src/components/CategorySidebar.tsx:130 | a sub-item id is `sub-` followed by a digit, so it never reads as a container id |
| DomIds.ContainerId | lp/src/components/CategorySidebar.tsx:193 | a container id is `sub-container-` followed by a non-empty decimal numeral |
| DomIds.NatStr | lp/src/components/CategorySidebar.tsx:130 | a row index prints as a non-empty string of decimal digits |
| DomIds.ParseInt | lp/src/components/CategorySidebar.tsx:718 | `parseInt` is `NaN` exactly when no digit follows the optional sign |
| DomIds.Split | lp/src/components/CategorySidebar.tsx:734 | `split` always gives at least one piece |
| DomIds.ParseNatStr | lp/src/components/CategorySidebar.tsx:718-719 | `parseInt` of a printed index gives back the index |
| DomIds.SubIdRoundTrip | lp/src/components/CategorySidebar.tsx:734-740 | `sub-G-S` read with `split('-')` and `parseInt` gives back G and S |
| DomIds.GroupIdRoundTrip | lp/src/components/CategorySidebar.tsx:718-719 | `group-G` gives back G, read either with `replace('group-', '')` or with `split('-')` |
| DomIds.ContainerIdAsSubId | lp/src/components/CategorySidebar.tsx:734-740 | read as a sub-item id, `sub-container-G` has a `NaN` group field, and G in the position field |
| DomIds.IdPrefixes | lp/src/components/CategorySidebar.tsx:717-791 | which prefix each kind of id carries: a container id starts with `sub-` as well as `sub-container-`; no other id carries another kind's prefix |
| DomIds.DecodeNodeId | lp/src/components/CategorySidebar.tsx:568-577 | a row id starts with `group-` exactly for groups and with `sub-` exactly for sub-items, and decodes back to the row |
| DomIds.DecodeOverId | lp/src/components/CategorySidebar.tsx:670-791 | for a drop target, each prefix test holds exactly for the intended kind, except that `sub-` also matches containers; row targets decode back to the row |
| DomIds.NodeIdInjective | lp/src/components/CategorySidebar.tsx:130 | two rows share an id only when they are the same row |
| Staging.StageId | lp/src/components/CategorySidebar.tsx:400 | staging adds the id when it is missing, keeps every staged id, and keeps the staging order |
| Staging.IsStaged | lp/src/components/CategorySidebar.tsx:398 | an id is staged exactly when some position of the staged list holds it |
| Staging.StageLabel | lp/src/components/CategorySidebar.tsx:401 | a recorded non-empty label is kept; otherwise the given text is recorded; every other label stays as it was |
| Staging.Unstage | lp/src/components/CategorySidebar.tsx:403-405 | unstaging removes exactly that id, never lengthens the list, and leaves a list without it unchanged |
| Staging.UnstageAt | lp/src/components/CategorySidebar.tsx:404 | in a list without duplicates, unstaging the id at position `i` removes exactly that position and keeps the order of the rest |
| Staging.StageAllIdsAppends | lp/src/components/CategorySidebar.tsx:400 | staging new, distinct ids one after another appends them in order |
| Staging.GroupSelectionNoDup | lp/src/components/CategorySidebar.tsx:409-419 | the ids a group checkbox stages are pairwise distinct |
| Staging.GroupSelection | lp/src/components/CategorySidebar.tsx:408-422 | a group checkbox touches the group, labelled with its name, then each current sub-item in order, labelled with its name |
| Staging.UnstageEach | lp/src/components/CategorySidebar.tsx:412-414 | unstaging the group and each sub-item in turn gives the fold of `unstageItem`, and keeps the list free of duplicates |
| Staging.StageEach | lp/src/components/CategorySidebar.tsx:417-419 | staging the group and each sub-item in turn gives the folds of `stageItem` on ids and labels, and keeps the list free of duplicates |
| Staging.StageIdNoDup | lp/src/components/CategorySidebar.tsx:400 | staging never creates a duplicate id |
| Staging.UnstageNoDup | lp/src/components/CategorySidebar.tsx:404 | unstaging keeps the list free of duplicates |
| Staging.StageAllIdsMembers | lp/src/components/CategorySidebar.tsx:418-420 | staging a list of entries stages exactly their ids on top of what was staged, without duplicates |
| Staging.UnstageAllMembers | lp/src/components/CategorySidebar.tsx:412-414 | unstaging a list of ids removes exactly those ids, without creating duplicates |
| Staging.StageAllLabelsKeepsFirst | lp/src/components/CategorySidebar.tsx:401 | a recorded non-empty label survives every later staging of the same id |
| Staging.StageAllLabelsKeys | lp/src/components/CategorySidebar.tsx:418-420 | the label cache gains a key for every staged id and never loses one |
| Staging.GroupSelectionIds | lp/src/components/CategorySidebar.tsx:409-420 | the ids a group checkbox touches are `group-g` and `sub-g-s` for each current `s`, and nothing else |
| Staging.CheckThenUncheck | lp/src/components/CategorySidebar.tsx:408-422 | checking and then unchecking a group leaves exactly the previously staged ids that are not in the group's selection |
| Staging.ConfirmItemsFor | lp/src/components/CategorySidebar.tsx:439 | the confirmation rows are the staged ids in order, labelled with the recorded label, or with the id when no non-empty label was recorded |
| Deletion.DeleteEntry | lp/src/components/CategorySidebar.tsx:965-977 | one confirmed entry removes at most one group, and only a group id ever shortens the tree |
| Deletion.DeleteItems | lp/src/components/CategorySidebar.tsx:983-997 | a confirmed batch never adds a group |
| Deletion.DeleteItemsIds | lp/src/components/CategorySidebar.tsx:983-997 | a batch acts through its ids alone: the same ids in the same order delete the same things, whatever the labels |
| Deletion.ConfirmGroupSelection | lp/src/components/CategorySidebar.tsx:408-447 | from an empty staging list, checking group `g`, opening the confirmation and confirming gives the result of the selection itself: an empty group is removed, any other keeps its odd-position sub-items |
| Deletion.ApplyEntries | lp/src/components/CategorySidebar.tsx:981-998 | the loop over the confirmed entries gives the in-order fold of the per-entry deletions |
| Deletion.DeleteGroupEntry | lp/src/components/CategorySidebar.tsx:984-988 | a group entry removes that group exactly when it exists and is empty, and otherwise changes nothing |
| Deletion.DeleteSubEntry | lp/src/components/CategorySidebar.tsx:989-995 | a sub-item entry removes exactly that sub-item and keeps the group's name, icon and the order of the rest; other groups are untouched; an out-of-range position is a no-op |
| Deletion.DeleteEntryShape | lp/src/components/CategorySidebar.tsx:962-979 | an entry removes at most one empty group, or at most one sub-item; no group with sub-items is ever removed |
| Deletion.DeleteItemsLength | lp/src/components/CategorySidebar.tsx:983-997 | a batch of n entries removes at most n groups and never adds one |
| Deletion.DeleteGroupSelection | lp/src/components/CategorySidebar.tsx:983-997 | confirming a checkbox-selected group removes it only when it is empty; otherwise it keeps the group with its sub-items at odd positions |
| Deletion.SelectedGroupSurvives | lp/src/components/CategorySidebar.tsx:983-997 | for `[A(x, y), B(z)]`, confirming the selection of A gives `[A(y), B(z)]` |
| Deletion.SingleDeleteSub | lp/src/components/CategorySidebar.tsx:959-977 | for `A(x, y)`, confirming the single entry `sub-0-1` leaves `A(x)` |
| Html5Sidebar.GroupInsertIndex | src/components/CategorySidebar.tsx:232 | the group insertion index is the placeholder slot, one past it for "after", or the fallback when no placeholder is shown |
| Html5Sidebar.SubInsertIndex | src/components/CategorySidebar.tsx:274 | a row drop inserts at the row, or one past it exactly when the pointer is on the lower half |
| Html5Sidebar.ContainerInsertIndex | src/components/CategorySidebar.tsx:372 | a container drop uses the row placeholder when it belongs to this group, and otherwise the end of the group |
| Html5Sidebar.SubMoved | src/components/CategorySidebar.tsx:244-255 | `moveSub` keeps the number of groups |
| Html5Sidebar.SubAppended | src/components/CategorySidebar.tsx:191-200 | a header drop keeps the number of groups |
| Html5Sidebar.MoveSubAcrossGroups | src/components/CategorySidebar.tsx:244-255 | across groups, the source list loses exactly the item and the target list gains it unchanged at the splice position; names, icons and the other groups are untouched |
| Html5Sidebar.MoveSubWithinGroup | src/components/CategorySidebar.tsx:244-255 | within one group, `moveSub` repositions with the `insertIndex - 1` correction, permutes that group's list, and touches nothing else |
| Html5Sidebar.DropOnItselfIsNoOp | src/components/CategorySidebar.tsx:265-276 | dropping a row on either half of itself changes nothing |
| Html5Sidebar.HeaderDropAppends | src/components/CategorySidebar.tsx:191-200 | a header drop appends the item to the end of the group, even its own group, and equals a container drop with no placeholder in that group |
| Html5Sidebar.GroupDropPlacement | src/components/CategorySidebar.tsx:182-189 | a group drop is a permutation that places the group right after the target on "after" and right before it on "before" |
| Html5Sidebar.ContainerDropAppends | src/components/CategorySidebar.tsx:366-376 | for `[A(x, y), B(z)]`, dropping x on B's container gives `[A(y), B(z, x)]` |
| Html5Sidebar.DropFirstAfterLast | src/components/CategorySidebar.tsx:182-189 | dropping A after C in `[A, B, C]` gives `[B, C, A]` |
| Html5Sidebar.CategorySidebar.constructor | src/components/CategorySidebar.tsx:35-66 | the seeded tree of three groups with four sub-items each, the first two groups expanded, no edit mode and no drag |
| Html5Sidebar.CategorySidebar.ToggleGroup | src/components/CategorySidebar.tsx:136-144 | the expanded set becomes `Toggled` of the old set |
| Html5Sidebar.CategorySidebar.EnterEdit | src/components/CategorySidebar.tsx:92-95 | the long-press timer turns edit mode on and remembers the pressed row |
| Html5Sidebar.CategorySidebar.ExitEdit | src/components/CategorySidebar.tsx:99 | edit mode off and no edit target |
| Html5Sidebar.CategorySidebar.DragStart | src/components/CategorySidebar.tsx:151-157 | a drag starting outside edit mode records nothing; inside it, the payload is recorded |
| Html5Sidebar.CategorySidebar.DragOverSub | src/components/CategorySidebar.tsx:159-167 | in edit mode the row placeholder follows the pointer half; outside it, it is unchanged |
| Html5Sidebar.CategorySidebar.DragEnterSub | src/components/CategorySidebar.tsx:168-174 | entering a row in edit mode shows its "before" placeholder |
| Html5Sidebar.CategorySidebar.DragOverGroup | src/components/CategorySidebar.tsx:204-211 | in edit mode the group placeholder follows the pointer half |
| Html5Sidebar.CategorySidebar.DragEnterGroup | src/components/CategorySidebar.tsx:212-216 | entering a header in edit mode shows its "before" placeholder |
| Html5Sidebar.CategorySidebar.GroupListOver | src/components/CategorySidebar.tsx:217-226 | near the list bottom, or on an empty list, the placeholder goes after the last group |
| Html5Sidebar.CategorySidebar.ContainerDragOver | src/components/CategorySidebar.tsx:356-365 | near a container's bottom, or in an empty group, the row placeholder goes after the last row |
| Html5Sidebar.CategorySidebar.ContainerDragLeave | src/components/CategorySidebar.tsx:377-386 | leaving a container removes only this group's end-of-list placeholder |
| Html5Sidebar.CategorySidebar.ClearDragState | src/components/CategorySidebar.tsx:175 | the payload and the row placeholder are cleared |
| Html5Sidebar.CategorySidebar.MoveSub | src/components/CategorySidebar.tsx:244-255 | the imperative splice-out, splice-in gives `SubMoved` |
| Html5Sidebar.CategorySidebar.DropGroup | src/components/CategorySidebar.tsx:176-203 | gated on edit mode and a payload: a group payload is repositioned, a sub-item payload is appended to the target group, and the drag state is cleared |
| Html5Sidebar.CategorySidebar.GroupListDrop | src/components/CategorySidebar.tsx:227-243 | gated: a group payload is repositioned at the placeholder or at the end; a sub-item payload is dropped without effect; the drag state is cleared |
| Html5Sidebar.CategorySidebar.DropSub | src/components/CategorySidebar.tsx:265-278 | gated: a sub-item payload moves before or after the target row; a group payload has no effect |
| Html5Sidebar.CategorySidebar.DropAtIndex | src/components/CategorySidebar.tsx:256-264 | gated: a sub-item payload moves to the given slot |
| Html5Sidebar.CategorySidebar.ContainerDrop | src/components/CategorySidebar.tsx:366-376 | gated: a sub-item payload moves to this group's row placeholder, or to the end |
| Html5Sidebar.CategorySidebar.AddSubItem | src/components/CategorySidebar.tsx:281-285 | only group `g` changes; it gains `新子项` with count 0 at its end |
| Html5Sidebar.CategorySidebar.OpenAddGroupPanel | src/components/CategorySidebar.tsx:442 | the icon picker is shown |
| Html5Sidebar.CategorySidebar.PickGroupIcon | src/components/CategorySidebar.tsx:450 | the picked icon becomes the pending icon |
| Html5Sidebar.CategorySidebar.CancelAddGroup | src/components/CategorySidebar.tsx:457 | the picker is hidden |
| Html5Sidebar.CategorySidebar.AddGroup | src/components/CategorySidebar.tsx:286-291 | an empty group `新主项` with the pending icon is appended, and the panel closes |
| DndSidebar.DropUpdate | lp/src/components/CategorySidebar.tsx:716-810 | a new tree from a drop always has as many groups as before, and the drop throws exactly when a sub-item is dropped on a container |
| DndSidebar.Proposal | lp/src/components/CategorySidebar.tsx:675-692 | the proposed confirmation row is the dragged row's id with its name, and nothing is proposed exactly for a group that still has sub-items |
| DndSidebar.Collide | lp/src/components/CategorySidebar.tsx:510-515 | when the trash zone is among the collisions it is the only one reported; otherwise the collisions pass through |
| DndSidebar.SubLabel | lp/src/components/CategorySidebar.tsx:689 | the label of an existing sub-item is its name, and `''` otherwise |
| DndSidebar.DropUpdateCases | lp/src/components/CategorySidebar.tsx:715-810 | the id-string dispatch, case by case: group on group moves with `arrayMove` only when the indices differ; same-group sub-items move with `arrayMove` from `fromS` to `toS` when those differ; cross-group moves splice in at `toS`; sub-item on container throws; every other pairing keeps the tree |
| DndSidebar.GroupDropMoves | lp/src/components/CategorySidebar.tsx:717-730 | a group dropped on another group gives a permutation, with the dragged group at the target's position and the others in order |
| DndSidebar.SameGroupDropPermutes | lp/src/components/CategorySidebar.tsx:744-762 | a same-group drop permutes that group's sub-items, puts the item at the target's position, and touches no other group |
| DndSidebar.CrossGroupDropInserts | lp/src/components/CategorySidebar.tsx:763-787 | a cross-group drop: the source group loses the item, the target group gains it at the target row's position, other groups are untouched |
| DndSidebar.ContainerDropThrows | lp/src/components/CategorySidebar.tsx:733-779 | for `[A(x, y), B(z)]`, dropping x on B's container throws |
| DndSidebar.CategorySidebar.constructor | lp/src/components/CategorySidebar.tsx:77-118 | the seeded tree of four groups with four sub-items each, the first two groups expanded; nothing staged, no drag, no dialog |
| DndSidebar.CategorySidebar.ToggleGroup | lp/src/components/CategorySidebar.tsx:499-507 | the expanded set becomes `Toggled` of the old set |
| DndSidebar.CategorySidebar.ToggleEdit | lp/src/components/CategorySidebar.tsx:842 | edit mode flips, and leaving it folds the trash panel (the effect at lines 394-396) |
| DndSidebar.CategorySidebar.ExitEdit | lp/src/components/CategorySidebar.tsx:464 | edit mode off and the trash panel folded; the staged list is kept |
| DndSidebar.CategorySidebar.ToggleGroupSelect | lp/src/components/CategorySidebar.tsx:408-422 | unchecking a staged group unstages its whole selection and keeps the labels and the mode; checking stages the selection with labels and switches to multi mode; the staged list stays free of duplicates |
| DndSidebar.CategorySidebar.ToggleSubSelect | lp/src/components/CategorySidebar.tsx:424-433 | a staged sub-item is unstaged; any other is appended with its label and switches to multi mode; nothing else is touched |
| DndSidebar.CategorySidebar.TrashButtonClick | lp/src/components/CategorySidebar.tsx:436-447 | in multi mode with something staged, a multi confirmation of the staged rows opens; otherwise nothing changes |
| DndSidebar.CategorySidebar.HandleDragStart | lp/src/components/CategorySidebar.tsx:556-580 | a second start during a drag is ignored; otherwise the row becomes active with its overlay item, the mode becomes single, and the trash panel opens |
| DndSidebar.CategorySidebar.HandleDragOver | lp/src/components/CategorySidebar.tsx:582-590 | the id of the target under the pointer, or none, is recorded |
| DndSidebar.CategorySidebar.ClearDrag | lp/src/components/CategorySidebar.tsx:815-818 | the four drag fields are reset |
| DndSidebar.CategorySidebar.HandleDragCancel | lp/src/components/CategorySidebar.tsx:592-598 | the four drag fields are reset |
| DndSidebar.CategorySidebar.HandleDragEnd | lp/src/components/CategorySidebar.tsx:600-819 | ignored outside a drag; otherwise the drag fields are reset on every path, and the outcome depends on the target: a trash hit proposes or stages the row, a row or container target applies `DropUpdate`, and no target changes nothing else |
| DndSidebar.CategorySidebar.DropWithoutTarget | lp/src/components/CategorySidebar.tsx:611-663 | a fallback trash hit proposes a single deletion in either mode, pinning the trash open in single mode; a miss changes nothing |
| DndSidebar.CategorySidebar.DropOnTarget | lp/src/components/CategorySidebar.tsx:665-810 | on the trash: single mode proposes and multi mode stages, with the tree unchanged; on any other target only the tree, or the crash flag, changes |
| DndSidebar.CategorySidebar.ProposeDeletion | lp/src/components/CategorySidebar.tsx:675-692 | a group with sub-items raises the notice and opens no confirmation; an empty group or any sub-item gives exactly one confirmation row, with its name (the fallback at lines 635-651 proposes the same way) |
| DndSidebar.CategorySidebar.StageDropped | lp/src/components/CategorySidebar.tsx:693-706 | in multi mode the dropped row's id and name are staged |
| DndSidebar.CategorySidebar.ConfirmDelete | lp/src/components/CategorySidebar.tsx:959-1003 | single mode applies the first entry, and does nothing at all with an empty list; multi mode applies every entry in order, then clears the staging and returns to single mode; an open dialog always closes |
| DndSidebar.CategorySidebar.CancelConfirm | lp/src/components/CategorySidebar.tsx:958 | the dialog and the trash panel close; the tree and the staged list are kept |
| DndSidebar.CategorySidebar.DismissConfirm | lp/src/components/CategorySidebar.tsx:946 | the dialog closes and the trash panel folds, while the trash zone stays pinned |

## Left out

- Rendering, class strings, framer-motion animation, the collapse button and
  its text-fade timers: these affect presentation only.
- Pointer geometry. The before/after half of a row, "near the bottom" of a
  list, and the fallback test of the dragged rectangle against the trash
  zone are inputs (`Position`, `nearBottom`, `hitsTrash`).
- The long-press timers. In `src/` only the timer firing is modelled
  (`EnterEdit`). In `lp/`, `startLongPress` and `clearLongPress` are passed
  to the group rows but never attached to any event, so edit mode there is
  entered only with the toggle button.
- dnd-kit itself: sensors, `rectIntersection`, `SortableContext`, and which
  target is reported. The reported target is an input of `HandleDragOver`
  and `HandleDragEnd`, and `Collide` models only the trash-first filter.
  `arrayMove` is library code that is not part of this model. It is modelled
  as "remove at `from`, insert at `to`", for in-range indices only.
- `alert` and `console.log`. The "remove the sub-items first" alert is the
  `notice` result of the drag-end handler.
- DomIds.ParseInt: leading whitespace and `0x` prefixes are not modelled.
  The ids the rows carry never contain them.
- React's update queue. Each handler's state updates are applied in order,
  to the state the handler was rendered with. React's batching and
  StrictMode double invocation are not modelled.
- Shared group objects. `src/` assigns `next[g].categories` on group objects
  shared with the previous state, and `lp/` splices inside them. The model
  uses values. When the container drop throws, the item has already been
  spliced out of the shared source group; that is not modelled, and
  `Crash` leaves the tree as it was.
- What React does after an updater throws, such as unmounting the tree.
  The model only records the `crashed` flag.
- `cancelEditIfAny` (`src/`), and `getInsertPosition` and
  `getInsertIndicator` (`lp/`). The first is never called; the other two
  only log or draw a placeholder.
- `onDropAtIndex` is modelled (`DropAtIndex`), although no element in
  `src/` uses it.
- DndSidebar.CategorySidebar.HandleDragStart: requires edit mode and an
  unstaged row, because dnd-kit attaches the drag listeners only to such
  rows.
- ThemeProvider, the other page components, both `main.tsx` files and the
  backend controller. None of them touches the sidebar.
