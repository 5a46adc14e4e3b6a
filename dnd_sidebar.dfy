/** The sidebar of `lp/src/components/CategorySidebar.tsx`: rows are sortable
    with dnd-kit, every row carries a string id (`group-G`, `sub-G-S`, the
    droppable `sub-container-G` and `trash-dropzone`), and the drag-end
    handler decodes those ids again to decide what to do. Rows can also be
    deleted, one at a time by dropping them on the trash zone, or in a batch
    staged with checkboxes. The component is the class `CategorySidebar`,
    one method per event handler. */
module DndSidebar {
  import opened Options
  import opened Tree
  import opened Splice
  import opened DomIds
  import opened Staging
  import opened Deletion
  import opened Html5Sidebar

  /** `deleteMode` and `confirmMode`. */
  datatype Mode = Single | Multi

  /** `activeItem`: the row shown in the drag overlay. */
  datatype DragItem = DraggedGroup(group: Group) | DraggedSub(sub: SubItem)

  /** What the `setGroups` updater of a drop does: nothing, a new tree, or a
      `TypeError` thrown while the next render runs the updater. */
  datatype TreeUpdate = Keep | Replace(next: seq<Group>) | Crash

  /** The tree once the render has run the updater: a thrown updater
      leaves the last rendered tree. */
  function Applied(groups: seq<Group>, u: TreeUpdate): seq<Group>
  {
    if u.Replace? then u.next else groups
  }

  /** A draggable id the sortable rows can report names an existing row. */
  predicate NodeIn(groups: seq<Group>, r: NodeRef)
  {
    match r
    case GroupRef(g) => g < |groups|
    case SubRef(g, s) => g < |groups| && s < |groups[g].categories|
  }

  /** A droppable id the collision detection can report names an existing
      row or container, or the trash zone. */
  predicate TargetIn(groups: seq<Group>, t: OverTarget)
  {
    match t
    case OverGroup(g) => g < |groups|
    case OverSub(g, s) => g < |groups| && s < |groups[g].categories|
    case OverContainer(g) => g < |groups|
    case OverTrash => true
  }

  /** The first collision whose id is `trash-dropzone` (`results.find`). */
  function FindTrash(results: seq<OverTarget>): (hit: Option<OverTarget>)
    ensures hit.Some? <==> OverTrash in results
    ensures hit.Some? ==> hit.value == OverTrash
  {
    if |results| == 0 then None
    else
      DecodeOverId(results[0]);
      if OverId(results[0]) == TrashId then Some(results[0])
      else
        var rest := FindTrash(results[1..]);
        assert results == [results[0]] + results[1..];
        rest
  }

  /** `customCollisionDetection`: when the trash zone is among the
      rectangles the dragged row intersects it is the only collision
      reported, so a drop over the trash zone and a row at once always goes
      to the trash; otherwise the collisions pass through unchanged. */
  function Collide(results: seq<OverTarget>): (r: seq<OverTarget>)
    ensures OverTrash in results ==> r == [OverTrash]
    ensures OverTrash !in results ==> r == results
  {
    var hit := FindTrash(results);
    if hit.Some? then [hit.value] else results
  }

  /** What `handleDragEnd` does to the tree for a drop on anything but the
      trash zone, deciding on the two id strings the way the handler does.
      A group id on a group id moves the group with `arrayMove` when the
      indices differ. A `sub-` id on a `sub-` id takes the fields of
      `split('-')`: the same group index moves the sub-item with
      `arrayMove`, a different one splices it out and in at the target
      position. A `sub-container-G` id also starts with `sub-`, so it lands in
      the same branch; its group field is `parseInt("container")`, which is
      `NaN`, and reading the categories of `newItems[NaN]` throws. The
      handler's own container branch is never reached. Every other pairing
      leaves the tree alone. */
  function DropUpdate(groups: seq<Group>, active: NodeRef, over: OverTarget): (u: TreeUpdate)
    requires NodeIn(groups, active) && TargetIn(groups, over)
    ensures u.Replace? ==> |u.next| == |groups|
    ensures u.Crash? <==> active.SubRef? && over.OverContainer?
  {
    var aid := NodeId(active);
    var oid := OverId(over);
    DecodeNodeId(active);
    DecodeOverId(over);
    if StartsWith(aid, "group-") && StartsWith(oid, "group-") then
      var a := GroupIndexOf(aid);
      var o := GroupIndexOf(oid);
      // both ids name existing groups, so both parse
      if a.Some? && o.Some? && 0 <= a.value < |groups| && 0 <= o.value < |groups| then
        if a.value == o.value then Keep else Replace(ArrayMove(groups, a.value, o.value))
      else Keep
    else if StartsWith(aid, "sub-") && StartsWith(oid, "sub-") then
      var fromG := SubField(aid, 1);
      var fromS := SubField(aid, 2);
      var toG := SubField(oid, 1);
      var toS := SubField(oid, 2);
      // the active id names an existing sub-item, so both of its fields parse
      if !(fromG.Some? && 0 <= fromG.value < |groups| && fromS.Some? && 0 <= fromS.value < |groups[fromG.value].categories|) then Crash
      else if fromG == toG then
        var cats := groups[fromG.value].categories;
        if fromS == toS then Keep
        else if toS.Some? && 0 <= toS.value < |cats| then
          Replace(WithCategories(groups, fromG.value, ArrayMove(cats, fromS.value, toS.value)))
        else Keep
      else if toG.Some? && 0 <= toG.value < |groups| && toS.Some? then
        Replace(SubMoved(groups, fromG.value, fromS.value, toG.value, toS.value))
      else Crash
    else Keep
  }

  /** The drop outcome for every pairing of a dragged row and a target. */
  lemma DropUpdateCases(groups: seq<Group>, active: NodeRef, over: OverTarget)
    requires NodeIn(groups, active) && TargetIn(groups, over)
    ensures active.GroupRef? && over.OverGroup? ==>
              DropUpdate(groups, active, over) ==
                if active.g == over.g then Keep else Replace(ArrayMove(groups, active.g, over.g))
    ensures active.SubRef? && over.OverSub? && active.g == over.g ==>
              DropUpdate(groups, active, over) ==
                if active.s == over.s then Keep
                else Replace(WithCategories(groups, active.g, ArrayMove(groups[active.g].categories, active.s, over.s)))
    ensures active.SubRef? && over.OverSub? && active.g != over.g ==>
              DropUpdate(groups, active, over) == Replace(SubMoved(groups, active.g, active.s, over.g, over.s))
    ensures active.SubRef? && over.OverContainer? ==> DropUpdate(groups, active, over) == Crash
    ensures active.GroupRef? && !over.OverGroup? ==> DropUpdate(groups, active, over) == Keep
    ensures active.SubRef? && (over.OverGroup? || over.OverTrash?) ==> DropUpdate(groups, active, over) == Keep
  {
    DecodeNodeId(active);
    DecodeOverId(over);
  }

  /** A group dropped on another group is a permutation of the groups that
      puts the dragged group at the target's position and keeps the others
      in order. */
  lemma GroupDropMoves(groups: seq<Group>, a: nat, o: nat)
    requires a < |groups| && o < |groups| && a != o
    ensures var u := DropUpdate(groups, GroupRef(a), OverGroup(o));
            && u.Replace? && |u.next| == |groups|
            && multiset(u.next) == multiset(groups)
            && u.next[o] == groups[a]
            && RemoveAt(u.next, o) == RemoveAt(groups, a)
  {
    DropUpdateCases(groups, GroupRef(a), OverGroup(o));
    ArrayMoveIsMove(groups, a, o);
  }

  /** A sub-item dropped on another row of its own group permutes that
      group's sub-items, puts it at the target's position, and changes no
      other group. */
  lemma SameGroupDropPermutes(groups: seq<Group>, g: nat, s: nat, t: nat)
    requires g < |groups| && s < |groups[g].categories| && t < |groups[g].categories| && s != t
    ensures var u := DropUpdate(groups, SubRef(g, s), OverSub(g, t));
            var cats := groups[g].categories;
            && u.Replace? && |u.next| == |groups|
            && u.next[g].name == groups[g].name && u.next[g].icon == groups[g].icon
            && multiset(u.next[g].categories) == multiset(cats)
            && |u.next[g].categories| == |cats|
            && u.next[g].categories[t] == cats[s]
            && RemoveAt(u.next[g].categories, t) == RemoveAt(cats, s)
            && (forall k :: 0 <= k < |groups| && k != g ==> u.next[k] == groups[k])
  {
    var cats := groups[g].categories;
    DropUpdateCases(groups, SubRef(g, s), OverSub(g, t));
    var r := WithCategories(groups, g, ArrayMove(cats, s, t));
    assert DropUpdate(groups, SubRef(g, s), OverSub(g, t)) == Replace(r);
    ArrayMoveIsMove(cats, s, t);
  }

  /** A sub-item dropped on a row of another group leaves its own group and
      takes the target row's position in the other group, pushing that row
      and the ones after it down; every other group is untouched. */
  lemma CrossGroupDropInserts(groups: seq<Group>, g: nat, s: nat, h: nat, t: nat)
    requires g < |groups| && s < |groups[g].categories| && h < |groups| && t < |groups[h].categories| && g != h
    ensures var u := DropUpdate(groups, SubRef(g, s), OverSub(h, t));
            && u.Replace? && |u.next| == |groups|
            && u.next[g] == groups[g].(categories := RemoveAt(groups[g].categories, s))
            && u.next[h] == groups[h].(categories := InsertAt(groups[h].categories, t, groups[g].categories[s]))
            && (forall k :: 0 <= k < |groups| && k != g && k != h ==> u.next[k] == groups[k])
  {
    DropUpdateCases(groups, SubRef(g, s), OverSub(h, t));
    MoveSubAcrossGroups(groups, g, s, h, t);
  }

  /** `[A(x, y), B(z)]`: dropping x on the sub-item container of B throws
      instead of giving `[A(y), B(z, x)]`. */
  lemma ContainerDropThrows(a: Group, b: Group, x: SubItem, y: SubItem, z: SubItem)
    requires a.categories == [x, y] && b.categories == [z]
    ensures DropUpdate([a, b], SubRef(0, 0), OverContainer(1)) == Crash
  {
    DropUpdateCases([a, b], SubRef(0, 0), OverContainer(1));
  }

  /** The name of a row. */
  function NodeName(groups: seq<Group>, r: NodeRef): string
    requires NodeIn(groups, r)
  {
    match r
    case GroupRef(g) => groups[g].name
    case SubRef(g, s) => groups[g].categories[s].name
  }

  /** The row `handleDragStart` shows in the overlay. */
  function DraggedOf(groups: seq<Group>, r: NodeRef): DragItem
    requires NodeIn(groups, r)
  {
    match r
    case GroupRef(g) => DraggedGroup(groups[g])
    case SubRef(g, s) => DraggedSub(groups[g].categories[s])
  }

  /** The confirmation a single-mode drop on the trash proposes: the row with
      its name, except for a group that still has sub-items, which is refused
      with a notice instead (`None`). */
  function Proposal(groups: seq<Group>, r: NodeRef): (p: Option<Item>)
    requires NodeIn(groups, r)
    ensures p.Some? ==> p.value == Item(NodeId(r), NodeName(groups, r))
    ensures p.None? <==> r.GroupRef? && |groups[r.g].categories| > 0
  {
    match r
    case GroupRef(g) => if groups[g].categories == [] then Some(Item(GroupId(g), groups[g].name)) else None
    case SubRef(g, s) => Some(Item(SubId(g, s), groups[g].categories[s].name))
  }

  /** `groups[g]?.categories?.[s]?.name || ''`. */
  function SubLabel(groups: seq<Group>, g: Option<int>, s: Option<int>): (text: string)
    ensures g.Some? && 0 <= g.value < |groups| && s.Some? && 0 <= s.value < |groups[g.value].categories| ==>
              text == groups[g.value].categories[s.value].name
    ensures !(g.Some? && 0 <= g.value < |groups| && s.Some? && 0 <= s.value < |groups[g.value].categories|) ==> text == ""
  {
    if g.Some? && 0 <= g.value < |groups| && s.Some? && 0 <= s.value < |groups[g.value].categories|
    then groups[g.value].categories[s.value].name
    else ""
  }

  /** The drop ends on the trash: reported by the collision detection, or,
      with no target reported, found by the fallback test of the dragged
      rectangle's centre against the trash zone's rectangle. */
  predicate TrashDrop(over: Option<OverTarget>, hitsTrash: bool)
  {
    over == Some(OverTrash) || (over.None? && hitsTrash)
  }

  /** The component state of `CategorySidebar` in `lp/`. */
  class CategorySidebar {
    var groups: seq<Group>
    var isEdit: bool
    var openGroups: set<string>
    var activeId: Option<string>
    var overId: Option<string>
    var activeItem: Option<DragItem>
    var isDragging: bool
    var deleteMode: Mode
    var stagedIds: seq<string>
    var stagedLabels: map<string, string>
    var trashOpen: bool
    var keepTrashVisible: bool
    var confirmOpen: bool
    var confirmMode: Mode
    var confirmItems: seq<Item>
    /** A state updater has thrown during rendering. */
    var crashed: bool

    /** The staged list never repeats an id, a drag is in progress exactly
        when an active id is recorded, the overlay row exists only during a
        drag, and an open confirmation always lists something. */
    ghost predicate Valid()
      reads this
    {
      && NoDup(stagedIds)
      && (isDragging <==> activeId.Some?)
      && (activeItem.Some? ==> isDragging)
      && (confirmOpen ==> |confirmItems| > 0)
    }

    /** The seeded mock tree of four groups, the first two expanded, nothing
        staged, no drag and no dialog. */
    constructor ()
      ensures Valid()
      ensures |groups| == 4 && forall g :: 0 <= g < 4 ==> |groups[g].categories| == 4
      ensures openGroups == {"技术分享", "学习笔记"} && !isEdit && !crashed
      ensures activeId == None && overId == None && activeItem == None && !isDragging
      ensures deleteMode == Single && stagedIds == [] && stagedLabels == map[]
      ensures !trashOpen && !keepTrashVisible && !confirmOpen && confirmMode == Single && confirmItems == []
    {
      groups := [
        Group("技术分享", Code, [SubItem("前端开发", 23), SubItem("后端开发", 15), SubItem("数据库", 8), SubItem("DevOps", 12)]),
        Group("学习笔记", BookOpen, [SubItem("算法学习", 18), SubItem("数据结构", 14), SubItem("系统设计", 9), SubItem("面试准备", 22)]),
        Group("项目经验", Rocket, [SubItem("个人项目", 6), SubItem("开源贡献", 4), SubItem("团队协作", 11), SubItem("技术分享", 7)]),
        Group("生活分享", Heart, [SubItem("日常记录", 35), SubItem("旅行见闻", 12), SubItem("读书心得", 18), SubItem("生活感悟", 25)])
      ];
      isEdit := false;
      openGroups := {"技术分享", "学习笔记"};
      activeId := None;
      overId := None;
      activeItem := None;
      isDragging := false;
      deleteMode := Single;
      stagedIds := [];
      stagedLabels := map[];
      trashOpen := false;
      keepTrashVisible := false;
      confirmOpen := false;
      confirmMode := Single;
      confirmItems := [];
      crashed := false;
    }

    /** `toggleGroup`: expand or collapse exactly the named group. */
    method ToggleGroup(name: string)
      modifies this`openGroups
      ensures openGroups == Toggled(old(openGroups), name)
    {
      var newOpenGroups := openGroups;
      if name in newOpenGroups {
        newOpenGroups := newOpenGroups - {name};
      } else {
        newOpenGroups := newOpenGroups + {name};
      }
      openGroups := newOpenGroups;
    }

    /** The edit-mode button: flips edit mode; leaving it folds the trash
        panel away. The staged list, the tree and any dialog stay. */
    method ToggleEdit()
      modifies this`isEdit, this`trashOpen
      ensures isEdit == !old(isEdit)
      ensures trashOpen == (old(trashOpen) && isEdit)
    {
      isEdit := !isEdit;
      if !isEdit {
        trashOpen := false;
      }
    }

    /** `exitEdit`: edit mode off and the trash panel folded away; the staged
        list is kept. */
    method ExitEdit()
      modifies this`isEdit, this`trashOpen
      ensures !isEdit && !trashOpen
    {
      isEdit := false;
      trashOpen := false;
    }

    /** `handleToggleGroupSelect`: unchecking a checked group unstages it and
        every one of its current sub-items; checking it stages them, with
        their names as labels, and switches to multi mode. */
    method ToggleGroupSelect(gIndex: nat)
      requires Valid()
      modifies this`stagedIds, this`stagedLabels, this`deleteMode
      ensures Valid()
      ensures var sel := GroupSelection(groups, gIndex);
              GroupId(gIndex) in old(stagedIds) ==>
                && stagedIds == UnstageAll(old(stagedIds), ItemIds(sel))
                && stagedLabels == old(stagedLabels) && deleteMode == old(deleteMode)
      ensures var sel := GroupSelection(groups, gIndex);
              GroupId(gIndex) !in old(stagedIds) ==>
                && stagedIds == StageAllIds(old(stagedIds), sel)
                && stagedLabels == StageAllLabels(old(stagedLabels), sel)
                && deleteMode == Multi
    {
      var sel := GroupSelection(groups, gIndex);
      if IsStaged(stagedIds, GroupId(gIndex)) {
        stagedIds := UnstageEach(stagedIds, ItemIds(sel));
      } else {
        stagedIds, stagedLabels := StageEach(stagedIds, stagedLabels, sel);
        deleteMode := Multi;
      }
    }

    /** `handleToggleSubSelect`: a staged sub-item is unstaged; any other is
        staged with its name and switches to multi mode. Its group's own
        checkbox is not touched. */
    method ToggleSubSelect(gIndex: nat, sIndex: nat)
      requires Valid()
      modifies this`stagedIds, this`stagedLabels, this`deleteMode
      ensures Valid()
      ensures var sid := SubId(gIndex, sIndex);
              sid in old(stagedIds) ==>
                stagedIds == Unstage(old(stagedIds), sid) && stagedLabels == old(stagedLabels) && deleteMode == old(deleteMode)
      ensures var sid := SubId(gIndex, sIndex);
              sid !in old(stagedIds) ==>
                && stagedIds == old(stagedIds) + [sid]
                && stagedLabels == StageLabel(old(stagedLabels), sid, SubLabel(groups, Some(gIndex), Some(sIndex)))
                && deleteMode == Multi
    {
      var sid := SubId(gIndex, sIndex);
      if IsStaged(stagedIds, sid) {
        UnstageNoDup(stagedIds, sid);
        stagedIds := Unstage(stagedIds, sid);
      } else {
        StageIdNoDup(stagedIds, sid);
        stagedIds := StageId(stagedIds, sid);
        stagedLabels := StageLabel(stagedLabels, sid, SubLabel(groups, Some(gIndex), Some(sIndex)));
        deleteMode := Multi;
      }
    }

    /** `handleTrashButtonClick`: in multi mode with something staged, opens
        a multi-mode confirmation listing every staged id in staging order
        with its label; otherwise does nothing. */
    method TrashButtonClick()
      requires Valid()
      modifies this`confirmItems, this`confirmMode, this`confirmOpen
      ensures Valid()
      ensures deleteMode == Multi && |stagedIds| > 0 ==>
                confirmOpen && confirmMode == Multi && confirmItems == ConfirmItemsFor(stagedIds, stagedLabels)
      ensures !(deleteMode == Multi && |stagedIds| > 0) ==>
                confirmOpen == old(confirmOpen) && confirmMode == old(confirmMode) && confirmItems == old(confirmItems)
    {
      if deleteMode == Multi && |stagedIds| > 0 {
        var items := ConfirmItemsFor(stagedIds, stagedLabels);
        confirmItems := items;
        confirmMode := Multi;
        confirmOpen := true;
        return;
      }
    }

    /** `handleDragStart`. dnd-kit only starts a drag on a row whose listeners
        are attached: in edit mode, on a row that is not staged. A second
        start during a drag is ignored; otherwise the row becomes active, the
        overlay shows it, the mode falls back to single and the trash panel
        opens. */
    method HandleDragStart(active: NodeRef)
      requires Valid() && NodeIn(groups, active)
      requires isEdit && NodeId(active) !in stagedIds
      modifies this`activeId, this`isDragging, this`deleteMode, this`trashOpen, this`activeItem
      ensures Valid()
      ensures old(isDragging) ==> unchanged(this)
      ensures !old(isDragging) ==>
                && activeId == Some(NodeId(active)) && isDragging
                && activeItem == Some(DraggedOf(groups, active))
                && deleteMode == Single && trashOpen
    {
      if isDragging {
        return;
      }
      var id := NodeId(active);
      DecodeNodeId(active);
      activeId := Some(id);
      isDragging := true;
      deleteMode := Single;
      trashOpen := true;
      if StartsWith(id, "sub-") {
        var g := SubField(id, 1).value;
        var s := SubField(id, 2).value;
        var group := groups[g];
        var item := group.categories[s];
        activeItem := Some(DraggedSub(item));
      } else if StartsWith(id, "group-") {
        var g := SubField(id, 1).value;
        var group := groups[g];
        activeItem := Some(DraggedGroup(group));
      }
    }

    /** `handleDragOver`: records the id of the target under the pointer. */
    method HandleDragOver(over: Option<OverTarget>)
      modifies this`overId
      ensures overId == if over.Some? then Some(OverId(over.value)) else None
    {
      var newOverId := if over.Some? then Some(OverId(over.value)) else None;
      if newOverId != overId {
        overId := newOverId;
      }
    }

    /** Every exit from a drag clears the four drag fields. */
    method ClearDrag()
      modifies this`activeId, this`overId, this`activeItem, this`isDragging
      ensures activeId == None && overId == None && activeItem == None && !isDragging
    {
      activeId := None;
      overId := None;
      activeItem := None;
      isDragging := false;
    }

    /** `handleDragCancel`. */
    method HandleDragCancel()
      requires Valid()
      modifies this`activeId, this`overId, this`activeItem, this`isDragging
      ensures Valid()
      ensures activeId == None && overId == None && activeItem == None && !isDragging
    {
      ClearDrag();
    }

    /** `handleDragEnd` for the row `active` released over `over` (`None` when
        dnd-kit reports no target, in which case `hitsTrash` is the fallback
        rectangle test). Returns whether the "remove the sub-items first"
        notice is shown. Outside a drag nothing happens; otherwise the drag
        fields are cleared on every path. */
    method HandleDragEnd(active: NodeRef, over: Option<OverTarget>, hitsTrash: bool) returns (notice: bool)
      requires Valid() && NodeIn(groups, active)
      requires over.Some? ==> TargetIn(groups, over.value)
      modifies this`groups, this`activeId, this`overId, this`activeItem, this`isDragging, this`stagedIds,
               this`stagedLabels, this`trashOpen, this`keepTrashVisible, this`confirmOpen, this`confirmMode,
               this`confirmItems, this`crashed
      ensures Valid()
      ensures !old(isDragging) ==> !notice && unchanged(this)
      ensures old(isDragging) ==> activeId == None && overId == None && activeItem == None && !isDragging
      // single proposal: a trash drop in single mode, or any fallback trash hit
      ensures old(isDragging) && TrashDrop(over, hitsTrash) && (over.None? || old(deleteMode) == Single) ==>
                && groups == old(groups) && crashed == old(crashed)
                && stagedIds == old(stagedIds) && stagedLabels == old(stagedLabels)
                && (notice <==> Proposal(old(groups), active).None?)
                && (Proposal(old(groups), active).Some? ==>
                      confirmOpen && confirmMode == Single && confirmItems == [Proposal(old(groups), active).value])
                && (Proposal(old(groups), active).None? ==>
                      confirmOpen == old(confirmOpen) && confirmMode == old(confirmMode) && confirmItems == old(confirmItems))
      ensures old(isDragging) && TrashDrop(over, hitsTrash) && old(deleteMode) == Single ==> trashOpen && keepTrashVisible
      ensures old(isDragging) && over.None? && hitsTrash && old(deleteMode) == Multi ==>
                trashOpen == old(trashOpen) && keepTrashVisible == old(keepTrashVisible)
      // multi mode: a trash drop stages the row
      ensures old(isDragging) && over == Some(OverTrash) && old(deleteMode) == Multi ==>
                && !notice && groups == old(groups) && crashed == old(crashed)
                && stagedIds == StageId(old(stagedIds), NodeId(active))
                && stagedLabels == StageLabel(old(stagedLabels), NodeId(active), NodeName(old(groups), active))
                && trashOpen == old(trashOpen) && keepTrashVisible == old(keepTrashVisible)
                && confirmOpen == old(confirmOpen) && confirmMode == old(confirmMode) && confirmItems == old(confirmItems)
      // no target at all
      ensures old(isDragging) && over.None? && !hitsTrash ==>
                && !notice && groups == old(groups) && crashed == old(crashed)
                && stagedIds == old(stagedIds) && stagedLabels == old(stagedLabels)
                && trashOpen == old(trashOpen) && keepTrashVisible == old(keepTrashVisible)
                && confirmOpen == old(confirmOpen) && confirmMode == old(confirmMode) && confirmItems == old(confirmItems)
      // a row or a container
      ensures old(isDragging) && over.Some? && over.value != OverTrash ==>
                && !notice && stagedIds == old(stagedIds) && stagedLabels == old(stagedLabels)
                && trashOpen == old(trashOpen) && keepTrashVisible == old(keepTrashVisible)
                && confirmOpen == old(confirmOpen) && confirmMode == old(confirmMode) && confirmItems == old(confirmItems)
                && groups == Applied(old(groups), DropUpdate(old(groups), active, over.value))
                && crashed == (old(crashed) || DropUpdate(old(groups), active, over.value).Crash?)
    {
      notice := false;
      if !isDragging {
        return;
      }
      if over.None? {
        notice := DropWithoutTarget(active, hitsTrash);
      } else {
        notice := DropOnTarget(active, over.value);
      }
      ClearDrag();
    }

    /** The branch of `handleDragEnd` where dnd-kit reports no target: when
        the fallback test puts the dragged row inside the trash zone, the
        trash panel is pinned open (single mode only) and a single-mode
        deletion is proposed whatever the mode; otherwise nothing happens. */
    method DropWithoutTarget(active: NodeRef, hitsTrash: bool) returns (notice: bool)
      requires Valid() && NodeIn(groups, active)
      modifies this`trashOpen, this`keepTrashVisible, this`confirmOpen, this`confirmMode, this`confirmItems
      ensures Valid()
      ensures !hitsTrash ==> !notice && unchanged(this)
      ensures hitsTrash ==>
                && (notice <==> Proposal(groups, active).None?)
                && (Proposal(groups, active).Some? ==>
                      confirmOpen && confirmMode == Single && confirmItems == [Proposal(groups, active).value])
                && (Proposal(groups, active).None? ==>
                      confirmOpen == old(confirmOpen) && confirmMode == old(confirmMode) && confirmItems == old(confirmItems))
                && (deleteMode == Single ==> trashOpen && keepTrashVisible)
                && (deleteMode == Multi ==> trashOpen == old(trashOpen) && keepTrashVisible == old(keepTrashVisible))
    {
      notice := false;
      if hitsTrash {
        if deleteMode == Single {
          trashOpen := true;
          keepTrashVisible := true;
        }
        notice := ProposeDeletion(active);
      }
    }

    /** The branches of `handleDragEnd` with a target: the trash zone proposes
        a deletion (single mode) or stages the row (multi mode) and leaves
        the tree alone; any other target leaves the staging and the dialogs
        alone and applies `DropUpdate`. */
    method DropOnTarget(active: NodeRef, over: OverTarget) returns (notice: bool)
      requires Valid() && NodeIn(groups, active) && TargetIn(groups, over)
      modifies this`groups, this`stagedIds, this`stagedLabels, this`trashOpen, this`keepTrashVisible,
               this`confirmOpen, this`confirmMode, this`confirmItems, this`crashed
      ensures Valid()
      ensures over == OverTrash ==> groups == old(groups) && crashed == old(crashed)
      ensures over == OverTrash && deleteMode == Single ==>
                && trashOpen && keepTrashVisible
                && stagedIds == old(stagedIds) && stagedLabels == old(stagedLabels)
                && (notice <==> Proposal(groups, active).None?)
                && (Proposal(groups, active).Some? ==>
                      confirmOpen && confirmMode == Single && confirmItems == [Proposal(groups, active).value])
                && (Proposal(groups, active).None? ==>
                      confirmOpen == old(confirmOpen) && confirmMode == old(confirmMode) && confirmItems == old(confirmItems))
      ensures over == OverTrash && deleteMode == Multi ==>
                && !notice
                && stagedIds == StageId(old(stagedIds), NodeId(active))
                && stagedLabels == StageLabel(old(stagedLabels), NodeId(active), NodeName(groups, active))
                && trashOpen == old(trashOpen) && keepTrashVisible == old(keepTrashVisible)
                && confirmOpen == old(confirmOpen) && confirmMode == old(confirmMode) && confirmItems == old(confirmItems)
      ensures over != OverTrash ==>
                && !notice && stagedIds == old(stagedIds) && stagedLabels == old(stagedLabels)
                && trashOpen == old(trashOpen) && keepTrashVisible == old(keepTrashVisible)
                && confirmOpen == old(confirmOpen) && confirmMode == old(confirmMode) && confirmItems == old(confirmItems)
                && groups == Applied(old(groups), DropUpdate(old(groups), active, over))
                && crashed == (old(crashed) || DropUpdate(old(groups), active, over).Crash?)
    {
      notice := false;
      var oid := OverId(over);
      DecodeOverId(over);
      if oid == TrashId {
        if deleteMode == Single {
          trashOpen := true;
          keepTrashVisible := true;
          notice := ProposeDeletion(active);
        } else {
          StageDropped(active);
        }
        return;
      }
      var update := DropUpdate(groups, active, over);
      groups := Applied(groups, update);
      crashed := crashed || update.Crash?;
    }

    /** The confirmation a drop on the trash proposes in single mode (and, by
        the fallback test, in either mode): a group with sub-items raises the
        notice instead; otherwise the row is listed with its name and a
        single-mode confirmation opens. */
    method ProposeDeletion(active: NodeRef) returns (notice: bool)
      requires Valid() && NodeIn(groups, active)
      modifies this`confirmItems, this`confirmMode, this`confirmOpen
      ensures Valid()
      ensures notice <==> Proposal(groups, active).None?
      ensures Proposal(groups, active).Some? ==>
                confirmOpen && confirmMode == Single && confirmItems == [Proposal(groups, active).value]
      ensures Proposal(groups, active).None? ==>
                confirmOpen == old(confirmOpen) && confirmMode == old(confirmMode) && confirmItems == old(confirmItems)
    {
      notice := false;
      var aid := NodeId(active);
      DecodeNodeId(active);
      if StartsWith(aid, "group-") {
        var gIndex := GroupIndexOf(aid);
        if gIndex.Some? && 0 <= gIndex.value < |groups| && |groups[gIndex.value].categories| == 0 {
          confirmItems := [Item(aid, groups[gIndex.value].name)];
          confirmMode := Single;
          confirmOpen := true;
        } else {
          notice := true;
        }
      } else if StartsWith(aid, "sub-") {
        var gIndex := SubField(aid, 1);
        var sIndex := SubField(aid, 2);
        confirmItems := [Item(aid, SubLabel(groups, gIndex, sIndex))];
        confirmMode := Single;
        confirmOpen := true;
      }
    }

    /** A drop on the trash in multi mode: `stageItem` with the row's name. */
    method StageDropped(active: NodeRef)
      requires Valid() && NodeIn(groups, active)
      modifies this`stagedIds, this`stagedLabels
      ensures Valid()
      ensures stagedIds == StageId(old(stagedIds), NodeId(active))
      ensures stagedLabels == StageLabel(old(stagedLabels), NodeId(active), NodeName(groups, active))
    {
      var aid := NodeId(active);
      DecodeNodeId(active);
      if StartsWith(aid, "group-") {
        var gIndex := GroupIndexOf(aid).value;
        var group := groups[gIndex];
        StageIdNoDup(stagedIds, aid);
        stagedIds := StageId(stagedIds, aid);
        stagedLabels := StageLabel(stagedLabels, aid, group.name);
      } else if StartsWith(aid, "sub-") {
        var gIndex := SubField(aid, 1);
        var sIndex := SubField(aid, 2);
        StageIdNoDup(stagedIds, aid);
        stagedIds := StageId(stagedIds, aid);
        stagedLabels := StageLabel(stagedLabels, aid, SubLabel(groups, gIndex, sIndex));
      }
    }

    /** The delete button of the confirmation. In single mode it applies the
        first listed entry (and does nothing at all when the list is empty);
        in multi mode it applies every entry in order, then empties the
        staged list and its labels and falls back to single mode. The dialog
        and the trash panel close. */
    method ConfirmDelete()
      requires Valid()
      modifies this`groups, this`stagedIds, this`stagedLabels, this`deleteMode, this`confirmOpen,
               this`trashOpen, this`keepTrashVisible
      ensures Valid()
      ensures old(confirmOpen) ==> !confirmOpen && !trashOpen && !keepTrashVisible
      ensures confirmMode == Single && confirmItems == [] ==> unchanged(this)
      ensures confirmMode == Single && confirmItems != [] ==>
                && groups == DeleteEntry(old(groups), confirmItems[0].id)
                && stagedIds == old(stagedIds) && stagedLabels == old(stagedLabels) && deleteMode == old(deleteMode)
                && !confirmOpen && !trashOpen && !keepTrashVisible
      ensures confirmMode == Multi ==>
                && groups == DeleteItems(old(groups), confirmItems)
                && stagedIds == [] && stagedLabels == map[] && deleteMode == Single
                && !confirmOpen && !trashOpen && !keepTrashVisible
    {
      if confirmMode == Single {
        if |confirmItems| == 0 {
          return;
        }
        var item := confirmItems[0];
        groups := DeleteEntry(groups, item.id);
      } else {
        var next := ApplyEntries(groups, confirmItems);
        groups := next;
        stagedIds := [];
        stagedLabels := map[];
        deleteMode := Single;
      }
      confirmOpen := false;
      trashOpen := false;
      keepTrashVisible := false;
    }

    /** The cancel button of the confirmation: the dialog and the trash panel
        close; the tree and the staged list are kept. */
    method CancelConfirm()
      requires Valid()
      modifies this`confirmOpen, this`trashOpen, this`keepTrashVisible
      ensures Valid()
      ensures !confirmOpen && !trashOpen && !keepTrashVisible
    {
      confirmOpen := false;
      trashOpen := false;
      keepTrashVisible := false;
    }

    /** A click on the backdrop of the confirmation: the dialog closes and the
        trash panel folds, but the trash zone stays pinned
        (`keepTrashVisible` is kept). */
    method DismissConfirm()
      requires Valid()
      modifies this`confirmOpen, this`trashOpen
      ensures Valid()
      ensures !confirmOpen && !trashOpen
    {
      confirmOpen := false;
      trashOpen := false;
    }
  }
}
