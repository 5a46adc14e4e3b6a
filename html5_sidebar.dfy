/** The sidebar of `src/components/CategorySidebar.tsx`: groups and sub-items
    are reordered with the browser's native drag-and-drop events, only while
    edit mode is on. The pure part is the arithmetic that turns a drop
    target into an insertion index; the component itself is the class
    `CategorySidebar`, one method per event handler. */
module Html5Sidebar {
  import opened Options
  import opened Tree
  import opened Splice

  /** What `onDragStart` records in `dragItemRef`. */
  datatype Payload = GroupPayload(gIndex: nat) | SubPayload(gIndex: nat, sIndex: nat)

  /** The row placeholder `dragOver`: insert before or after row `sIndex` of group `gIndex`. */
  datatype SubPlaceholder = SubPlaceholder(gIndex: int, sIndex: int, position: Position)

  /** The group placeholder `dragOverGroup`: insert before or after group `index`. */
  datatype GroupPlaceholder = GroupPlaceholder(index: int, position: Position)

  /** A payload still names an existing group or sub-item. */
  predicate PayloadIn(groups: seq<Group>, p: Payload)
  {
    match p
    case GroupPayload(g) => g < |groups|
    case SubPayload(g, s) => g < |groups| && s < |groups[g].categories|
  }

  /** The index a group drop inserts at: the placeholder's slot when one is
      shown (one past it for "after"), otherwise `fallback`. */
  function GroupInsertIndex(placeholder: Option<GroupPlaceholder>, fallback: int): (k: int)
    ensures placeholder.None? ==> k == fallback
    ensures placeholder.Some? && placeholder.value.position == After ==> k == placeholder.value.index + 1
    ensures placeholder.Some? && placeholder.value.position == Before ==> k == placeholder.value.index
  {
    match placeholder
    case None => fallback
    case Some(GroupPlaceholder(index, position)) => if position == After then index + 1 else index
  }

  /** The index a drop on row `toS` inserts at. */
  function SubInsertIndex(toS: int, position: Position): (k: int)
    ensures k == toS || k == toS + 1
    ensures k == toS + 1 <==> position == After
  {
    toS + (if position == After then 1 else 0)
  }

  /** The index a drop on the sub-item container of group `g` inserts at:
      the row placeholder when it belongs to `g`, otherwise the end. */
  function ContainerInsertIndex(dragOver: Option<SubPlaceholder>, g: nat, len: nat): (k: int)
    ensures (dragOver.None? || dragOver.value.gIndex != g) ==> k == len
    ensures dragOver.Some? && dragOver.value.gIndex == g ==>
              k == SubInsertIndex(dragOver.value.sIndex, dragOver.value.position)
  {
    if dragOver.Some? && dragOver.value.gIndex == g then
      SubInsertIndex(dragOver.value.sIndex, dragOver.value.position)
    else len
  }

  /** The tree after `moveSub(fromG, fromS, toG, insertIndex)`: the sub-item
      is taken out of its group and spliced into group `toG`, the index being
      decremented by one when it moves down inside its own group. */
  function SubMoved(groups: seq<Group>, fromG: nat, fromS: nat, toG: nat, insertIndex: int): (r: seq<Group>)
    requires fromG < |groups| && fromS < |groups[fromG].categories| && toG < |groups|
    ensures |r| == |groups|
  {
    var moved := groups[fromG].categories[fromS];
    var removed := WithCategories(groups, fromG, RemoveAt(groups[fromG].categories, fromS));
    var adjusted := if fromG == toG && fromS < insertIndex then insertIndex - 1 else insertIndex;
    WithCategories(removed, toG, SpliceInsert(removed[toG].categories, adjusted, moved))
  }

  /** The tree after a sub-item is dropped on a group header: it is taken out
      of its group and pushed onto the end of group `toG`. */
  function SubAppended(groups: seq<Group>, fromG: nat, fromS: nat, toG: nat): (r: seq<Group>)
    requires fromG < |groups| && fromS < |groups[fromG].categories| && toG < |groups|
    ensures |r| == |groups|
  {
    var moved := groups[fromG].categories[fromS];
    var removed := WithCategories(groups, fromG, RemoveAt(groups[fromG].categories, fromS));
    WithCategories(removed, toG, removed[toG].categories + [moved])
  }

  /** A cross-group `moveSub`: the source list loses exactly the moved item,
      the target list gains it unchanged at the splice position, names and
      icons stay, and every other group is untouched. */
  lemma MoveSubAcrossGroups(groups: seq<Group>, fromG: nat, fromS: nat, toG: nat, insertIndex: int)
    requires fromG < |groups| && fromS < |groups[fromG].categories| && toG < |groups|
    requires fromG != toG
    ensures var r := SubMoved(groups, fromG, fromS, toG, insertIndex);
            var target := groups[toG].categories;
            && |r[fromG].categories| == |groups[fromG].categories| - 1
            && |r[toG].categories| == |target| + 1
            && r[fromG] == groups[fromG].(categories := RemoveAt(groups[fromG].categories, fromS))
            && r[toG].name == groups[toG].name && r[toG].icon == groups[toG].icon
            && r[toG].categories[SpliceStart(|target|, insertIndex)] == groups[fromG].categories[fromS]
            && RemoveAt(r[toG].categories, SpliceStart(|target|, insertIndex)) == target
            && (forall k :: 0 <= k < |groups| && k != fromG && k != toG ==> r[k] == groups[k])
  {
    var moved := groups[fromG].categories[fromS];
    var target := groups[toG].categories;
    RemoveInserted(target, SpliceStart(|target|, insertIndex), moved);
  }

  /** A `moveSub` inside one group, at a non-negative index, is the
      before/after reposition of that group's list; only that group changes. */
  lemma MoveSubWithinGroup(groups: seq<Group>, g: nat, fromS: nat, insertIndex: int)
    requires g < |groups| && fromS < |groups[g].categories| && insertIndex >= 0
    ensures var r := SubMoved(groups, g, fromS, g, insertIndex);
            && r[g] == groups[g].(categories := Reposition(groups[g].categories, fromS, insertIndex))
            && multiset(r[g].categories) == multiset(groups[g].categories)
            && (forall k :: 0 <= k < |groups| && k != g ==> r[k] == groups[k])
  {
    var cats := groups[g].categories;
    var rest := RemoveAt(cats, fromS);
    var adjusted := if fromS < insertIndex then insertIndex - 1 else insertIndex;
    assert SpliceStart(|rest|, adjusted) == RepositionIndex(|cats|, fromS, insertIndex);
    RepositionIsMove(cats, fromS, insertIndex);
  }

  /** Dropping a row on either half of itself changes nothing. */
  lemma DropOnItselfIsNoOp(groups: seq<Group>, g: nat, s: nat, position: Position)
    requires g < |groups| && s < |groups[g].categories|
    ensures SubMoved(groups, g, s, g, SubInsertIndex(s, position)) == groups
  {
    var k := SubInsertIndex(s, position);
    MoveSubWithinGroup(groups, g, s, k);
    RepositionInPlace(groups[g].categories, s, k);
    assert groups[g].(categories := groups[g].categories) == groups[g];
  }

  /** A drop on a group header appends the sub-item at the end of that group,
      also when it is the group the item came from, and is the same as a
      container drop that has no row placeholder in that group. */
  lemma HeaderDropAppends(groups: seq<Group>, fromG: nat, fromS: nat, toG: nat)
    requires fromG < |groups| && fromS < |groups[fromG].categories| && toG < |groups|
    ensures var r := SubAppended(groups, fromG, fromS, toG);
            var cats := r[toG].categories;
            && |cats| > 0 && cats[|cats| - 1] == groups[fromG].categories[fromS]
            && (fromG != toG ==> cats == groups[toG].categories + [groups[fromG].categories[fromS]])
            && (fromG == toG ==> cats == RemoveAt(groups[toG].categories, fromS) + [groups[fromG].categories[fromS]])
            && r == SubMoved(groups, fromG, fromS, toG, ContainerInsertIndex(None, toG, |groups[toG].categories|))
  {
    var moved := groups[fromG].categories[fromS];
    var removed := WithCategories(groups, fromG, RemoveAt(groups[fromG].categories, fromS));
    var len := |groups[toG].categories|;
    var adjusted := if fromG == toG && fromS < len then len - 1 else len;
    assert adjusted >= |removed[toG].categories|;
  }

  /** Dropping group `from` onto the "after" half of group `t` places it right
      after `t`; onto the "before" half, right before `t`. The reorder is a
      permutation that leaves every group value, sub-items included, intact. */
  lemma GroupDropPlacement(groups: seq<Group>, from: nat, t: nat, position: Position)
    requires from < |groups| && t < |groups| && from != t
    ensures var r := Reposition(groups, from, GroupInsertIndex(Some(GroupPlaceholder(t, position)), t));
            var p := if t < from then t else t - 1;
            && |r| == |groups| && multiset(r) == multiset(groups)
            && (position == After ==> r[p] == groups[t] && r[p + 1] == groups[from])
            && (position == Before ==> r[p] == groups[from] && r[p + 1] == groups[t])
  {
    var k := GroupInsertIndex(Some(GroupPlaceholder(t, position)), t);
    RepositionIsMove(groups, from, k);
    if position == After {
      RepositionAfter(groups, from, t);
    } else {
      RepositionBefore(groups, from, t);
    }
  }

  /** `[A(x, y), B(z)]`: dropping x on the sub-item container of B, with no
      row placeholder in B, gives `[A(y), B(z, x)]`. */
  lemma ContainerDropAppends(a: Group, b: Group, x: SubItem, y: SubItem, z: SubItem)
    requires a.categories == [x, y] && b.categories == [z]
    ensures SubMoved([a, b], 0, 0, 1, ContainerInsertIndex(None, 1, 1)) == [a.(categories := [y]), b.(categories := [z, x])]
  {
    assert RemoveAt([x, y], 0) == [y];
    var removed := WithCategories([a, b], 0, [y]);
    assert removed == [a.(categories := [y]), b];
    assert SpliceInsert([z], 1, x) == [z, x];
  }

  /** Dragging A onto the "after" half of C in [A, B, C] gives [B, C, A]. */
  lemma DropFirstAfterLast(a: Group, b: Group, c: Group)
    ensures Reposition([a, b, c], 0, GroupInsertIndex(Some(GroupPlaceholder(2, After)), 2)) == [b, c, a]
  {
    assert RemoveAt([a, b, c], 0) == [b, c];
  }

  /** The component state of `CategorySidebar` in `src/`. */
  class CategorySidebar {
    var groups: seq<Group>
    var isEdit: bool
    var editTarget: Option<string>
    var openGroups: set<string>
    var dragItem: Option<Payload>
    var dragOver: Option<SubPlaceholder>
    var dragOverGroup: Option<GroupPlaceholder>
    var showAddGroupPanel: bool
    var pendingGroupIcon: Icon

    /** A recorded drag payload always names an existing row. */
    ghost predicate Valid()
      reads this
    {
      dragItem.Some? ==> PayloadIn(groups, dragItem.value)
    }

    /** The seeded mock tree, with the first two groups expanded. */
    constructor ()
      ensures Valid()
      ensures |groups| == 3 && forall g :: 0 <= g < 3 ==> |groups[g].categories| == 4
      ensures !isEdit && editTarget == None && dragItem == None && dragOver == None && dragOverGroup == None
      ensures openGroups == {"技术分享", "学习笔记"} && !showAddGroupPanel && pendingGroupIcon == Code
    {
      groups := [
        Group("技术分享", Code, [SubItem("前端开发", 23), SubItem("后端开发", 15), SubItem("数据库", 8), SubItem("DevOps", 12)]),
        Group("学习笔记", BookOpen, [SubItem("算法学习", 18), SubItem("框架学习", 25), SubItem("工具使用", 16), SubItem("最佳实践", 9)]),
        Group("项目经验", Rocket, [SubItem("个人项目", 7), SubItem("开源贡献", 3), SubItem("团队协作", 12), SubItem("问题解决", 21)])
      ];
      isEdit := false;
      editTarget := None;
      openGroups := {"技术分享", "学习笔记"};
      dragItem := None;
      dragOver := None;
      dragOverGroup := None;
      showAddGroupPanel := false;
      pendingGroupIcon := Code;
    }

    /** `toggleGroup`: expand or collapse exactly the named group. */
    method ToggleGroup(name: string)
      modifies this`openGroups
      ensures openGroups == Toggled(old(openGroups), name)
    {
      var newOpenGroups := openGroups;
      if name in newOpenGroups {
        newOpenGroups := newOpenGroups - {name};
      } else {
        newOpenGroups := newOpenGroups + {name};
      }
      openGroups := newOpenGroups;
    }

    /** The long-press timer firing: edit mode on, remembering the pressed row. */
    method EnterEdit(targetKey: string)
      modifies this`isEdit, this`editTarget
      ensures isEdit && editTarget == Some(targetKey)
    {
      editTarget := Some(targetKey);
      isEdit := true;
    }

    /** `exitEdit`: edit mode off; the tree and the drag state are left as they are. */
    method ExitEdit()
      modifies this`isEdit, this`editTarget
      ensures !isEdit && editTarget == None
    {
      isEdit := false;
      editTarget := None;
    }

    /** `onDragStart`: outside edit mode the drag is refused and nothing is
        recorded; inside it, the payload is recorded. */
    method DragStart(payload: Payload)
      requires Valid() && PayloadIn(groups, payload)
      modifies this`dragItem
      ensures Valid()
      ensures dragItem == if isEdit then Some(payload) else old(dragItem)
    {
      if !isEdit {
        return;
      }
      dragItem := Some(payload);
    }

    /** `onDragOverSubHover`: the row placeholder follows the pointer half. */
    method DragOverSub(gIndex: int, sIndex: int, position: Position)
      modifies this`dragOver
      ensures dragOver == if isEdit then Some(SubPlaceholder(gIndex, sIndex, position)) else old(dragOver)
    {
      if !isEdit {
        return;
      }
      dragOver := Some(SubPlaceholder(gIndex, sIndex, position));
    }

    /** `onDragEnterSub`: entering a row shows the "before" placeholder. */
    method DragEnterSub(gIndex: int, sIndex: int)
      modifies this`dragOver
      ensures dragOver == if isEdit then Some(SubPlaceholder(gIndex, sIndex, Before)) else old(dragOver)
    {
      if !isEdit {
        return;
      }
      dragOver := Some(SubPlaceholder(gIndex, sIndex, Before));
    }

    /** `onDragOverGroupHover`: the group placeholder follows the pointer half. */
    method DragOverGroup(index: int, position: Position)
      modifies this`dragOverGroup
      ensures dragOverGroup == if isEdit then Some(GroupPlaceholder(index, position)) else old(dragOverGroup)
    {
      if !isEdit {
        return;
      }
      dragOverGroup := Some(GroupPlaceholder(index, position));
    }

    /** `onDragEnterGroup`: entering a header shows the "before" placeholder. */
    method DragEnterGroup(index: int)
      modifies this`dragOverGroup
      ensures dragOverGroup == if isEdit then Some(GroupPlaceholder(index, Before)) else old(dragOverGroup)
    {
      if !isEdit {
        return;
      }
      dragOverGroup := Some(GroupPlaceholder(index, Before));
    }

    /** `onGroupListOver`: near the bottom of the list (or on an empty list)
        the placeholder goes after the last group. */
    method GroupListOver(nearBottom: bool)
      modifies this`dragOverGroup
      ensures dragOverGroup == if isEdit && (nearBottom || |groups| == 0)
                               then Some(GroupPlaceholder(|groups| - 1, After)) else old(dragOverGroup)
    {
      if !isEdit {
        return;
      }
      if nearBottom || |groups| == 0 {
        dragOverGroup := Some(GroupPlaceholder(|groups| - 1, After));
      }
    }

    /** The sub-item container's `onDragOver`: near its bottom (or when the
        group is empty) the placeholder goes after the last row. */
    method ContainerDragOver(gIndex: nat, nearBottom: bool)
      requires gIndex < |groups|
      modifies this`dragOver
      ensures var len := |groups[gIndex].categories|;
              dragOver == if isEdit && (nearBottom || len == 0)
                          then Some(SubPlaceholder(gIndex, len, After)) else old(dragOver)
    {
      if !isEdit {
        return;
      }
      var len := |groups[gIndex].categories|;
      if nearBottom || len == 0 {
        dragOver := Some(SubPlaceholder(gIndex, len, After));
      }
    }

    /** The sub-item container's `onDragLeave`: only an end-of-list
        placeholder of this group is removed. */
    method ContainerDragLeave(gIndex: nat)
      requires gIndex < |groups|
      modifies this`dragOver
      ensures var len := |groups[gIndex].categories|;
              dragOver == if old(dragOver).Some? && old(dragOver).value.gIndex == gIndex && old(dragOver).value.sIndex == len
                          then None else old(dragOver)
    {
      var len := |groups[gIndex].categories|;
      if dragOver.Some? && dragOver.value.gIndex == gIndex && dragOver.value.sIndex == len {
        dragOver := None;
      }
    }

    /** `clearDragState`, also the row's `onDragEnd`: forget the payload and
        the row placeholder. */
    method ClearDragState()
      modifies this`dragItem, this`dragOver
      ensures dragItem == None && dragOver == None
    {
      dragItem := None;
      dragOver := None;
    }

    /** `moveSub`: copy the lists, splice the item out and back in. */
    method MoveSub(fromG: nat, fromS: nat, toG: nat, insertIndex: int)
      requires fromG < |groups| && fromS < |groups[fromG].categories| && toG < |groups|
      modifies this`groups
      ensures groups == SubMoved(old(groups), fromG, fromS, toG, insertIndex)
    {
      var next := groups;
      var fromList := next[fromG].categories;
      var moved := fromList[fromS];
      fromList := RemoveAt(fromList, fromS);
      next := next[fromG := next[fromG].(categories := fromList)];
      var toList := next[toG].categories;
      var adjustedIndex := if fromG == toG && fromS < insertIndex then insertIndex - 1 else insertIndex;
      toList := SpliceInsert(toList, adjustedIndex, moved);
      next := next[toG := next[toG].(categories := toList)];
      groups := next;
    }

    /** `onDropGroup(toG)`: a group payload is repositioned at the group
        placeholder (or at `toG`), a sub-item payload is appended to group
        `toG`; the drag state is cleared. Outside edit mode, or with no
        payload, nothing happens. */
    method DropGroup(toG: nat)
      requires Valid() && toG < |groups|
      modifies this`groups, this`dragItem, this`dragOver, this`dragOverGroup
      ensures Valid()
      ensures !old(isEdit) || old(dragItem).None? ==>
                groups == old(groups) && dragItem == old(dragItem) && dragOver == old(dragOver)
                && dragOverGroup == old(dragOverGroup)
      ensures old(isEdit) && old(dragItem).Some? ==>
                && dragItem == None && dragOver == None && dragOverGroup == None
                && groups == match old(dragItem).value
                             case GroupPayload(fromG) =>
                               Reposition(old(groups), fromG, GroupInsertIndex(old(dragOverGroup), toG))
                             case SubPayload(g, s) => SubAppended(old(groups), g, s, toG)
    {
      if !isEdit || dragItem.None? {
        return;
      }
      match dragItem.value {
        case GroupPayload(fromG) =>
          var insertIndex := GroupInsertIndex(dragOverGroup, toG);
          var next := groups;
          var moved := next[fromG];
          next := RemoveAt(next, fromG);
          if fromG < insertIndex { insertIndex := insertIndex - 1; }
          if insertIndex < 0 { insertIndex := 0; }
          if insertIndex > |next| { insertIndex := |next|; }
          next := InsertAt(next, insertIndex, moved);
          groups := next;
        case SubPayload(g, s) =>
          var next := groups;
          var fromList := next[g].categories;
          var moved := fromList[s];
          fromList := RemoveAt(fromList, s);
          next := next[g := next[g].(categories := fromList)];
          var toList := next[toG].categories + [moved];
          next := next[toG := next[toG].(categories := toList)];
          groups := next;
      }
      ClearDragState();
      dragOverGroup := None;
    }

    /** `onGroupListDrop`: a group payload dropped on the list itself is
        repositioned at the placeholder, or moved to the end; a sub-item
        payload is discarded. The drag state is cleared either way. */
    method GroupListDrop()
      requires Valid()
      modifies this`groups, this`dragItem, this`dragOver, this`dragOverGroup
      ensures Valid()
      ensures !old(isEdit) || old(dragItem).None? ==>
                groups == old(groups) && dragItem == old(dragItem) && dragOver == old(dragOver)
                && dragOverGroup == old(dragOverGroup)
      ensures old(isEdit) && old(dragItem).Some? ==>
                && dragItem == None && dragOver == None && dragOverGroup == None
                && groups == match old(dragItem).value
                             case GroupPayload(fromG) =>
                               Reposition(old(groups), fromG, GroupInsertIndex(old(dragOverGroup), |old(groups)|))
                             case SubPayload(_, _) => old(groups)
    {
      if !isEdit || dragItem.None? {
        return;
      }
      if dragItem.value.GroupPayload? {
        var fromG := dragItem.value.gIndex;
        var insertIndex := GroupInsertIndex(dragOverGroup, |groups|);
        var next := groups;
        var moved := next[fromG];
        next := RemoveAt(next, fromG);
        if fromG < insertIndex { insertIndex := insertIndex - 1; }
        if insertIndex < 0 { insertIndex := 0; }
        if insertIndex > |next| { insertIndex := |next|; }
        next := InsertAt(next, insertIndex, moved);
        groups := next;
      }
      ClearDragState();
      dragOverGroup := None;
    }

    /** `onDropSub(toG, toS)`: a sub-item payload is moved before or after
        row `toS` of group `toG`; a group payload is discarded. */
    method DropSub(toG: nat, toS: nat, position: Position)
      requires Valid() && toG < |groups|
      modifies this`groups, this`dragItem, this`dragOver
      ensures Valid()
      ensures !old(isEdit) || old(dragItem).None? ==>
                groups == old(groups) && dragItem == old(dragItem) && dragOver == old(dragOver)
      ensures old(isEdit) && old(dragItem).Some? ==>
                && dragItem == None && dragOver == None
                && groups == match old(dragItem).value
                             case SubPayload(g, s) => SubMoved(old(groups), g, s, toG, SubInsertIndex(toS, position))
                             case GroupPayload(_) => old(groups)
    {
      if !isEdit || dragItem.None? {
        return;
      }
      if dragItem.value.SubPayload? {
        var insertIndex := SubInsertIndex(toS, position);
        MoveSub(dragItem.value.gIndex, dragItem.value.sIndex, toG, insertIndex);
      }
      ClearDragState();
    }

    /** `onDropAtIndex(toG, insertIndex)`: a sub-item payload is moved to a
        given slot of group `toG`. */
    method DropAtIndex(toG: nat, insertIndex: int)
      requires Valid() && toG < |groups|
      modifies this`groups, this`dragItem, this`dragOver
      ensures Valid()
      ensures !old(isEdit) || old(dragItem).None? ==>
                groups == old(groups) && dragItem == old(dragItem) && dragOver == old(dragOver)
      ensures old(isEdit) && old(dragItem).Some? ==>
                && dragItem == None && dragOver == None
                && groups == match old(dragItem).value
                             case SubPayload(g, s) => SubMoved(old(groups), g, s, toG, insertIndex)
                             case GroupPayload(_) => old(groups)
    {
      if !isEdit || dragItem.None? {
        return;
      }
      if dragItem.value.SubPayload? {
        MoveSub(dragItem.value.gIndex, dragItem.value.sIndex, toG, insertIndex);
      }
      ClearDragState();
    }

    /** The sub-item container's `onDrop`: a sub-item payload goes to the row
        placeholder of this group, or to the end of the group. */
    method ContainerDrop(gIndex: nat)
      requires Valid() && gIndex < |groups|
      modifies this`groups, this`dragItem, this`dragOver
      ensures Valid()
      ensures !old(isEdit) || old(dragItem).None? ==>
                groups == old(groups) && dragItem == old(dragItem) && dragOver == old(dragOver)
      ensures old(isEdit) && old(dragItem).Some? ==>
                && dragItem == None && dragOver == None
                && groups == match old(dragItem).value
                             case SubPayload(g, s) =>
                               SubMoved(old(groups), g, s, gIndex,
                                        ContainerInsertIndex(old(dragOver), gIndex, |old(groups)[gIndex].categories|))
                             case GroupPayload(_) => old(groups)
    {
      if !isEdit || dragItem.None? {
        return;
      }
      if dragItem.value.SubPayload? {
        var insertIndex := ContainerInsertIndex(dragOver, gIndex, |groups[gIndex].categories|);
        MoveSub(dragItem.value.gIndex, dragItem.value.sIndex, gIndex, insertIndex);
      }
      ClearDragState();
    }

    /** `addSubItem(gIndex)`: group `gIndex` gains a new sub-item "新子项"
        with count 0 at its end; nothing else changes. */
    method AddSubItem(gIndex: nat)
      requires Valid() && gIndex < |groups|
      modifies this`groups
      ensures Valid()
      ensures |groups| == |old(groups)|
      ensures groups[gIndex] == old(groups)[gIndex].(categories := old(groups)[gIndex].categories + [SubItem("新子项", 0)])
      ensures forall k :: 0 <= k < |groups| && k != gIndex ==> groups[k] == old(groups)[k]
    {
      var next := groups;
      next := next[gIndex := next[gIndex].(categories := next[gIndex].categories + [SubItem("新子项", 0)])];
      groups := next;
    }

    /** The "新增主项" button: show the icon picker. */
    method OpenAddGroupPanel()
      modifies this`showAddGroupPanel
      ensures showAddGroupPanel
    {
      showAddGroupPanel := true;
    }

    /** Picking an icon in the add-group panel. */
    method PickGroupIcon(icon: Icon)
      modifies this`pendingGroupIcon
      ensures pendingGroupIcon == icon
    {
      pendingGroupIcon := icon;
    }

    /** The panel's cancel button. */
    method CancelAddGroup()
      modifies this`showAddGroupPanel
      ensures !showAddGroupPanel
    {
      showAddGroupPanel := false;
    }

    /** `addGroup`: a new empty group "新主项" with the picked icon is appended
        and the panel closes. */
    method AddGroup()
      requires Valid()
      modifies this`groups, this`showAddGroupPanel
      ensures Valid()
      ensures groups == old(groups) + [Group("新主项", pendingGroupIcon, [])]
      ensures !showAddGroupPanel
    {
      var iconComp := pendingGroupIcon;
      var next := groups + [Group("新主项", iconComp, [])];
      groups := next;
      showAddGroupPanel := false;
    }
  }
}
