/** What confirming a deletion does to the tree in the dnd-kit sidebar: each
    confirmed entry is an id string, decoded again with `startsWith`,
    `replace`, `split` and `parseInt`, and applied to the tree as it stands
    after the entries before it. */
module Deletion {
  import opened Options
  import opened Tree
  import opened Splice
  import opened DomIds
  import opened Staging

  /** The effect of one confirmed entry. A group id removes that group only
      when it exists and has no sub-items; a sub-item id filters index
      `s` out of group `g` when group `g` exists; anything else, or an index
      that parses to `NaN` or misses, changes nothing. */
  function DeleteEntry(groups: seq<Group>, id: string): (r: seq<Group>)
    ensures |groups| - 1 <= |r| <= |groups|
    ensures |r| < |groups| ==> StartsWith(id, "group-")
  {
    if StartsWith(id, "group-") then
      var gi := GroupIndexOf(id);
      if gi.Some? && 0 <= gi.value < |groups| && |groups[gi.value].categories| == 0
      then RemoveAt(groups, gi.value)
      else groups
    else if StartsWith(id, "sub-") then
      var gi := SubField(id, 1);
      if gi.Some? && 0 <= gi.value < |groups|
      then WithCategories(groups, gi.value, FilterOutIndex(groups[gi.value].categories, SubField(id, 2)))
      else groups
    else groups
  }

  /** The entries of a multi-mode confirmation applied in order, each to the
      tree left by the ones before it. */
  function DeleteItems(groups: seq<Group>, items: seq<Item>): (r: seq<Group>)
    ensures |r| <= |groups|
    decreases |items|
  {
    if |items| == 0 then groups else DeleteItems(DeleteEntry(groups, items[0].id), items[1..])
  }

  /** The `for (const it of confirmItems)` loop of the multi-mode confirm
      updater, rebinding `next` once per entry. */
  method ApplyEntries(groups: seq<Group>, items: seq<Item>) returns (next: seq<Group>)
    ensures next == DeleteItems(groups, items)
  {
    next := groups;
    for i := 0 to |items|
      invariant DeleteItems(next, items[i..]) == DeleteItems(groups, items)
    {
      assert items[i..][1..] == items[i + 1..];
      next := DeleteEntry(next, items[i].id);
    }
  }

  /** A batch acts through its ids alone: two lists with the same ids in the
      same order delete the same things, whatever their labels. */
  lemma {:induction false} DeleteItemsIds(groups: seq<Group>, a: seq<Item>, b: seq<Item>)
    requires ItemIds(a) == ItemIds(b)
    ensures DeleteItems(groups, a) == DeleteItems(groups, b)
    decreases |a|
  {
    if |a| > 0 {
      assert a[0].id == ItemIds(a)[0] == ItemIds(b)[0] == b[0].id;
      assert ItemIds(a[1..]) == ItemIds(a)[1..];
      assert ItemIds(b[1..]) == ItemIds(b)[1..];
      DeleteItemsIds(DeleteEntry(groups, a[0].id), a[1..], b[1..]);
    }
  }

  /** The id of group `g` deletes that group exactly when it exists and is
      empty; otherwise the tree is left as it was. */
  lemma DeleteGroupEntry(groups: seq<Group>, g: nat)
    ensures g < |groups| && groups[g].categories == [] ==> DeleteEntry(groups, GroupId(g)) == RemoveAt(groups, g)
    ensures !(g < |groups| && groups[g].categories == []) ==> DeleteEntry(groups, GroupId(g)) == groups
  {
    DecodeNodeId(GroupRef(g));
  }

  /** The id of sub-item `s` of group `g` removes exactly that sub-item: the
      group keeps its name, icon and the other sub-items in order, and every
      other group is untouched. A position past the end changes nothing. */
  lemma DeleteSubEntry(groups: seq<Group>, g: nat, s: nat)
    ensures var r := DeleteEntry(groups, SubId(g, s));
            |r| == |groups| && forall k :: 0 <= k < |groups| && k != g ==> r[k] == groups[k]
    ensures g < |groups| ==>
              var r := DeleteEntry(groups, SubId(g, s));
              var cats := groups[g].categories;
              r[g].name == groups[g].name && r[g].icon == groups[g].icon &&
              r[g].categories == (if s < |cats| then RemoveAt(cats, s) else cats)
  {
    DecodeNodeId(SubRef(g, s));
  }

  /** No entry removes a group that still has sub-items, and no entry adds
      anything: either one empty group disappears, or every group keeps its
      name and icon and at most one sub-item goes. */
  lemma DeleteEntryShape(groups: seq<Group>, id: string)
    ensures var r := DeleteEntry(groups, id);
            |r| == |groups| || exists g :: 0 <= g < |groups| && groups[g].categories == [] && r == RemoveAt(groups, g)
    ensures var r := DeleteEntry(groups, id);
            |r| == |groups| ==>
              forall k :: 0 <= k < |groups| ==>
                r[k].name == groups[k].name && r[k].icon == groups[k].icon &&
                (r[k].categories == groups[k].categories ||
                 exists s :: 0 <= s < |groups[k].categories| && r[k].categories == RemoveAt(groups[k].categories, s))
  {
    var r := DeleteEntry(groups, id);
    if StartsWith(id, "group-") {
      var gi := GroupIndexOf(id);
      if gi.Some? && 0 <= gi.value < |groups| && |groups[gi.value].categories| == 0 {
        assert groups[gi.value].categories == [];
      }
    } else if StartsWith(id, "sub-") {
      var gi := SubField(id, 1);
      var si := SubField(id, 2);
      if gi.Some? && 0 <= gi.value < |groups| {
        var cats := groups[gi.value].categories;
        if si.Some? && 0 <= si.value < |cats| {
          assert r[gi.value].categories == RemoveAt(cats, si.value);
        }
      }
    }
  }

  /** Every entry of a batch can remove at most one group or one sub-item. */
  lemma {:induction false} DeleteItemsLength(groups: seq<Group>, items: seq<Item>)
    ensures |groups| - |items| <= |DeleteItems(groups, items)| <= |groups|
    decreases |items|
  {
    if |items| > 0 {
      DeleteEntryShape(groups, items[0].id);
      DeleteItemsLength(DeleteEntry(groups, items[0].id), items[1..]);
    }
  }

  /** The sub-items at odd positions (the second, the fourth, ...). */
  function OddPositions<T>(s: seq<T>): (r: seq<T>)
    ensures |r| == |s| / 2
    ensures forall i :: 0 <= i < |r| ==> r[i] == s[2 * i + 1]
  {
    if |s| < 2 then [] else [s[1]] + OddPositions(s[2..])
  }

  /** The sub-item list of a group after the entries for its first `k`
      sub-items (by their original positions) have been applied. */
  function AfterRemovals<T>(c: seq<T>, k: nat): seq<T>
  {
    if 2 * k <= |c| then OddPositions(c[..2 * k]) + c[2 * k..] else OddPositions(c)
  }

  /** Filtering out position `k` takes the list from `k` to `k + 1` removals. */
  lemma AfterRemovalsStep<T>(c: seq<T>, k: nat)
    requires k < |c|
    ensures FilterOutIndex(AfterRemovals(c, k), Some(k)) == AfterRemovals(c, k + 1)
  {
    var cur := AfterRemovals(c, k);
    if 2 * k < |c| {
      var odd := OddPositions(c[..2 * k]);
      assert cur == odd + c[2 * k..] && |odd| == k;
      var removed := RemoveAt(cur, k);
      assert removed == odd + c[2 * k + 1..];
      if 2 * k + 2 <= |c| {
        var odd2 := OddPositions(c[..2 * k + 2]);
        assert odd2 == odd + [c[2 * k + 1]];
        assert c[2 * k + 1..] == [c[2 * k + 1]] + c[2 * k + 2..];
      } else {
        assert c[2 * k + 1..] == [];
        assert OddPositions(c) == odd;
      }
    }
  }

  /** The entries for sub-items `k`, `k + 1`, ... of group `g`, applied after
      the first `k`, leave the group with its odd-position sub-items. */
  lemma {:induction false} RemoveRemainingSubs(groups: seq<Group>, g: nat, c: seq<SubItem>, k: nat, items: seq<Item>)
    requires g < |groups| && k + |items| == |c| && |c| > 0
    requires forall j :: 0 <= j < |items| ==> items[j].id == SubId(g, k + j)
    ensures DeleteItems(WithCategories(groups, g, AfterRemovals(c, k)), items) == WithCategories(groups, g, OddPositions(c))
    decreases |items|
  {
    var cur := WithCategories(groups, g, AfterRemovals(c, k));
    if |items| == 0 {
      assert 2 * k > |c|;
    } else {
      DeleteSubEntry(cur, g, k);
      AfterRemovalsStep(c, k);
      var next := DeleteEntry(cur, items[0].id);
      assert next == WithCategories(groups, g, AfterRemovals(c, k + 1));
      RemoveRemainingSubs(groups, g, c, k + 1, items[1..]);
    }
  }

  /** A checkbox selection applied as a batch: the group entry first, then
      the entries of the sub-items, which name positions `0, 1, ...`. */
  lemma SelectionBatch(groups: seq<Group>, g: nat)
    requires g < |groups|
    ensures var items := GroupSelection(groups, g);
            DeleteItems(groups, items) == DeleteItems(DeleteEntry(groups, GroupId(g)), items[1..])
    ensures var rest := GroupSelection(groups, g)[1..];
            |rest| == |groups[g].categories| && forall j :: 0 <= j < |rest| ==> rest[j].id == SubId(g, 0 + j)
  {
    var items := GroupSelection(groups, g);
    assert items[0].id == GroupId(g);
  }

  /** Selecting a whole group with its checkbox and confirming the batch
      removes the group only when it has no sub-items. Otherwise the group
      stays with the sub-items at odd positions: each sub-item entry shifts
      the positions the later entries name, and the group entry came first,
      while the group was still full. */
  lemma DeleteGroupSelection(groups: seq<Group>, g: nat)
    requires g < |groups|
    ensures groups[g].categories == [] ==>
              DeleteItems(groups, GroupSelection(groups, g)) == RemoveAt(groups, g)
    ensures groups[g].categories != [] ==>
              DeleteItems(groups, GroupSelection(groups, g)) == WithCategories(groups, g, OddPositions(groups[g].categories))
  {
    if groups[g].categories == [] {
      DeleteEmptySelection(groups, g);
    } else {
      DeleteFullSelection(groups, g);
    }
  }

  /** The empty case: the group entry removes the group, and nothing follows it. */
  lemma DeleteEmptySelection(groups: seq<Group>, g: nat)
    requires g < |groups| && groups[g].categories == []
    ensures DeleteItems(groups, GroupSelection(groups, g)) == RemoveAt(groups, g)
  {
    DeleteGroupEntry(groups, g);
    SelectionBatch(groups, g);
    assert GroupSelection(groups, g)[1..] == [];
  }

  /** The non-empty case: the group entry is skipped, then the sub-item
      entries leave the odd positions. */
  lemma DeleteFullSelection(groups: seq<Group>, g: nat)
    requires g < |groups| && groups[g].categories != []
    ensures DeleteItems(groups, GroupSelection(groups, g)) == WithCategories(groups, g, OddPositions(groups[g].categories))
  {
    var c := groups[g].categories;
    DeleteGroupEntry(groups, g);
    SelectionBatch(groups, g);
    assert AfterRemovals(c, 0) == c;
    assert WithCategories(groups, g, c) == groups;
    RemoveRemainingSubs(groups, g, c, 0, GroupSelection(groups, g)[1..]);
  }

  /** The whole multi-mode flow from an empty staging list: checking the box
      of group `g` stages the selection in order, the trash button turns the
      staged ids into confirmation rows, and confirming applies them. The
      result is that of the selection itself, so a group with sub-items
      survives with its odd-position sub-items. */
  lemma ConfirmGroupSelection(groups: seq<Group>, g: nat, labels: map<string, string>)
    ensures var sel := GroupSelection(groups, g);
            DeleteItems(groups, ConfirmItemsFor(StageAllIds([], sel), labels)) == DeleteItems(groups, sel)
    ensures g < |groups| && groups[g].categories == [] ==>
              DeleteItems(groups, ConfirmItemsFor(StageAllIds([], GroupSelection(groups, g)), labels)) == RemoveAt(groups, g)
    ensures g < |groups| && groups[g].categories != [] ==>
              DeleteItems(groups, ConfirmItemsFor(StageAllIds([], GroupSelection(groups, g)), labels))
                == WithCategories(groups, g, OddPositions(groups[g].categories))
  {
    var sel := GroupSelection(groups, g);
    GroupSelectionNoDup(groups, g);
    assert [] + ItemIds(sel) == ItemIds(sel);
    StageAllIdsAppends([], sel);
    DeleteItemsIds(groups, ConfirmItemsFor(StageAllIds([], sel), labels), sel);
    if g < |groups| {
      DeleteGroupSelection(groups, g);
    }
  }

  /** `[A(x, y), B(z)]`: checking A stages A, x and y; confirming leaves
      `[A(y), B(z)]`, so the selected group A is not removed. */
  lemma SelectedGroupSurvives(a: Group, b: Group, x: SubItem, y: SubItem, z: SubItem)
    requires a.categories == [x, y] && b.categories == [z]
    ensures DeleteItems([a, b], GroupSelection([a, b], 0)) == [a.(categories := [y]), b]
  {
    DeleteGroupSelection([a, b], 0);
    assert OddPositions([x, y]) == [y];
  }

  /** `A(x, y)`: dropping y on the trash and confirming leaves `A(x)`. */
  lemma SingleDeleteSub(a: Group, x: SubItem, y: SubItem)
    requires a.categories == [x, y]
    ensures DeleteEntry([a], SubId(0, 1)) == [a.(categories := [x])]
  {
    DeleteSubEntry([a], 0, 1);
    assert RemoveAt([x, y], 1) == [x];
    var r := DeleteEntry([a], SubId(0, 1));
    assert r[0] == a.(categories := [x]);
  }
}
