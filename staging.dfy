/** The staged-deletion list of the dnd-kit sidebar: an ordered list of
    staged ids (`stagedIds`) and a label cache (`stagedLabels`), updated by
    the functional updaters of `stageItem` and `unstageItem`, and the
    entries the group and sub-item checkboxes stage together. */
module Staging {
  import opened Options
  import opened Tree
  import opened Splice
  import opened DomIds

  /** An id with the label shown for it (a staged entry, or a row of the
      deletion confirmation). */
  datatype Item = Item(id: string, text: string)

  /** No id occurs twice. */
  predicate NoDup(ids: seq<string>)
  {
    forall i, j :: 0 <= i < j < |ids| ==> ids[i] != ids[j]
  }

  /** `isStaged(id)`: `stagedIds.includes(id)`. */
  function IsStaged(ids: seq<string>, id: string): (b: bool)
    ensures b <==> exists i :: 0 <= i < |ids| && ids[i] == id
  {
    id in ids
  }

  /** The `stagedIds` updater of `stageItem(id, _)`: append unless present. */
  function StageId(ids: seq<string>, id: string): (r: seq<string>)
    ensures forall x :: x in r <==> x in ids || x == id
    ensures |ids| <= |r| && r[..|ids|] == ids
  {
    if id in ids then ids else ids + [id]
  }

  /** The `stagedLabels` updater of `stageItem(id, text)`: a non-empty label
      already recorded for `id` wins; otherwise `text` is recorded. */
  function StageLabel(labels: map<string, string>, id: string, text: string): (r: map<string, string>)
    ensures r.Keys == labels.Keys + {id}
    ensures forall k :: k in labels && k != id ==> r[k] == labels[k]
    ensures id in labels && labels[id] != "" ==> r[id] == labels[id]
    ensures !(id in labels && labels[id] != "") ==> r[id] == text
  {
    if id in labels && labels[id] != "" then labels else labels[id := text]
  }

  /** The `stagedIds` updater of `unstageItem(id)`: `filter(x => x !== id)`. */
  function Unstage(ids: seq<string>, id: string): (r: seq<string>)
    ensures forall x :: x in r <==> x in ids && x != id
    ensures |r| <= |ids|
    ensures id !in ids ==> r == ids
  {
    if |ids| == 0 then []
    else (if ids[0] == id then [] else [ids[0]]) + Unstage(ids[1..], id)
  }

  /** The ids of a list of items, in order. */
  function ItemIds(items: seq<Item>): (r: seq<string>)
    ensures |r| == |items| && forall i :: 0 <= i < |items| ==> r[i] == items[i].id
  {
    if |items| == 0 then [] else [items[0].id] + ItemIds(items[1..])
  }

  /** `stageItem` applied to each item in turn (its effect on the ids). */
  function StageAllIds(ids: seq<string>, items: seq<Item>): seq<string>
    decreases |items|
  {
    if |items| == 0 then ids else StageAllIds(StageId(ids, items[0].id), items[1..])
  }

  /** `stageItem` applied to each item in turn (its effect on the labels). */
  function StageAllLabels(labels: map<string, string>, items: seq<Item>): map<string, string>
    decreases |items|
  {
    if |items| == 0 then labels else StageAllLabels(StageLabel(labels, items[0].id, items[0].text), items[1..])
  }

  /** `unstageItem` applied to each id in turn. */
  function UnstageAll(ids: seq<string>, remove: seq<string>): seq<string>
    decreases |remove|
  {
    if |remove| == 0 then ids else UnstageAll(Unstage(ids, remove[0]), remove[1..])
  }

  /** `unstageItem` called for each id in turn, as the unchecking branch of
      `handleToggleGroupSelect` does for the group and then its sub-items. */
  method UnstageEach(ids: seq<string>, remove: seq<string>) returns (r: seq<string>)
    requires NoDup(ids)
    ensures r == UnstageAll(ids, remove) && NoDup(r)
  {
    r := ids;
    for i := 0 to |remove|
      invariant NoDup(r)
      invariant UnstageAll(r, remove[i..]) == UnstageAll(ids, remove)
    {
      assert remove[i..][1..] == remove[i + 1..];
      UnstageNoDup(r, remove[i]);
      r := Unstage(r, remove[i]);
    }
  }

  /** `stageItem` called for each entry in turn, as the checking branch of
      `handleToggleGroupSelect` does for the group and then its sub-items. */
  method StageEach(ids: seq<string>, labels: map<string, string>, items: seq<Item>)
    returns (r: seq<string>, l: map<string, string>)
    requires NoDup(ids)
    ensures r == StageAllIds(ids, items) && NoDup(r)
    ensures l == StageAllLabels(labels, items)
  {
    r, l := ids, labels;
    for i := 0 to |items|
      invariant NoDup(r)
      invariant StageAllIds(r, items[i..]) == StageAllIds(ids, items)
      invariant StageAllLabels(l, items[i..]) == StageAllLabels(labels, items)
    {
      assert items[i..][1..] == items[i + 1..];
      StageIdNoDup(r, items[i].id);
      r := StageId(r, items[i].id);
      l := StageLabel(l, items[i].id, items[i].text);
    }
  }

  /** What checking or unchecking the box of group `g` touches: the group
      itself, labelled with its name, then each of its current sub-items in
      order, labelled with theirs. A missing group has an empty label and no
      sub-items (`groups[gIndex]?.name || ''`). */
  function GroupSelection(groups: seq<Group>, g: nat): (r: seq<Item>)
    ensures |r| == 1 + (if g < |groups| then |groups[g].categories| else 0)
    ensures r[0] == Item(GroupId(g), if g < |groups| then groups[g].name else "")
    ensures forall s :: 0 <= s < |r| - 1 ==> r[s + 1] == Item(SubId(g, s), groups[g].categories[s].name)
  {
    var name := if g < |groups| then groups[g].name else "";
    var subs := if g < |groups| then groups[g].categories else [];
    [Item(GroupId(g), name)] + seq(|subs|, s requires 0 <= s < |subs| => Item(SubId(g, s), subs[s].name))
  }

  /** Staging never creates a duplicate id. */
  lemma StageIdNoDup(ids: seq<string>, id: string)
    requires NoDup(ids)
    ensures NoDup(StageId(ids, id))
  {
  }

  /** Unstaging keeps the remaining ids free of duplicates. */
  lemma {:induction false} UnstageNoDup(ids: seq<string>, id: string)
    requires NoDup(ids)
    ensures NoDup(Unstage(ids, id))
  {
    if |ids| > 0 {
      UnstageNoDup(ids[1..], id);
      var rest := Unstage(ids[1..], id);
      var r := Unstage(ids, id);
      if ids[0] != id {
        assert r == [ids[0]] + rest;
        assert ids[0] !in ids[1..];
        forall i, j | 0 <= i < j < |r|
          ensures r[i] != r[j]
        {
          assert r[j] == rest[j - 1] && rest[j - 1] in rest;
          if i > 0 {
            assert r[i] == rest[i - 1];
          }
        }
      }
    }
  }

  /** In a list without duplicates, unstaging the id at position `i` removes
      exactly that position: the other ids keep their order. */
  lemma {:induction false} UnstageAt(ids: seq<string>, i: nat)
    requires NoDup(ids) && i < |ids|
    ensures Unstage(ids, ids[i]) == RemoveAt(ids, i)
  {
    var id := ids[i];
    var tail := ids[1..];
    assert NoDup(tail) by {
      forall a, b | 0 <= a < b < |tail|
        ensures tail[a] != tail[b]
      {
        assert tail[a] == ids[a + 1] && tail[b] == ids[b + 1];
      }
    }
    if i == 0 {
      forall k | 0 <= k < |tail|
        ensures tail[k] != id
      {
        assert tail[k] == ids[k + 1];
      }
      assert id !in tail;
      assert Unstage(tail, id) == tail;
      assert RemoveAt(ids, 0) == tail;
    } else {
      assert ids[0] != id;
      assert tail[i - 1] == id;
      UnstageAt(tail, i - 1);
      assert Unstage(ids, id) == [ids[0]] + RemoveAt(tail, i - 1);
      assert [ids[0]] + RemoveAt(tail, i - 1) == RemoveAt(ids, i);
    }
  }

  /** Staging items whose ids are new and distinct appends their ids in
      order: the staged list is the old list followed by the items' ids. */
  lemma {:induction false} StageAllIdsAppends(ids: seq<string>, items: seq<Item>)
    requires NoDup(ids + ItemIds(items))
    ensures StageAllIds(ids, items) == ids + ItemIds(items)
    decreases |items|
  {
    if |items| > 0 {
      var all := ids + ItemIds(items);
      var id := items[0].id;
      assert ItemIds(items) == [id] + ItemIds(items[1..]);
      forall k | 0 <= k < |ids|
        ensures ids[k] != id
      {
        assert all[k] == ids[k] && all[|ids|] == id;
      }
      assert StageId(ids, id) == ids + [id];
      assert (ids + [id]) + ItemIds(items[1..]) == all;
      StageAllIdsAppends(ids + [id], items[1..]);
    }
  }

  /** Staging a list of items stages exactly their ids in addition to what
      was staged, without duplicates. */
  lemma {:induction false} StageAllIdsMembers(ids: seq<string>, items: seq<Item>)
    ensures forall x :: x in StageAllIds(ids, items) <==> x in ids || x in ItemIds(items)
    ensures NoDup(ids) ==> NoDup(StageAllIds(ids, items))
    decreases |items|
  {
    if |items| > 0 {
      StageAllIdsMembers(StageId(ids, items[0].id), items[1..]);
      assert ItemIds(items) == [items[0].id] + ItemIds(items[1..]);
      if NoDup(ids) {
        StageIdNoDup(ids, items[0].id);
      }
    }
  }

  /** Unstaging a list of ids removes exactly those ids, without creating duplicates. */
  lemma {:induction false} UnstageAllMembers(ids: seq<string>, remove: seq<string>)
    ensures forall x :: x in UnstageAll(ids, remove) <==> x in ids && x !in remove
    ensures NoDup(ids) ==> NoDup(UnstageAll(ids, remove))
    decreases |remove|
  {
    if |remove| > 0 {
      UnstageAllMembers(Unstage(ids, remove[0]), remove[1..]);
      if NoDup(ids) {
        UnstageNoDup(ids, remove[0]);
      }
    }
  }

  /** The label cache keeps the first non-empty label recorded for an id,
      however often that id is staged again. */
  lemma {:induction false} StageAllLabelsKeepsFirst(labels: map<string, string>, items: seq<Item>, id: string)
    requires id in labels && labels[id] != ""
    ensures id in StageAllLabels(labels, items) && StageAllLabels(labels, items)[id] == labels[id]
    decreases |items|
  {
    if |items| > 0 {
      var next := StageLabel(labels, items[0].id, items[0].text);
      assert id in next && next[id] == labels[id];
      StageAllLabelsKeepsFirst(next, items[1..], id);
    }
  }

  /** The label cache only ever grows: staging records a label for every
      staged id and never forgets one. */
  lemma {:induction false} StageAllLabelsKeys(labels: map<string, string>, items: seq<Item>)
    ensures forall k :: k in StageAllLabels(labels, items) <==> k in labels || k in ItemIds(items)
    decreases |items|
  {
    if |items| > 0 {
      StageAllLabelsKeys(StageLabel(labels, items[0].id, items[0].text), items[1..]);
      assert ItemIds(items) == [items[0].id] + ItemIds(items[1..]);
    }
  }

  /** The ids a group checkbox touches are the group's own id and the ids of
      its current sub-items, and nothing else. */
  lemma GroupSelectionIds(groups: seq<Group>, g: nat, x: string)
    requires g < |groups|
    ensures x in ItemIds(GroupSelection(groups, g)) <==>
              x == GroupId(g) || exists s :: 0 <= s < |groups[g].categories| && x == SubId(g, s)
  {
    var items := GroupSelection(groups, g);
    var ids := ItemIds(items);
    if x in ids {
      var i :| 0 <= i < |ids| && ids[i] == x;
      assert ids[i] == items[i].id;
      if i > 0 {
        assert items[i] == Item(SubId(g, i - 1), groups[g].categories[i - 1].name);
      }
    }
    if exists s :: 0 <= s < |groups[g].categories| && x == SubId(g, s) {
      var s :| 0 <= s < |groups[g].categories| && x == SubId(g, s);
      assert items[s + 1] == Item(SubId(g, s), groups[g].categories[s].name);
      assert ids[s + 1] == items[s + 1].id;
    }
  }

  /** The id at each position of a group's checkbox selection: the group's
      own id first, then the id of sub-item `k` at position `k + 1`. */
  lemma SelectionIdAt(groups: seq<Group>, g: nat, k: nat)
    requires k + 1 < |GroupSelection(groups, g)|
    ensures ItemIds(GroupSelection(groups, g))[0] == GroupId(g)
    ensures ItemIds(GroupSelection(groups, g))[k + 1] == SubId(g, k)
  {
  }

  /** A list holding a group's id followed by the ids of its sub-items at
      positions `0, 1, ...` has no duplicates. */
  lemma SelectionShapeNoDup(ids: seq<string>, g: nat)
    requires |ids| > 0 && ids[0] == GroupId(g)
    requires forall k :: 0 < k < |ids| ==> ids[k] == SubId(g, k - 1)
    ensures NoDup(ids)
  {
    forall i, j | 0 <= i < j < |ids|
      ensures ids[i] != ids[j]
    {
      SubIdRoundTrip(g, j - 1);
      if i == 0 {
        IdPrefixes(g, j - 1);
        assert StartsWith(ids[i], "group-") && !StartsWith(ids[j], "group-");
      } else {
        SubIdRoundTrip(g, i - 1);
        FieldsTellApart(ids[i], ids[j], i - 1, j - 1);
      }
    }
  }

  /** Two ids whose third `split('-')` field parses to different numbers differ. */
  lemma FieldsTellApart(x: string, y: string, a: int, b: int)
    requires SubField(x, 2) == Some(a) && SubField(y, 2) == Some(b) && a != b
    ensures x != y
  {
  }

  /** The ids a group checkbox touches are pairwise distinct. */
  lemma GroupSelectionNoDup(groups: seq<Group>, g: nat)
    ensures NoDup(ItemIds(GroupSelection(groups, g)))
  {
    var ids := ItemIds(GroupSelection(groups, g));
    forall k | 0 < k < |ids|
      ensures ids[k] == SubId(g, k - 1)
    {
      SelectionIdAt(groups, g, k - 1);
    }
    SelectionShapeNoDup(ids, g);
  }

  /** Checking a group's box and then unchecking it leaves exactly the ids
      that were staged before and are not the group's. */
  lemma CheckThenUncheck(ids: seq<string>, groups: seq<Group>, g: nat)
    ensures var sel := ItemIds(GroupSelection(groups, g));
            forall x :: x in UnstageAll(StageAllIds(ids, GroupSelection(groups, g)), sel) <==> x in ids && x !in sel
  {
    var items := GroupSelection(groups, g);
    StageAllIdsMembers(ids, items);
    UnstageAllMembers(StageAllIds(ids, items), ItemIds(items));
  }

  /** The confirmation rows the trash button shows for the staged ids: the
      recorded label, or the id itself when none (or an empty one) is recorded. */
  function ConfirmItemsFor(ids: seq<string>, labels: map<string, string>): (r: seq<Item>)
    ensures ItemIds(r) == ids
    ensures forall i :: 0 <= i < |ids| && ids[i] in labels && labels[ids[i]] != "" ==> r[i].text == labels[ids[i]]
    ensures forall i :: 0 <= i < |ids| && !(ids[i] in labels && labels[ids[i]] != "") ==> r[i].text == ids[i]
  {
    seq(|ids|, i requires 0 <= i < |ids| =>
      Item(ids[i], if ids[i] in labels && labels[ids[i]] != "" then labels[ids[i]] else ids[i]))
  }
}
