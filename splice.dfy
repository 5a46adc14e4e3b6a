/** JavaScript array editing as the sidebar uses it, on immutable sequences:
    `splice(i, 1)` to take an element out, `splice(i, 0, x)` to put one in
    (with the standard clamping of the start index), `filter` by position,
    and `arrayMove` from the sortable toolkit. */
module Splice {
  import opened Options

  /** The start position `splice` actually uses for an integer `start` on an
      array of length `len`: negative values count from the end, and
      anything outside the array is clamped to it. */
  function SpliceStart(len: nat, start: int): (k: nat)
    ensures k <= len
    ensures 0 <= start <= len ==> k == start
    ensures start > len ==> k == len
    ensures start < 0 ==> k == (if len + start < 0 then 0 else len + start)
  {
    if start < 0 then (if len + start < 0 then 0 else len + start)
    else if start > len then len
    else start
  }

  /** `s` without its element at `i` (`splice(i, 1)` on a copy). */
  function RemoveAt<T>(s: seq<T>, i: nat): (r: seq<T>)
    requires i < |s|
    ensures |r| == |s| - 1
    ensures forall j :: 0 <= j < i ==> r[j] == s[j]
    ensures forall j :: i <= j < |r| ==> r[j] == s[j + 1]
  {
    s[..i] + s[i + 1..]
  }

  /** `s` with `x` placed at position `k`, later elements shifted right. */
  function InsertAt<T>(s: seq<T>, k: nat, x: T): (r: seq<T>)
    requires k <= |s|
    ensures |r| == |s| + 1 && r[k] == x
    ensures forall j :: 0 <= j < k ==> r[j] == s[j]
    ensures forall j :: k < j < |r| ==> r[j] == s[j - 1]
  {
    s[..k] + [x] + s[k..]
  }

  /** `splice(start, 0, x)` on a copy of `s`: an index past the end appends. */
  function SpliceInsert<T>(s: seq<T>, start: int, x: T): (r: seq<T>)
    ensures |r| == |s| + 1
    ensures r[SpliceStart(|s|, start)] == x
    ensures start >= |s| ==> r == s + [x]
  {
    InsertAt(s, SpliceStart(|s|, start), x)
  }

  /** `filter((_, idx) => idx !== i)`: drop the element at position `i`;
      a missing (`NaN`) or out-of-range `i` drops nothing. */
  function FilterOutIndex<T>(s: seq<T>, i: Option<int>): (r: seq<T>)
    ensures i.Some? && 0 <= i.value < |s| ==> r == RemoveAt(s, i.value)
    ensures !(i.Some? && 0 <= i.value < |s|) ==> r == s
  {
    if i.Some? && 0 <= i.value < |s| then s[..i.value] + s[i.value + 1..] else s
  }

  /** Where `Reposition` puts the moved element: the insertion index
      decremented when the source lies before it, then clamped to the
      shortened list. */
  function RepositionIndex(len: nat, from: nat, insertIndex: int): (k: nat)
    requires from < len
    ensures k < len
  {
    var adjusted := if from < insertIndex then insertIndex - 1 else insertIndex;
    if adjusted < 0 then 0 else if adjusted > len - 1 then len - 1 else adjusted
  }

  /** Take the element at `from` out and re-insert it at `insertIndex` as
      counted in the list before removal. */
  function Reposition<T>(s: seq<T>, from: nat, insertIndex: int): (r: seq<T>)
    requires from < |s|
    ensures |r| == |s|
    ensures r[RepositionIndex(|s|, from, insertIndex)] == s[from]
  {
    InsertAt(RemoveAt(s, from), RepositionIndex(|s|, from, insertIndex), s[from])
  }

  /** `arrayMove(s, from, to)`: remove at `from`, insert at `to`. */
  function ArrayMove<T>(s: seq<T>, from: nat, to: nat): (r: seq<T>)
    requires from < |s| && to < |s|
    ensures |r| == |s|
    ensures r[to] == s[from]
  {
    InsertAt(RemoveAt(s, from), to, s[from])
  }

  /** Removing one element and inserting it anywhere is a permutation. */
  lemma MovePermutes<T>(s: seq<T>, from: nat, k: nat)
    requires from < |s| && k < |s|
    ensures multiset(InsertAt(RemoveAt(s, from), k, s[from])) == multiset(s)
  {
    var rest := RemoveAt(s, from);
    assert s == s[..from] + [s[from]] + s[from + 1..];
    assert rest == s[..from] + s[from + 1..];
    assert rest == rest[..k] + rest[k..];
    calc {
      multiset(InsertAt(rest, k, s[from]));
      { assert InsertAt(rest, k, s[from]) == rest[..k] + [s[from]] + rest[k..]; }
      multiset(rest[..k]) + multiset{s[from]} + multiset(rest[k..]);
      multiset(rest) + multiset{s[from]};
      multiset(s[..from]) + multiset(s[from + 1..]) + multiset{s[from]};
      multiset(s);
    }
  }

  /** The element inserted at `k` can be taken out again to give back the list it went into. */
  lemma RemoveInserted<T>(s: seq<T>, k: nat, x: T)
    requires k <= |s|
    ensures RemoveAt(InsertAt(s, k, x), k) == s
  {
    var r := InsertAt(s, k, x);
    assert RemoveAt(r, k) == s[..k] + s[k..];
    assert s == s[..k] + s[k..];
  }

  /** A reposition only changes the place of the moved element: it keeps the
      length and the multiset of elements, the moved element lands at
      `RepositionIndex`, and taking it out again leaves every other element
      in its original relative order. */
  lemma RepositionIsMove<T>(s: seq<T>, from: nat, insertIndex: int)
    requires from < |s|
    ensures multiset(Reposition(s, from, insertIndex)) == multiset(s)
    ensures RemoveAt(Reposition(s, from, insertIndex), RepositionIndex(|s|, from, insertIndex))
            == RemoveAt(s, from)
  {
    var k := RepositionIndex(|s|, from, insertIndex);
    MovePermutes(s, from, k);
    RemoveInserted(RemoveAt(s, from), k, s[from]);
  }

  /** Inserting at the source position or just after it leaves the list as it was. */
  lemma RepositionInPlace<T>(s: seq<T>, from: nat, insertIndex: int)
    requires from < |s|
    requires insertIndex == from || insertIndex == from + 1
    ensures Reposition(s, from, insertIndex) == s
  {
    var r := Reposition(s, from, insertIndex);
    assert RepositionIndex(|s|, from, insertIndex) == from;
    forall j | 0 <= j < |s|
      ensures r[j] == s[j]
    {
    }
  }

  /** Dropping "after" the element at `t` puts the moved element directly
      after it in the result; `p` is where `s[t]` ends up. */
  lemma RepositionAfter<T>(s: seq<T>, from: nat, t: nat)
    requires from < |s| && t < |s| && from != t
    ensures var r := Reposition(s, from, t + 1);
            var p := if t < from then t else t - 1;
            p + 1 < |r| && r[p] == s[t] && r[p + 1] == s[from]
  {
    var r := Reposition(s, from, t + 1);
    var p := if t < from then t else t - 1;
    assert RepositionIndex(|s|, from, t + 1) == p + 1;
    assert RemoveAt(s, from)[p] == s[t];
  }

  /** Dropping "before" the element at `t` puts the moved element directly
      before it in the result; `p` is where the moved element ends up. */
  lemma RepositionBefore<T>(s: seq<T>, from: nat, t: nat)
    requires from < |s| && t < |s| && from != t
    ensures var r := Reposition(s, from, t);
            var p := if t < from then t else t - 1;
            p + 1 < |r| && r[p] == s[from] && r[p + 1] == s[t]
  {
    var r := Reposition(s, from, t);
    var p := if t < from then t else t - 1;
    assert RepositionIndex(|s|, from, t) == p;
    assert RemoveAt(s, from)[p] == s[t];
  }

  /** `arrayMove` keeps the multiset of elements, and taking the moved
      element out of the result gives the list with it taken out of the
      original. */
  lemma ArrayMoveIsMove<T>(s: seq<T>, from: nat, to: nat)
    requires from < |s| && to < |s|
    ensures multiset(ArrayMove(s, from, to)) == multiset(s)
    ensures RemoveAt(ArrayMove(s, from, to), to) == RemoveAt(s, from)
  {
    MovePermutes(s, from, to);
    RemoveInserted(RemoveAt(s, from), to, s[from]);
  }

  /** `arrayMove(s, from, to)` is the before/after reposition that targets the
      slot `to`: the two versions of the sidebar agree on where a moved
      element lands. */
  lemma ArrayMoveAsReposition<T>(s: seq<T>, from: nat, to: nat)
    requires from < |s| && to < |s|
    ensures ArrayMove(s, from, to) == Reposition(s, from, if from < to then to + 1 else to)
  {
    assert RepositionIndex(|s|, from, if from < to then to + 1 else to) == to;
  }
}
