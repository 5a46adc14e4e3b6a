/** The string ids of the dnd-kit sidebar (`lp/src/components/CategorySidebar.tsx`)
    and the JavaScript string functions that take them apart: `startsWith`,
    `split('-')`, `replace('group-', '')` and `parseInt`. Groups are
    `group-G`, sub-items `sub-G-S`, sub-item containers `sub-container-G`
    and the trash zone `trash-dropzone`, with G and S written in decimal. */
module DomIds {
  import opened Options

  /** `s.startsWith(p)`: `s` begins with every character of `p`, in order. */
  function StartsWith(s: string, p: string): (b: bool)
    ensures b <==> |p| <= |s| && forall i :: 0 <= i < |p| ==> s[i] == p[i]
  {
    |p| <= |s| && s[..|p|] == p
  }

  predicate IsDigit(c: char)
  {
    '0' <= c <= '9'
  }

  predicate AllDigits(s: string)
  {
    forall i :: 0 <= i < |s| ==> IsDigit(s[i])
  }

  function DigitChar(d: nat): (c: char)
    requires d < 10
    ensures IsDigit(c)
  {
    ('0' as int + d) as char
  }

  function DigitValue(c: char): (d: nat)
    requires IsDigit(c)
    ensures d < 10
  {
    c as int - '0' as int
  }

  /** The decimal text of `n`, as a template literal `${n}` writes it. */
  function NatStr(n: nat): (s: string)
    ensures |s| > 0 && AllDigits(s)
  {
    if n < 10 then [DigitChar(n)] else NatStr(n / 10) + [DigitChar(n % 10)]
  }

  /** The number of decimal digits at the start of `s`. */
  function DigitRun(s: string): (k: nat)
    ensures k <= |s|
    ensures AllDigits(s[..k])
    ensures k < |s| ==> !IsDigit(s[k])
  {
    if |s| == 0 || !IsDigit(s[0]) then 0
    else
      var k := 1 + DigitRun(s[1..]);
      assert s[..k] == [s[0]] + s[1..][..k - 1];
      k
  }

  /** The value of a string of decimal digits. */
  function DigitsValue(s: string): nat
    requires AllDigits(s)
  {
    if |s| == 0 then 0 else DigitsValue(s[..|s| - 1]) * 10 + DigitValue(s[|s| - 1])
  }

  /** `parseInt(s)` with the default radix: an optional sign, then the
      longest run of decimal digits; `None` stands for `NaN`. */
  function ParseInt(s: string): (r: Option<int>)
    ensures r.None? <==> DigitRun(if |s| > 0 && (s[0] == '-' || s[0] == '+') then s[1..] else s) == 0
  {
    var signed := |s| > 0 && (s[0] == '-' || s[0] == '+');
    var body := if signed then s[1..] else s;
    var k := DigitRun(body);
    if k == 0 then None
    else
      var v: int := DigitsValue(body[..k]);
      Some(if |s| > 0 && s[0] == '-' then -v else v)
  }

  /** `s.split(sep)`: the pieces between separators, always at least one. */
  function Split(s: string, sep: char): (parts: seq<string>)
    ensures |parts| >= 1
  {
    if |s| == 0 then [""]
    else
      var rest := Split(s[1..], sep);
      if s[0] == sep then [""] + rest else [[s[0]] + rest[0]] + rest[1..]
  }

  /** `pat` occurs in `s` at position `i`. */
  predicate OccursAt(s: string, pat: string, i: nat)
  {
    i + |pat| <= |s| && s[i..i + |pat|] == pat
  }

  /** An occurrence in the tail of `s` is an occurrence in `s`, one further on. */
  lemma OccursInTail(s: string, pat: string)
    requires |s| > 0
    ensures forall i: nat :: OccursAt(s[1..], pat, i) ==> OccursAt(s, pat, i + 1)
  {
    forall i: nat | OccursAt(s[1..], pat, i)
      ensures OccursAt(s, pat, i + 1)
    {
      assert s[1..][i..i + |pat|] == s[i + 1..i + 1 + |pat|];
    }
  }

  /** `s.replace(pat, rep)` with a string pattern: only the first occurrence
      is replaced, and a string without any occurrence is returned as is. */
  function ReplaceFirst(s: string, pat: string, rep: string): (r: string)
    ensures StartsWith(s, pat) ==> r == rep + s[|pat|..]
    ensures (forall i: nat :: !OccursAt(s, pat, i)) ==> r == s
  {
    if |pat| <= |s| && s[..|pat|] == pat then
      assert OccursAt(s, pat, 0);
      rep + s[|pat|..]
    else if |s| == 0 then s
    else
      OccursInTail(s, pat);
      [s[0]] + ReplaceFirst(s[1..], pat, rep)
  }

  /** Destructuring `const [, a, b] = parts` then `parseInt`: a missing piece
      is `undefined`, which parses as `NaN`. */
  function ParseField(parts: seq<string>, i: nat): Option<int>
  {
    if i < |parts| then ParseInt(parts[i]) else None
  }

  /** `parseInt(id.replace('group-', ''))`. */
  function GroupIndexOf(id: string): Option<int>
  {
    ParseInt(ReplaceFirst(id, "group-", ""))
  }

  /** `parseInt` of the `i`-th piece of `id.split('-')`. */
  function SubField(id: string, i: nat): Option<int>
  {
    ParseField(Split(id, '-'), i)
  }

  /** `group-${gIndex}`: the prefix, then the index in decimal. */
  function GroupId(g: nat): (id: string)
    ensures |id| > 6 && id[..6] == "group-" && AllDigits(id[6..])
  {
    "group-" + NatStr(g)
  }

  /** `sub-${gIndex}-${sIndex}`: the prefix, then a digit, so never a
      container id. */
  function SubId(g: nat, s: nat): (id: string)
    ensures |id| > 4 && id[..4] == "sub-" && IsDigit(id[4])
  {
    "sub-" + NatStr(g) + "-" + NatStr(s)
  }

  /** `sub-container-${gIndex}`. */
  function ContainerId(g: nat): (id: string)
    ensures |id| > 14 && id[..14] == "sub-container-" && AllDigits(id[14..])
  {
    "sub-container-" + NatStr(g)
  }

  const TrashId: string := "trash-dropzone"

  /** A draggable row: a group header or a sub-item. */
  datatype NodeRef = GroupRef(g: nat) | SubRef(g: nat, s: nat)

  /** A droppable the collision detection can report. */
  datatype OverTarget = OverGroup(g: nat) | OverSub(g: nat, s: nat) | OverContainer(g: nat) | OverTrash

  function NodeId(r: NodeRef): string
  {
    match r
    case GroupRef(g) => GroupId(g)
    case SubRef(g, s) => SubId(g, s)
  }

  function OverId(t: OverTarget): string
  {
    match t
    case OverGroup(g) => GroupId(g)
    case OverSub(g, s) => SubId(g, s)
    case OverContainer(g) => ContainerId(g)
    case OverTrash => TrashId
  }

  lemma {:induction false} DigitRunAll(s: string)
    requires AllDigits(s)
    ensures DigitRun(s) == |s|
  {
    if |s| > 0 {
      DigitRunAll(s[1..]);
    }
  }

  lemma {:induction false} DigitsValueNatStr(n: nat)
    ensures DigitsValue(NatStr(n)) == n
  {
    if n >= 10 {
      DigitsValueNatStr(n / 10);
      var s := NatStr(n);
      assert s[..|s| - 1] == NatStr(n / 10);
    }
  }

  /** `parseInt` reads back the decimal text of every natural number. */
  lemma ParseNatStr(n: nat)
    ensures ParseInt(NatStr(n)) == Some(n)
  {
    var s := NatStr(n);
    DigitRunAll(s);
    DigitsValueNatStr(n);
    assert s[..|s|] == s;
  }

  /** A string without the separator is not split. */
  lemma {:induction false} SplitNoSep(a: string, sep: char)
    requires sep !in a
    ensures Split(a, sep) == [a]
  {
    if |a| > 0 {
      SplitNoSep(a[1..], sep);
      assert [a[0]] + a[1..] == a;
    }
  }

  /** A separator-free first piece is split off whole. */
  lemma {:induction false} SplitFirst(a: string, sep: char, b: string)
    requires sep !in a
    ensures Split(a + [sep] + b, sep) == [a] + Split(b, sep)
  {
    if |a| == 0 {
      assert (a + [sep] + b)[1..] == b;
    } else {
      assert (a + [sep] + b)[1..] == a[1..] + [sep] + b;
      SplitFirst(a[1..], sep, b);
      assert [a[0]] + a[1..] == a;
    }
  }

  lemma NatStrNoDash(n: nat)
    ensures '-' !in NatStr(n)
  {
    var s := NatStr(n);
    forall i | 0 <= i < |s|
      ensures s[i] != '-'
    {
      assert IsDigit(s[i]);
    }
  }

  /** `sub-G-S` splits into `sub`, the text of G and the text of S. */
  lemma SplitSubId(g: nat, s: nat)
    ensures Split(SubId(g, s), '-') == ["sub", NatStr(g), NatStr(s)]
  {
    NatStrNoDash(g);
    NatStrNoDash(s);
    assert SubId(g, s) == "sub" + ['-'] + (NatStr(g) + ['-'] + NatStr(s));
    SplitFirst("sub", '-', NatStr(g) + ['-'] + NatStr(s));
    SplitFirst(NatStr(g), '-', NatStr(s));
    SplitNoSep(NatStr(s), '-');
  }

  /** `sub-container-G` splits into `sub`, `container` and the text of G. */
  lemma SplitContainerId(g: nat)
    ensures Split(ContainerId(g), '-') == ["sub", "container", NatStr(g)]
  {
    NatStrNoDash(g);
    assert ContainerId(g) == "sub" + ['-'] + ("container" + ['-'] + NatStr(g));
    SplitFirst("sub", '-', "container" + ['-'] + NatStr(g));
    SplitFirst("container", '-', NatStr(g));
    SplitNoSep(NatStr(g), '-');
  }

  /** Sub-item ids round-trip through `split('-')` and `parseInt`. */
  lemma SubIdRoundTrip(g: nat, s: nat)
    ensures SubField(SubId(g, s), 1) == Some(g)
    ensures SubField(SubId(g, s), 2) == Some(s)
  {
    SplitSubId(g, s);
    ParseNatStr(g);
    ParseNatStr(s);
  }

  /** Group ids round-trip through `replace('group-', '')` and `parseInt`,
      and also through `split('-')` and `parseInt` of the second piece. */
  lemma GroupIdRoundTrip(g: nat)
    ensures GroupIndexOf(GroupId(g)) == Some(g)
    ensures SubField(GroupId(g), 1) == Some(g)
  {
    var id := GroupId(g);
    assert id[..|"group-"|] == "group-";
    assert ReplaceFirst(id, "group-", "") == NatStr(g);
    ParseNatStr(g);
    NatStrNoDash(g);
    assert id == "group" + ['-'] + NatStr(g);
    SplitFirst("group", '-', NatStr(g));
    SplitNoSep(NatStr(g), '-');
  }

  /** A container id read as a sub-item id gives `NaN` for the group and the
      group's number for the sub-item position. */
  lemma ContainerIdAsSubId(g: nat)
    ensures SubField(ContainerId(g), 1) == None
    ensures SubField(ContainerId(g), 2) == Some(g)
  {
    SplitContainerId(g);
    ParseNatStr(g);
    assert DigitRun("container") == 0;
  }

  /** Which prefixes each kind of id carries: a container id also starts
      with `sub-`, and no other id starts with another kind's prefix. */
  lemma IdPrefixes(g: nat, s: nat)
    ensures StartsWith(GroupId(g), "group-") && !StartsWith(GroupId(g), "sub-")
    ensures !StartsWith(GroupId(g), "sub-container-") && GroupId(g) != TrashId
    ensures StartsWith(SubId(g, s), "sub-") && !StartsWith(SubId(g, s), "group-")
    ensures !StartsWith(SubId(g, s), "sub-container-") && SubId(g, s) != TrashId
    ensures StartsWith(ContainerId(g), "sub-") && StartsWith(ContainerId(g), "sub-container-")
    ensures !StartsWith(ContainerId(g), "group-") && ContainerId(g) != TrashId
    ensures !StartsWith(TrashId, "group-") && !StartsWith(TrashId, "sub-")
  {
    var gid, sid, cid := GroupId(g), SubId(g, s), ContainerId(g);
    assert gid[..6] == "group-";
    assert gid[0] == 'g';
    assert sid[..4] == "sub-";
    assert sid[0] == 's';
    assert sid[4] == NatStr(g)[0];
    assert IsDigit(sid[4]);
    assert cid[..4] == "sub-";
    assert cid[..14] == "sub-container-";
    assert cid[0] == 's';
    assert TrashId[0] == 't';
  }

  /** Every id a row can carry decodes back to that row, and the prefix
      tests tell group rows and sub-item rows apart. */
  lemma DecodeNodeId(r: NodeRef)
    ensures StartsWith(NodeId(r), "group-") <==> r.GroupRef?
    ensures StartsWith(NodeId(r), "sub-") <==> r.SubRef?
    ensures r.GroupRef? ==> GroupIndexOf(NodeId(r)) == Some(r.g) && SubField(NodeId(r), 1) == Some(r.g)
    ensures r.SubRef? ==> SubField(NodeId(r), 1) == Some(r.g) && SubField(NodeId(r), 2) == Some(r.s)
  {
    IdPrefixes(r.g, if r.SubRef? then r.s else 0);
    match r {
      case GroupRef(g) => GroupIdRoundTrip(g);
      case SubRef(g, s) => SubIdRoundTrip(g, s);
    }
  }

  /** The same for drop targets; a container id is the one whose `sub-`
      prefix hides a second `container` piece. */
  lemma DecodeOverId(t: OverTarget)
    ensures StartsWith(OverId(t), "group-") <==> t.OverGroup?
    ensures StartsWith(OverId(t), "sub-") <==> t.OverSub? || t.OverContainer?
    ensures StartsWith(OverId(t), "sub-container-") <==> t.OverContainer?
    ensures OverId(t) == TrashId <==> t.OverTrash?
    ensures t.OverGroup? ==> GroupIndexOf(OverId(t)) == Some(t.g)
    ensures t.OverSub? ==> SubField(OverId(t), 1) == Some(t.g) && SubField(OverId(t), 2) == Some(t.s)
    ensures t.OverContainer? ==> SubField(OverId(t), 1) == None && SubField(OverId(t), 2) == Some(t.g)
  {
    match t {
      case OverGroup(g) => IdPrefixes(g, 0); GroupIdRoundTrip(g);
      case OverSub(g, s) => IdPrefixes(g, s); SubIdRoundTrip(g, s);
      case OverContainer(g) => IdPrefixes(g, 0); ContainerIdAsSubId(g);
      case OverTrash => IdPrefixes(0, 0);
    }
  }

  /** Different rows never share an id. */
  lemma NodeIdInjective(a: NodeRef, b: NodeRef)
    ensures NodeId(a) == NodeId(b) <==> a == b
  {
    DecodeNodeId(a);
    DecodeNodeId(b);
  }
}
