/** The category tree shared by both sidebar versions: an ordered list of
    groups, each holding an ordered list of sub-items. */
module Tree {

  /** The lucide icon components a group can show; opaque to every operation. */
  datatype Icon = Code | BookOpen | Rocket | Heart

  /** A leaf category: a display name and a post count. */
  datatype SubItem = SubItem(name: string, count: int)

  /** A top-level category with its icon and its ordered sub-items. */
  datatype Group = Group(name: string, icon: Icon, categories: seq<SubItem>)

  /** Which half of a row the pointer is over when a drop happens. */
  datatype Position = Before | After

  /** The set of expanded group names after `toggleGroup(name)`. */
  function Toggled(open: set<string>, name: string): (r: set<string>)
    ensures name in r <==> name !in open
    ensures forall n :: n != name ==> (n in r <==> n in open)
  {
    if name in open then open - {name} else open + {name}
  }

  /** Toggling the same name twice restores the set of expanded groups. */
  lemma ToggledTwice(open: set<string>, name: string)
    ensures Toggled(Toggled(open, name), name) == open
  {
    var once := Toggled(open, name);
    var twice := Toggled(once, name);
    forall n
      ensures n in twice <==> n in open
    {
      if n == name {
        assert n in once <==> n !in open;
      }
    }
  }

  /** `groups` with the sub-item list of group `g` replaced. */
  function WithCategories(groups: seq<Group>, g: nat, cats: seq<SubItem>): (r: seq<Group>)
    requires g < |groups|
    ensures |r| == |groups|
    ensures r[g] == Group(groups[g].name, groups[g].icon, cats)
    ensures forall k :: 0 <= k < |groups| && k != g ==> r[k] == groups[k]
  {
    groups[g := groups[g].(categories := cats)]
  }
}
