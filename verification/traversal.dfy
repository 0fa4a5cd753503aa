/**
 * The recursive resolver as a function of the directory and of the two
 * visited lists it is handed: what it yields, what the lists hold when it
 * returns, and which groups it traversed. The imperative resolver in
 * module RecursiveResolver is proved to compute exactly this.
 */
module Traversal {
  import opened Collections
  import opened Text
  import opened Directory

  /**
   * The outcome of one traversal: the users it yielded in order, the two
   * visited lists afterwards, and the distinguished names of the groups
   * whose traversal it started, in the order it started them.
   */
  datatype Progress = Progress(
    yielded: seq<Entry>,
    searchedGroups: seq<string>,
    searchedUsers: seq<string>,
    traversals: seq<string>)

  /** The outcome of walking one batch of user members. */
  datatype Emitted = Emitted(yielded: seq<Entry>, searchedUsers: seq<string>)

  /**
   * Walks a batch of direct users: a user whose key is already in
   * `searchedUsers` is skipped, any other is remembered and yielded.
   */
  function EmitUsers(batch: seq<Entry>, searchedUsers: seq<string>): (r: Emitted)
    ensures r.searchedUsers == searchedUsers + Keys(r.yielded)
  {
    if batch == [] then Emitted([], searchedUsers)
    else
      var userName := Upper(batch[0].name);
      if userName in searchedUsers then EmitUsers(batch[1..], searchedUsers)
      else
        var rest := EmitUsers(batch[1..], searchedUsers + [userName]);
        KeysAppend([batch[0]], rest.yielded);
        Emitted([batch[0]] + rest.yielded, rest.searchedUsers)
  }

  /**
   * One traversal of `groupDn`: first every subgroup (recursing into each one
   * whose key was not yet searched), then the group's own users.
   */
  function Traverse(dir: Directory, searchRoot: string, groupDn: string, searchedGroups: seq<string>, searchedUsers: seq<string>): (r: Progress)
    decreases GroupKeys(dir, searchRoot) - Elems(searchedGroups), 1, 0
    ensures searchedGroups <= r.searchedGroups
    ensures r.searchedUsers == searchedUsers + Keys(r.yielded)
    ensures |r.traversals| == 1 + |r.searchedGroups| - |searchedGroups|
  {
    var subs := TraverseSubgroups(dir, searchRoot, groupDn, 0, searchedGroups, searchedUsers);
    var direct := EmitUsers(GetMembers(dir, searchRoot, groupDn, User), subs.searchedUsers);
    KeysAppend(subs.yielded, direct.yielded);
    Progress(subs.yielded + direct.yielded, subs.searchedGroups, direct.searchedUsers, [groupDn] + subs.traversals)
  }

  /** The subgroup loop of `Traverse` from the `i`-th subgroup on. */
  function TraverseSubgroups(dir: Directory, searchRoot: string, groupDn: string, i: nat, searchedGroups: seq<string>, searchedUsers: seq<string>): (r: Progress)
    requires i <= |GetMembers(dir, searchRoot, groupDn, Group)|
    decreases GroupKeys(dir, searchRoot) - Elems(searchedGroups), 0, |GetMembers(dir, searchRoot, groupDn, Group)| - i
    ensures searchedGroups <= r.searchedGroups
    ensures r.searchedUsers == searchedUsers + Keys(r.yielded)
    ensures |r.traversals| == |r.searchedGroups| - |searchedGroups|
  {
    var subGroups := GetMembers(dir, searchRoot, groupDn, Group);
    if i == |subGroups| then Progress([], searchedGroups, searchedUsers, [])
    else
      var subGroup := subGroups[i];
      var subGroupName := Upper(subGroup.name);
      if subGroupName in searchedGroups then TraverseSubgroups(dir, searchRoot, groupDn, i + 1, searchedGroups, searchedUsers)
      else
        var marked := searchedGroups + [subGroupName];
        VisitShrinks(dir, searchRoot, groupDn, i, searchedGroups, marked);
        var inner := Traverse(dir, searchRoot, subGroup.dn, marked, searchedUsers);
        VisitShrinks(dir, searchRoot, groupDn, i, searchedGroups, inner.searchedGroups);
        var rest := TraverseSubgroups(dir, searchRoot, groupDn, i + 1, inner.searchedGroups, inner.searchedUsers);
        PrefixTransitive(searchedGroups, marked, inner.searchedGroups);
        PrefixTransitive(searchedGroups, inner.searchedGroups, rest.searchedGroups);
        KeysAppend(inner.yielded, rest.yielded);
        Progress(inner.yielded + rest.yielded, rest.searchedGroups, rest.searchedUsers, inner.traversals + rest.traversals)
  }

  /**
   * Marking the key of a subgroup not yet visited, and whatever a traversal
   * adds after it, leaves fewer group keys (`GroupKeys`) unvisited.
   */
  lemma VisitShrinks(dir: Directory, searchRoot: string, groupDn: string, i: nat, searchedGroups: seq<string>, after: seq<string>)
    requires i < |GetMembers(dir, searchRoot, groupDn, Group)|
    requires Upper(GetMembers(dir, searchRoot, groupDn, Group)[i].name) !in searchedGroups
    requires searchedGroups + [Upper(GetMembers(dir, searchRoot, groupDn, Group)[i].name)] <= after
    ensures GroupKeys(dir, searchRoot) - Elems(after) < GroupKeys(dir, searchRoot) - Elems(searchedGroups)
  {
    var subGroup := GetMembers(dir, searchRoot, groupDn, Group)[i];
    var marked := searchedGroups + [Upper(subGroup.name)];
    MemberKeyInGroupKeys(dir, searchRoot, groupDn, subGroup);
    PrefixElems(searchedGroups, marked);
    PrefixElems(marked, after);
    assert Upper(subGroup.name) in Elems(after);
  }

  /** The public entry point: a traversal that starts with both lists empty. */
  function Resolve(dir: Directory, searchRoot: string, groupDn: string): seq<Entry> {
    Traverse(dir, searchRoot, groupDn, [], []).yielded
  }
}
