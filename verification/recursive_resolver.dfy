/**
 * The client-side recursive resolver as the program runs it: two visited
 * lists created once per call and shared, by reference, with every nested
 * traversal, which only ever append to them.
 */
module RecursiveResolver {
  import opened Collections
  import opened Text
  import opened Directory
  import opened Traversal
  import opened TraversalProperties

  /** A visited collection (`List<string>` behind `ICollection<string>`). */
  class KeyList {
    var items: seq<string>

    constructor ()
      ensures items == []
    {
      items := [];
    }

    predicate Contains(key: string)
      reads this
    {
      key in items
    }

    method Add(key: string)
      modifies this
      ensures items == old(items) + [key]
    {
      items := items + [key];
    }
  }

  /**
   * One traversal of `groupDn` with the caller's visited lists: the users it
   * yields and what it appends to the lists are exactly those of `Traverse`.
   */
  method GetUsersRecursivelyFrom(dir: Directory, searchRoot: string, groupDn: string, searchedGroups: KeyList, searchedUsers: KeyList)
    returns (users: seq<Entry>)
    requires searchedGroups != searchedUsers
    modifies searchedGroups, searchedUsers
    decreases GroupKeys(dir, searchRoot) - Elems(searchedGroups.items)
    ensures var r := Traverse(dir, searchRoot, groupDn, old(searchedGroups.items), old(searchedUsers.items));
      users == r.yielded && searchedGroups.items == r.searchedGroups && searchedUsers.items == r.searchedUsers
  {
    ghost var groups0 := searchedGroups.items;
    ghost var all := TraverseSubgroups(dir, searchRoot, groupDn, 0, groups0, searchedUsers.items);
    users := [];
    var subGroups := GetMembers(dir, searchRoot, groupDn, Group);
    for i := 0 to |subGroups|
      invariant groups0 <= searchedGroups.items
      invariant SubgroupsRemaining(dir, searchRoot, groupDn, i, searchedGroups.items, searchedUsers.items, users, all)
    {
      var subGroup := subGroups[i];
      var subGroupName := Upper(subGroup.name);
      if searchedGroups.Contains(subGroupName) {
        SkipNext(dir, searchRoot, groupDn, i, searchedGroups.items, searchedUsers.items, users, all);
        continue;
      }
      ghost var groupsBefore, usersBefore := searchedGroups.items, searchedUsers.items;
      VisitShrinks(dir, searchRoot, groupDn, i, groupsBefore, groupsBefore + [subGroupName]);
      PrefixElems(groups0, groupsBefore);
      searchedGroups.Add(subGroupName);
      var found := GetUsersRecursivelyFrom(dir, searchRoot, subGroup.dn, searchedGroups, searchedUsers);
      VisitNext(dir, searchRoot, groupDn, i, groupsBefore, usersBefore, users, all, found);
      PrefixTransitive(groups0, groupsBefore + [subGroupName], searchedGroups.items);
      users := users + found;
    }
    SubgroupsDone(dir, searchRoot, groupDn, groups0, old(searchedUsers.items), all, searchedGroups.items, searchedUsers.items, users);
    var direct := YieldNewUsers(GetMembers(dir, searchRoot, groupDn, User), searchedUsers);
    users := users + direct;
  }

  /**
   * The user loop of one traversal: yields, in the directory's order, each
   * user whose key is not yet in `searchedUsers`, and appends that key.
   */
  method YieldNewUsers(batch: seq<Entry>, searchedUsers: KeyList) returns (yielded: seq<Entry>)
    modifies searchedUsers
    ensures var r := EmitUsers(batch, old(searchedUsers.items));
      yielded == r.yielded && searchedUsers.items == r.searchedUsers
  {
    ghost var all := EmitUsers(batch, searchedUsers.items);
    yielded := [];
    for j := 0 to |batch|
      invariant EmitRemaining(batch, j, searchedUsers.items, yielded, all)
    {
      var user := batch[j];
      var userName := Upper(user.name);
      EmitNext(batch, j, searchedUsers.items, yielded, all);
      if searchedUsers.Contains(userName) {
        continue;
      }
      searchedUsers.Add(userName);
      yielded := yielded + [user];
    }
    assert batch[|batch|..] == [];
  }

  /** The subgroup loop from `i` on, with lists `g` and `u`, yields what `users` still lacks of `all`. */
  ghost predicate SubgroupsRemaining(dir: Directory, searchRoot: string, groupDn: string, i: nat, g: seq<string>, u: seq<string>,
                                     users: seq<Entry>, all: Progress)
  {
    i <= |GetMembers(dir, searchRoot, groupDn, Group)| &&
    var rest := TraverseSubgroups(dir, searchRoot, groupDn, i, g, u);
    users + rest.yielded == all.yielded && rest.searchedGroups == all.searchedGroups && rest.searchedUsers == all.searchedUsers
  }

  /** Skipping the `i`-th subgroup, whose key is already there, moves the subgroup loop one step on. */
  lemma SkipNext(dir: Directory, searchRoot: string, groupDn: string, i: nat, g: seq<string>, u: seq<string>, users: seq<Entry>, all: Progress)
    requires i < |GetMembers(dir, searchRoot, groupDn, Group)|
    requires Upper(GetMembers(dir, searchRoot, groupDn, Group)[i].name) in g
    requires SubgroupsRemaining(dir, searchRoot, groupDn, i, g, u, users, all)
    ensures SubgroupsRemaining(dir, searchRoot, groupDn, i + 1, g, u, users, all)
  {
  }

  /** Once the subgroup loop is done, the traversal is what it yielded followed by the user loop. */
  lemma SubgroupsDone(dir: Directory, searchRoot: string, groupDn: string, g0: seq<string>, u0: seq<string>, all: Progress,
                      g: seq<string>, u: seq<string>, users: seq<Entry>)
    requires all == TraverseSubgroups(dir, searchRoot, groupDn, 0, g0, u0)
    requires SubgroupsRemaining(dir, searchRoot, groupDn, |GetMembers(dir, searchRoot, groupDn, Group)|, g, u, users, all)
    ensures var r := Traverse(dir, searchRoot, groupDn, g0, u0);
      var direct := EmitUsers(GetMembers(dir, searchRoot, groupDn, User), u);
      r.yielded == users + direct.yielded && r.searchedGroups == g && r.searchedUsers == direct.searchedUsers
  {
    assert TraverseSubgroups(dir, searchRoot, groupDn, |GetMembers(dir, searchRoot, groupDn, Group)|, g, u) == Progress([], g, u, []);
    assert users + [] == users;
  }

  /** Visiting the `i`-th subgroup, whose key is new, moves the subgroup loop one step on. */
  lemma VisitNext(dir: Directory, searchRoot: string, groupDn: string, i: nat, g: seq<string>, u: seq<string>,
                  users: seq<Entry>, all: Progress, found: seq<Entry>)
    requires i < |GetMembers(dir, searchRoot, groupDn, Group)|
    requires Upper(GetMembers(dir, searchRoot, groupDn, Group)[i].name) !in g
    requires SubgroupsRemaining(dir, searchRoot, groupDn, i, g, u, users, all)
    ensures var subGroup := GetMembers(dir, searchRoot, groupDn, Group)[i];
      var inner := Traverse(dir, searchRoot, subGroup.dn, g + [Upper(subGroup.name)], u);
      found == inner.yielded ==>
        SubgroupsRemaining(dir, searchRoot, groupDn, i + 1, inner.searchedGroups, inner.searchedUsers, users + found, all)
  {
    var subGroup := GetMembers(dir, searchRoot, groupDn, Group)[i];
    var inner := Traverse(dir, searchRoot, subGroup.dn, g + [Upper(subGroup.name)], u);
    var rest := TraverseSubgroups(dir, searchRoot, groupDn, i + 1, inner.searchedGroups, inner.searchedUsers);
    assert TraverseSubgroups(dir, searchRoot, groupDn, i, g, u)
        == Progress(inner.yielded + rest.yielded, rest.searchedGroups, rest.searchedUsers, inner.traversals + rest.traversals);
    assert users + (inner.yielded + rest.yielded) == (users + inner.yielded) + rest.yielded;
  }

  /** The user loop from `j` on, with list `u`, yields what `yielded` still lacks of `all`. */
  ghost predicate EmitRemaining(batch: seq<Entry>, j: nat, u: seq<string>, yielded: seq<Entry>, all: Emitted) {
    j <= |batch| &&
    var rest := EmitUsers(batch[j..], u);
    yielded + rest.yielded == all.yielded && rest.searchedUsers == all.searchedUsers
  }

  /** Handling the `j`-th user moves the user loop one step on. */
  lemma EmitNext(batch: seq<Entry>, j: nat, u: seq<string>, yielded: seq<Entry>, all: Emitted)
    requires j < |batch|
    requires EmitRemaining(batch, j, u, yielded, all)
    ensures Upper(batch[j].name) in u ==> EmitRemaining(batch, j + 1, u, yielded, all)
    ensures Upper(batch[j].name) !in u ==> EmitRemaining(batch, j + 1, u + [Upper(batch[j].name)], yielded + [batch[j]], all)
  {
    assert batch[j..][1..] == batch[j + 1..];
    assert batch[j..][0] == batch[j];
    var rest := EmitUsers(batch[j + 1..], u + [Upper(batch[j].name)]);
    assert Upper(batch[j].name) !in u ==> EmitUsers(batch[j..], u) == Emitted([batch[j]] + rest.yielded, rest.searchedUsers);
    assert yielded + ([batch[j]] + rest.yielded) == (yielded + [batch[j]]) + rest.yielded;
  }

  /**
   * The public resolver: fresh visited lists, then one traversal. It yields
   * exactly `Resolve`, never two users with the same case-insensitive name,
   * and only users of the group or of groups nested in it.
   */
  method GetUsersRecursively(dir: Directory, searchRoot: string, groupDn: string) returns (users: seq<Entry>)
    ensures users == Resolve(dir, searchRoot, groupDn)
    ensures NoDuplicates(Keys(users))
    ensures forall u :: u in users ==> ReachableUser(dir, searchRoot, groupDn, u)
  {
    var searchedGroups := new KeyList();
    var searchedUsers := new KeyList();
    users := GetUsersRecursivelyFrom(dir, searchRoot, groupDn, searchedGroups, searchedUsers);
    ResolveNoDuplicates(dir, searchRoot, groupDn);
    ResolveSound(dir, searchRoot, groupDn);
  }
}
