/**
 * What the recursive resolver guarantees: no user twice (keys compared
 * case-insensitively), visited lists that only grow, a bound on the number
 * of traversals, subgroups before direct users, the first of several users
 * with the same key, only users of groups reachable from the root, and, when
 * a group's key determines the group, the key of every such user.
 */
module TraversalProperties {
  import opened Collections
  import opened Text
  import opened Directory
  import opened Traversal

  /** `to` is `n` subgroup steps below `from`. */
  ghost predicate ReachesIn(dir: Directory, searchRoot: string, from: string, to: string, n: nat)
    decreases n
  {
    if n == 0 then from == to
    else exists e :: e in GetMembers(dir, searchRoot, from, Group) && ReachesIn(dir, searchRoot, e.dn, to, n - 1)
  }

  /** `to` is `from` or a group nested, at any depth, in `from`. */
  ghost predicate Reaches(dir: Directory, searchRoot: string, from: string, to: string) {
    exists n: nat :: ReachesIn(dir, searchRoot, from, to, n)
  }

  /** `u` is a direct user member of `root` or of a group reachable from it. */
  ghost predicate ReachableUser(dir: Directory, searchRoot: string, root: string, u: Entry) {
    exists d :: Reaches(dir, searchRoot, root, d) && u in GetMembers(dir, searchRoot, d, User)
  }

  /** `u` is reachable from one of the immediate subgroups of `groupDn`. */
  ghost predicate UserBelowSubgroup(dir: Directory, searchRoot: string, groupDn: string, u: Entry) {
    exists e :: e in GetMembers(dir, searchRoot, groupDn, Group) && ReachableUser(dir, searchRoot, e.dn, u)
  }

  /** `d` is reachable from one of the immediate subgroups of `groupDn`. */
  ghost predicate GroupBelowSubgroup(dir: Directory, searchRoot: string, groupDn: string, d: string) {
    exists e :: e in GetMembers(dir, searchRoot, groupDn, Group) && Reaches(dir, searchRoot, e.dn, d)
  }

  /** One more subgroup step in front of a path is a path. */
  lemma ReachesThrough(dir: Directory, searchRoot: string, groupDn: string, e: Entry, d: string)
    requires e in GetMembers(dir, searchRoot, groupDn, Group) && Reaches(dir, searchRoot, e.dn, d)
    ensures Reaches(dir, searchRoot, groupDn, d)
  {
    var n: nat :| ReachesIn(dir, searchRoot, e.dn, d, n);
    assert ReachesIn(dir, searchRoot, groupDn, d, n + 1);
  }

  // ---------------------------------------------------------------------------
  // Order within one batch

  /** The users yielded from one batch keep the order the directory returned them in. */
  lemma {:induction false} EmitUsersKeepsOrder(batch: seq<Entry>, searchedUsers: seq<string>)
    ensures IsSubsequence(EmitUsers(batch, searchedUsers).yielded, batch)
  {
    if batch != [] {
      var userName := Upper(batch[0].name);
      if userName in searchedUsers {
        EmitUsersKeepsOrder(batch[1..], searchedUsers);
        SubsequenceOfTail(EmitUsers(batch[1..], searchedUsers).yielded, batch);
      } else {
        EmitUsersKeepsOrder(batch[1..], searchedUsers + [userName]);
      }
    }
  }

  /** After a batch is walked, the key of every user in it is in `searchedUsers`. */
  lemma {:induction false} EmitUsersRemembersBatch(batch: seq<Entry>, searchedUsers: seq<string>)
    ensures forall u :: u in batch ==> Upper(u.name) in EmitUsers(batch, searchedUsers).searchedUsers
  {
    if batch != [] {
      var userName := Upper(batch[0].name);
      var marked := if userName in searchedUsers then searchedUsers else searchedUsers + [userName];
      EmitUsersRemembersBatch(batch[1..], marked);
      var rest := EmitUsers(batch[1..], marked);
      assert EmitUsers(batch, searchedUsers).searchedUsers == rest.searchedUsers;
      assert userName in marked;
      PrefixElems(marked, rest.searchedUsers);
      assert userName in Elems(rest.searchedUsers);
      forall u | u in batch ensures Upper(u.name) in rest.searchedUsers {
        if u != batch[0] {
          assert u in batch[1..];
        }
      }
    }
  }

  /**
   * `batch[j]` is the first user of the batch with its key, and that key was
   * not in `searchedUsers` before the batch.
   */
  predicate FirstNewAt(batch: seq<Entry>, searchedUsers: seq<string>, j: nat)
    requires j < |batch|
  {
    Upper(batch[j].name) !in searchedUsers && Upper(batch[j].name) !in Keys(batch[..j])
  }

  /** The users among the first `n` of the batch that `FirstNewAt` selects, in batch order. */
  function FirstNewUsers(batch: seq<Entry>, searchedUsers: seq<string>, n: nat): seq<Entry>
    requires n <= |batch|
  {
    if n == 0 then []
    else
      FirstNewUsers(batch, searchedUsers, n - 1)
        + (if FirstNewAt(batch, searchedUsers, n - 1) then [batch[n - 1]] else [])
  }

  /** The keys selected among the first `n` users are those among them not searched before. */
  lemma {:induction false} FirstNewUsersKeys(batch: seq<Entry>, searchedUsers: seq<string>, n: nat)
    requires n <= |batch|
    ensures forall x :: x in Keys(FirstNewUsers(batch, searchedUsers, n)) <==> x !in searchedUsers && x in Keys(batch[..n])
  {
    if n > 0 {
      FirstNewUsersKeys(batch, searchedUsers, n - 1);
      var prev := FirstNewUsers(batch, searchedUsers, n - 1);
      var key := Upper(batch[n - 1].name);
      assert batch[..n] == batch[..n - 1] + [batch[n - 1]];
      KeysAppend(batch[..n - 1], [batch[n - 1]]);
      assert Keys([batch[n - 1]]) == [key];
      assert Keys(batch[..n]) == Keys(batch[..n - 1]) + [key];
      if FirstNewAt(batch, searchedUsers, n - 1) {
        KeysAppend(prev, [batch[n - 1]]);
        assert Keys(FirstNewUsers(batch, searchedUsers, n)) == Keys(prev) + [key];
      } else {
        assert FirstNewUsers(batch, searchedUsers, n) == prev;
      }
    }
  }

  /** After the first `k` users, the walk has yielded what `FirstNewUsers` selects among them. */
  lemma {:induction false} EmitUsersAfterPrefix(batch: seq<Entry>, searchedUsers: seq<string>, k: nat)
    requires k <= |batch|
    ensures var f := FirstNewUsers(batch, searchedUsers, k);
      var rest := EmitUsers(batch[k..], searchedUsers + Keys(f));
      EmitUsers(batch, searchedUsers) == Emitted(f + rest.yielded, rest.searchedUsers)
  {
    if k == 0 {
      assert batch[0..] == batch;
      assert searchedUsers + Keys([]) == searchedUsers;
    } else {
      EmitUsersAfterPrefix(batch, searchedUsers, k - 1);
      var f := FirstNewUsers(batch, searchedUsers, k - 1);
      var s := searchedUsers + Keys(f);
      var key := Upper(batch[k - 1].name);
      FirstNewUsersKeys(batch, searchedUsers, k - 1);
      assert key in s <==> !FirstNewAt(batch, searchedUsers, k - 1);
      assert batch[k - 1..][0] == batch[k - 1];
      assert batch[k - 1..][1..] == batch[k..];
      if key in s {
        assert FirstNewUsers(batch, searchedUsers, k) == f;
        assert EmitUsers(batch[k - 1..], s) == EmitUsers(batch[k..], s);
      } else {
        KeysAppend(f, [batch[k - 1]]);
        assert s + [key] == searchedUsers + Keys(f + [batch[k - 1]]);
        var rest := EmitUsers(batch[k..], s + [key]);
        assert f + ([batch[k - 1]] + rest.yielded) == (f + [batch[k - 1]]) + rest.yielded;
      }
    }
  }

  /**
   * Of several users with the same key, the walk yields exactly the first one
   * it reaches, and only if that key was not searched before: the users it
   * yields are those `FirstNewAt` selects, in batch order.
   */
  lemma EmitUsersFirstOccurrences(batch: seq<Entry>, searchedUsers: seq<string>)
    ensures EmitUsers(batch, searchedUsers).yielded == FirstNewUsers(batch, searchedUsers, |batch|)
  {
    EmitUsersAfterPrefix(batch, searchedUsers, |batch|);
    assert batch[|batch|..] == [];
  }

  // ---------------------------------------------------------------------------
  // The visited lists

  /** A user list without duplicates stays without duplicates. */
  lemma {:induction false} EmitUsersNoDuplicates(batch: seq<Entry>, searchedUsers: seq<string>)
    ensures NoDuplicates(searchedUsers) ==> NoDuplicates(EmitUsers(batch, searchedUsers).searchedUsers)
  {
    if batch != [] {
      var userName := Upper(batch[0].name);
      if userName in searchedUsers {
        EmitUsersNoDuplicates(batch[1..], searchedUsers);
      } else {
        EmitUsersNoDuplicates(batch[1..], searchedUsers + [userName]);
      }
    }
  }

  /**
   * Neither list ever holds a key twice, and every group key a traversal
   * adds is the key of an entry the directory returned.
   */
  lemma {:induction false} TraverseVisited(dir: Directory, searchRoot: string, groupDn: string, searchedGroups: seq<string>, searchedUsers: seq<string>)
    decreases GroupKeys(dir, searchRoot) - Elems(searchedGroups), 1, 0
    ensures var r := Traverse(dir, searchRoot, groupDn, searchedGroups, searchedUsers);
      && (NoDuplicates(searchedGroups) ==> NoDuplicates(r.searchedGroups))
      && (NoDuplicates(searchedUsers) ==> NoDuplicates(r.searchedUsers))
      && Elems(r.searchedGroups) <= Elems(searchedGroups) + GroupKeys(dir, searchRoot)
  {
    var subs := TraverseSubgroups(dir, searchRoot, groupDn, 0, searchedGroups, searchedUsers);
    TraverseSubgroupsVisited(dir, searchRoot, groupDn, 0, searchedGroups, searchedUsers);
    EmitUsersNoDuplicates(GetMembers(dir, searchRoot, groupDn, User), subs.searchedUsers);
  }

  lemma {:induction false} TraverseSubgroupsVisited(dir: Directory, searchRoot: string, groupDn: string, i: nat, searchedGroups: seq<string>, searchedUsers: seq<string>)
    requires i <= |GetMembers(dir, searchRoot, groupDn, Group)|
    decreases GroupKeys(dir, searchRoot) - Elems(searchedGroups), 0, |GetMembers(dir, searchRoot, groupDn, Group)| - i
    ensures var r := TraverseSubgroups(dir, searchRoot, groupDn, i, searchedGroups, searchedUsers);
      && (NoDuplicates(searchedGroups) ==> NoDuplicates(r.searchedGroups))
      && (NoDuplicates(searchedUsers) ==> NoDuplicates(r.searchedUsers))
      && Elems(r.searchedGroups) <= Elems(searchedGroups) + GroupKeys(dir, searchRoot)
  {
    var subGroups := GetMembers(dir, searchRoot, groupDn, Group);
    if i < |subGroups| {
      var subGroup := subGroups[i];
      var subGroupName := Upper(subGroup.name);
      if subGroupName in searchedGroups {
        TraverseSubgroupsVisited(dir, searchRoot, groupDn, i + 1, searchedGroups, searchedUsers);
      } else {
        MemberKeyInGroupKeys(dir, searchRoot, groupDn, subGroup);
        var marked := searchedGroups + [subGroupName];
        assert Elems(marked) == Elems(searchedGroups) + {subGroupName};
        var inner := Traverse(dir, searchRoot, subGroup.dn, marked, searchedUsers);
        TraverseVisited(dir, searchRoot, subGroup.dn, marked, searchedUsers);
        PrefixElems(marked, inner.searchedGroups);
        TraverseSubgroupsVisited(dir, searchRoot, groupDn, i + 1, inner.searchedGroups, inner.searchedUsers);
      }
    }
  }

  /**
   * However the groups nest, even in a cycle, one top-level call traverses
   * at most one group per distinct group key (`GroupKeys`), plus the root.
   */
  lemma TraversalBound(dir: Directory, searchRoot: string, groupDn: string)
    ensures |Traverse(dir, searchRoot, groupDn, [], []).traversals| <= |GroupKeys(dir, searchRoot)| + 1
  {
    var r := Traverse(dir, searchRoot, groupDn, [], []);
    TraverseVisited(dir, searchRoot, groupDn, [], []);
    NoDuplicatesCardinality(r.searchedGroups);
    assert Elems(r.searchedGroups) <= GroupKeys(dir, searchRoot);
    SubsetCardinality(Elems(r.searchedGroups), GroupKeys(dir, searchRoot));
  }

  /** No key, i.e. no account name compared case-insensitively, is yielded twice. */
  lemma ResolveNoDuplicates(dir: Directory, searchRoot: string, groupDn: string)
    ensures NoDuplicates(Keys(Resolve(dir, searchRoot, groupDn)))
    ensures forall i, j :: 0 <= i < j < |Resolve(dir, searchRoot, groupDn)| ==>
      !EqualsIgnoreCase(Resolve(dir, searchRoot, groupDn)[i].name, Resolve(dir, searchRoot, groupDn)[j].name)
  {
    var r := Traverse(dir, searchRoot, groupDn, [], []);
    TraverseVisited(dir, searchRoot, groupDn, [], []);
    assert r.searchedUsers == Keys(r.yielded);
    forall i, j | 0 <= i < j < |r.yielded|
      ensures !EqualsIgnoreCase(r.yielded[i].name, r.yielded[j].name)
    {
      assert Keys(r.yielded)[i] != Keys(r.yielded)[j];
      UpperEqualIffEqualsIgnoreCase(r.yielded[i].name, r.yielded[j].name);
    }
  }

  // ---------------------------------------------------------------------------
  // Soundness and order

  /**
   * Every user a traversal yields is a direct user of the group or of a group
   * reachable from it, and every group it traverses is reachable from it.
   */
  lemma {:induction false} TraverseSound(dir: Directory, searchRoot: string, groupDn: string, searchedGroups: seq<string>, searchedUsers: seq<string>)
    decreases GroupKeys(dir, searchRoot) - Elems(searchedGroups), 1, 0
    ensures var r := Traverse(dir, searchRoot, groupDn, searchedGroups, searchedUsers);
      && (forall u :: u in r.yielded ==> ReachableUser(dir, searchRoot, groupDn, u))
      && (forall d :: d in r.traversals ==> Reaches(dir, searchRoot, groupDn, d))
  {
    var subs := TraverseSubgroups(dir, searchRoot, groupDn, 0, searchedGroups, searchedUsers);
    var direct := EmitUsers(GetMembers(dir, searchRoot, groupDn, User), subs.searchedUsers);
    TraverseSubgroupsSound(dir, searchRoot, groupDn, 0, searchedGroups, searchedUsers);
    EmitUsersKeepsOrder(GetMembers(dir, searchRoot, groupDn, User), subs.searchedUsers);
    SubsequenceElems(direct.yielded, GetMembers(dir, searchRoot, groupDn, User));
    forall u | u in subs.yielded + direct.yielded ensures ReachableUser(dir, searchRoot, groupDn, u) {
      if u in subs.yielded {
        assert UserBelowSubgroup(dir, searchRoot, groupDn, u);
        var e :| e in GetMembers(dir, searchRoot, groupDn, Group) && ReachableUser(dir, searchRoot, e.dn, u);
        var d :| Reaches(dir, searchRoot, e.dn, d) && u in GetMembers(dir, searchRoot, d, User);
        ReachesThrough(dir, searchRoot, groupDn, e, d);
      } else {
        assert u in Elems(direct.yielded);
        assert ReachesIn(dir, searchRoot, groupDn, groupDn, 0);
        assert Reaches(dir, searchRoot, groupDn, groupDn);
      }
    }
    forall d | d in [groupDn] + subs.traversals ensures Reaches(dir, searchRoot, groupDn, d) {
      if d == groupDn {
        assert ReachesIn(dir, searchRoot, groupDn, d, 0);
      } else {
        assert GroupBelowSubgroup(dir, searchRoot, groupDn, d);
        var e :| e in GetMembers(dir, searchRoot, groupDn, Group) && Reaches(dir, searchRoot, e.dn, d);
        ReachesThrough(dir, searchRoot, groupDn, e, d);
      }
    }
  }

  /** What the subgroup loop yields and traverses lies below one of the subgroups. */
  lemma {:induction false} TraverseSubgroupsSound(dir: Directory, searchRoot: string, groupDn: string, i: nat, searchedGroups: seq<string>, searchedUsers: seq<string>)
    requires i <= |GetMembers(dir, searchRoot, groupDn, Group)|
    decreases GroupKeys(dir, searchRoot) - Elems(searchedGroups), 0, |GetMembers(dir, searchRoot, groupDn, Group)| - i
    ensures var r := TraverseSubgroups(dir, searchRoot, groupDn, i, searchedGroups, searchedUsers);
      && (forall u :: u in r.yielded ==> UserBelowSubgroup(dir, searchRoot, groupDn, u))
      && (forall d :: d in r.traversals ==> GroupBelowSubgroup(dir, searchRoot, groupDn, d))
  {
    var subGroups := GetMembers(dir, searchRoot, groupDn, Group);
    if i < |subGroups| {
      var subGroup := subGroups[i];
      var subGroupName := Upper(subGroup.name);
      if subGroupName in searchedGroups {
        TraverseSubgroupsSound(dir, searchRoot, groupDn, i + 1, searchedGroups, searchedUsers);
      } else {
        MemberKeyInGroupKeys(dir, searchRoot, groupDn, subGroup);
        var marked := searchedGroups + [subGroupName];
        assert Elems(marked) == Elems(searchedGroups) + {subGroupName};
        var inner := Traverse(dir, searchRoot, subGroup.dn, marked, searchedUsers);
        TraverseSound(dir, searchRoot, subGroup.dn, marked, searchedUsers);
        PrefixElems(marked, inner.searchedGroups);
        TraverseSubgroupsSound(dir, searchRoot, groupDn, i + 1, inner.searchedGroups, inner.searchedUsers);
      }
    }
  }

  /** Every user the resolver yields belongs to the root group or to a group nested in it. */
  lemma ResolveSound(dir: Directory, searchRoot: string, groupDn: string)
    ensures forall u :: u in Resolve(dir, searchRoot, groupDn) ==> ReachableUser(dir, searchRoot, groupDn, u)
  {
    TraverseSound(dir, searchRoot, groupDn, [], []);
  }

  /**
   * `yielded` splits at `k` into users found below the subgroups of
   * `groupDn`, then a run of its direct users in the directory's order.
   */
  ghost predicate SubgroupsThenDirect(dir: Directory, searchRoot: string, groupDn: string, yielded: seq<Entry>, k: nat) {
    && k <= |yielded|
    && (forall i :: 0 <= i < k ==> UserBelowSubgroup(dir, searchRoot, groupDn, yielded[i]))
    && IsSubsequence(yielded[k..], GetMembers(dir, searchRoot, groupDn, User))
  }

  /**
   * Within one traversal, everything the subgroup recursions yield comes
   * before the group's own users, and those keep the directory's order.
   */
  lemma DirectUsersComeLast(dir: Directory, searchRoot: string, groupDn: string, searchedGroups: seq<string>, searchedUsers: seq<string>)
    ensures exists k: nat :: SubgroupsThenDirect(dir, searchRoot, groupDn, Traverse(dir, searchRoot, groupDn, searchedGroups, searchedUsers).yielded, k)
  {
    var r := Traverse(dir, searchRoot, groupDn, searchedGroups, searchedUsers);
    var subs := TraverseSubgroups(dir, searchRoot, groupDn, 0, searchedGroups, searchedUsers);
    var direct := EmitUsers(GetMembers(dir, searchRoot, groupDn, User), subs.searchedUsers);
    TraverseSubgroupsSound(dir, searchRoot, groupDn, 0, searchedGroups, searchedUsers);
    EmitUsersKeepsOrder(GetMembers(dir, searchRoot, groupDn, User), subs.searchedUsers);
    var k := |subs.yielded|;
    assert r.yielded == subs.yielded + direct.yielded;
    assert r.yielded[k..] == direct.yielded;
    assert SubgroupsThenDirect(dir, searchRoot, groupDn, r.yielded, k);
  }

  // ---------------------------------------------------------------------------
  // Completeness

  /** Upper-cased `sAMAccountName` determines a group's distinguished name. */
  ghost predicate UniqueGroupNames(dir: Directory, searchRoot: string) {
    forall d1, d2, e1, e2 ::
      e1 in GetMembers(dir, searchRoot, d1, Group) && e2 in GetMembers(dir, searchRoot, d2, Group) && Upper(e1.name) == Upper(e2.name)
      ==> e1.dn == e2.dn
  }

  /** The keys of all of `d`'s subgroups and direct users are in the visited lists. */
  ghost predicate Closed(dir: Directory, searchRoot: string, d: string, searchedGroups: seq<string>, searchedUsers: seq<string>) {
    && (forall e :: e in GetMembers(dir, searchRoot, d, Group) ==> Upper(e.name) in searchedGroups)
    && (forall u :: u in GetMembers(dir, searchRoot, d, User) ==> Upper(u.name) in searchedUsers)
  }

  /** Every group whose key is in `searchedGroups` but not in `before` is closed. */
  ghost predicate AddedClosed(dir: Directory, searchRoot: string, before: seq<string>, searchedGroups: seq<string>, searchedUsers: seq<string>) {
    forall p, e :: e in GetMembers(dir, searchRoot, p, Group) && Upper(e.name) in searchedGroups && Upper(e.name) !in before
      ==> Closed(dir, searchRoot, e.dn, searchedGroups, searchedUsers)
  }

  lemma ClosedGrows(dir: Directory, searchRoot: string, d: string, g: seq<string>, u: seq<string>, g': seq<string>, u': seq<string>)
    requires Closed(dir, searchRoot, d, g, u) && g <= g' && u <= u'
    ensures Closed(dir, searchRoot, d, g', u')
  {
    PrefixElems(g, g');
    PrefixElems(u, u');
  }

  /**
   * When a traversal returns, the group it traversed is closed, and so is
   * every group whose key it added.
   */
  lemma {:induction false} TraverseCloses(dir: Directory, searchRoot: string, groupDn: string, searchedGroups: seq<string>, searchedUsers: seq<string>)
    requires UniqueGroupNames(dir, searchRoot)
    decreases GroupKeys(dir, searchRoot) - Elems(searchedGroups), 1, 0
    ensures var r := Traverse(dir, searchRoot, groupDn, searchedGroups, searchedUsers);
      Closed(dir, searchRoot, groupDn, r.searchedGroups, r.searchedUsers) && AddedClosed(dir, searchRoot, searchedGroups, r.searchedGroups, r.searchedUsers)
  {
    var subs := TraverseSubgroups(dir, searchRoot, groupDn, 0, searchedGroups, searchedUsers);
    var direct := EmitUsers(GetMembers(dir, searchRoot, groupDn, User), subs.searchedUsers);
    TraverseSubgroupsClose(dir, searchRoot, groupDn, 0, searchedGroups, searchedUsers);
    EmitUsersRemembersBatch(GetMembers(dir, searchRoot, groupDn, User), subs.searchedUsers);
    forall p, e | e in GetMembers(dir, searchRoot, p, Group) && Upper(e.name) in subs.searchedGroups && Upper(e.name) !in searchedGroups
      ensures Closed(dir, searchRoot, e.dn, subs.searchedGroups, direct.searchedUsers)
    {
      ClosedGrows(dir, searchRoot, e.dn, subs.searchedGroups, subs.searchedUsers, subs.searchedGroups, direct.searchedUsers);
    }
    forall e | e in GetMembers(dir, searchRoot, groupDn, Group) ensures Upper(e.name) in subs.searchedGroups {
      var j :| 0 <= j < |GetMembers(dir, searchRoot, groupDn, Group)| && GetMembers(dir, searchRoot, groupDn, Group)[j] == e;
    }
  }

  /**
   * The subgroup loop from the `i`-th subgroup on leaves the keys of all of
   * those subgroups in `searchedGroups`, and every group whose key it added closed.
   */
  ghost predicate SubgroupsClosed(dir: Directory, searchRoot: string, groupDn: string, i: nat, searchedGroups: seq<string>, searchedUsers: seq<string>)
    requires i <= |GetMembers(dir, searchRoot, groupDn, Group)|
  {
    var r := TraverseSubgroups(dir, searchRoot, groupDn, i, searchedGroups, searchedUsers);
    && (forall j :: i <= j < |GetMembers(dir, searchRoot, groupDn, Group)| ==> Upper(GetMembers(dir, searchRoot, groupDn, Group)[j].name) in r.searchedGroups)
    && AddedClosed(dir, searchRoot, searchedGroups, r.searchedGroups, r.searchedUsers)
  }

  lemma {:induction false} TraverseSubgroupsClose(dir: Directory, searchRoot: string, groupDn: string, i: nat, searchedGroups: seq<string>, searchedUsers: seq<string>)
    requires UniqueGroupNames(dir, searchRoot)
    requires i <= |GetMembers(dir, searchRoot, groupDn, Group)|
    decreases GroupKeys(dir, searchRoot) - Elems(searchedGroups), 0, |GetMembers(dir, searchRoot, groupDn, Group)| - i
    ensures SubgroupsClosed(dir, searchRoot, groupDn, i, searchedGroups, searchedUsers)
  {
    var subGroups := GetMembers(dir, searchRoot, groupDn, Group);
    if i < |subGroups| {
      var subGroup := subGroups[i];
      var subGroupName := Upper(subGroup.name);
      if subGroupName in searchedGroups {
        TraverseSubgroupsClose(dir, searchRoot, groupDn, i + 1, searchedGroups, searchedUsers);
        SkipCloses(dir, searchRoot, groupDn, i, searchedGroups, searchedUsers);
      } else {
        var marked := searchedGroups + [subGroupName];
        var inner := Traverse(dir, searchRoot, subGroup.dn, marked, searchedUsers);
        VisitShrinks(dir, searchRoot, groupDn, i, searchedGroups, marked);
        VisitShrinks(dir, searchRoot, groupDn, i, searchedGroups, inner.searchedGroups);
        TraverseCloses(dir, searchRoot, subGroup.dn, marked, searchedUsers);
        TraverseSubgroupsClose(dir, searchRoot, groupDn, i + 1, inner.searchedGroups, inner.searchedUsers);
        VisitCloses(dir, searchRoot, groupDn, i, searchedGroups, searchedUsers);
      }
    }
  }

  /** The step of `TraverseSubgroupsClose` that skips a subgroup whose key is already there. */
  lemma SkipCloses(dir: Directory, searchRoot: string, groupDn: string, i: nat, searchedGroups: seq<string>, searchedUsers: seq<string>)
    requires i < |GetMembers(dir, searchRoot, groupDn, Group)|
    requires Upper(GetMembers(dir, searchRoot, groupDn, Group)[i].name) in searchedGroups
    requires SubgroupsClosed(dir, searchRoot, groupDn, i + 1, searchedGroups, searchedUsers)
    ensures SubgroupsClosed(dir, searchRoot, groupDn, i, searchedGroups, searchedUsers)
  {
    var rest := TraverseSubgroups(dir, searchRoot, groupDn, i + 1, searchedGroups, searchedUsers);
    PrefixElems(searchedGroups, rest.searchedGroups);
    assert Upper(GetMembers(dir, searchRoot, groupDn, Group)[i].name) in rest.searchedGroups;
    assert TraverseSubgroups(dir, searchRoot, groupDn, i, searchedGroups, searchedUsers) == rest;
  }

  /** The step of `TraverseSubgroupsClose` that traverses a subgroup whose key is new. */
  lemma VisitCloses(dir: Directory, searchRoot: string, groupDn: string, i: nat, searchedGroups: seq<string>, searchedUsers: seq<string>)
    requires UniqueGroupNames(dir, searchRoot)
    requires i < |GetMembers(dir, searchRoot, groupDn, Group)|
    requires Upper(GetMembers(dir, searchRoot, groupDn, Group)[i].name) !in searchedGroups
    requires var subGroup := GetMembers(dir, searchRoot, groupDn, Group)[i];
      var marked := searchedGroups + [Upper(subGroup.name)];
      var inner := Traverse(dir, searchRoot, subGroup.dn, marked, searchedUsers);
      var rest := TraverseSubgroups(dir, searchRoot, groupDn, i + 1, inner.searchedGroups, inner.searchedUsers);
      && Closed(dir, searchRoot, subGroup.dn, inner.searchedGroups, inner.searchedUsers)
      && AddedClosed(dir, searchRoot, marked, inner.searchedGroups, inner.searchedUsers)
      && SubgroupsClosed(dir, searchRoot, groupDn, i + 1, inner.searchedGroups, inner.searchedUsers)
    ensures SubgroupsClosed(dir, searchRoot, groupDn, i, searchedGroups, searchedUsers)
  {
    var subGroup := GetMembers(dir, searchRoot, groupDn, Group)[i];
    var subGroupName := Upper(subGroup.name);
    var marked := searchedGroups + [subGroupName];
    var inner := Traverse(dir, searchRoot, subGroup.dn, marked, searchedUsers);
    var rest := TraverseSubgroups(dir, searchRoot, groupDn, i + 1, inner.searchedGroups, inner.searchedUsers);
    PrefixElems(marked, inner.searchedGroups);
    PrefixElems(inner.searchedGroups, rest.searchedGroups);
    assert subGroupName in Elems(marked);
    assert subGroupName in rest.searchedGroups;
    AddedClosedAfterVisit(dir, searchRoot, groupDn, subGroup, searchedGroups, inner.searchedGroups, inner.searchedUsers,
      rest.searchedGroups, rest.searchedUsers);
    assert TraverseSubgroups(dir, searchRoot, groupDn, i, searchedGroups, searchedUsers).searchedGroups == rest.searchedGroups;
    assert TraverseSubgroups(dir, searchRoot, groupDn, i, searchedGroups, searchedUsers).searchedUsers == rest.searchedUsers;
  }

  /** The step of `TraverseSubgroupsClose` that visits one new subgroup. */
  lemma AddedClosedAfterVisit(dir: Directory, searchRoot: string, groupDn: string, subGroup: Entry, before: seq<string>,
                              innerGroups: seq<string>, innerUsers: seq<string>, groups: seq<string>, users: seq<string>)
    requires UniqueGroupNames(dir, searchRoot)
    requires subGroup in GetMembers(dir, searchRoot, groupDn, Group)
    requires before + [Upper(subGroup.name)] <= innerGroups <= groups && innerUsers <= users
    requires Closed(dir, searchRoot, subGroup.dn, innerGroups, innerUsers)
    requires AddedClosed(dir, searchRoot, before + [Upper(subGroup.name)], innerGroups, innerUsers)
    requires AddedClosed(dir, searchRoot, innerGroups, groups, users)
    ensures AddedClosed(dir, searchRoot, before, groups, users)
  {
    forall p, e | e in GetMembers(dir, searchRoot, p, Group) && Upper(e.name) in groups && Upper(e.name) !in before
      ensures Closed(dir, searchRoot, e.dn, groups, users)
    {
      if Upper(e.name) in innerGroups {
        if Upper(e.name) == Upper(subGroup.name) {
          assert e.dn == subGroup.dn;
        } else {
          assert Upper(e.name) !in before + [Upper(subGroup.name)];
        }
        ClosedGrows(dir, searchRoot, e.dn, innerGroups, innerUsers, groups, users);
      }
    }
  }

  /** From a closed group, with every added group closed, everything reachable is closed. */
  lemma {:induction false} ClosedAlongPath(dir: Directory, searchRoot: string, from: string, to: string, n: nat, searchedGroups: seq<string>, searchedUsers: seq<string>)
    requires Closed(dir, searchRoot, from, searchedGroups, searchedUsers) && AddedClosed(dir, searchRoot, [], searchedGroups, searchedUsers)
    requires ReachesIn(dir, searchRoot, from, to, n)
    ensures Closed(dir, searchRoot, to, searchedGroups, searchedUsers)
    decreases n
  {
    if n > 0 {
      var e :| e in GetMembers(dir, searchRoot, from, Group) && ReachesIn(dir, searchRoot, e.dn, to, n - 1);
      assert Upper(e.name) in searchedGroups;
      ClosedAlongPath(dir, searchRoot, e.dn, to, n - 1, searchedGroups, searchedUsers);
    }
  }

  /**
   * When group names are unique, the resolver misses nobody: every direct
   * user of every group reachable from the root has its key among the keys
   * of the users yielded.
   */
  lemma ResolveComplete(dir: Directory, searchRoot: string, groupDn: string, d: string, u: Entry)
    requires UniqueGroupNames(dir, searchRoot)
    requires Reaches(dir, searchRoot, groupDn, d) && u in GetMembers(dir, searchRoot, d, User)
    ensures Upper(u.name) in Keys(Resolve(dir, searchRoot, groupDn))
  {
    var r := Traverse(dir, searchRoot, groupDn, [], []);
    TraverseCloses(dir, searchRoot, groupDn, [], []);
    var n: nat :| ReachesIn(dir, searchRoot, groupDn, d, n);
    ClosedAlongPath(dir, searchRoot, groupDn, d, n, r.searchedGroups, r.searchedUsers);
    assert r.searchedUsers == Keys(r.yielded);
  }
}
