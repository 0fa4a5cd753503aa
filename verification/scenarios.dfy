/** Concrete directories on which the resolver's behaviour is worked out. */
module Scenarios {
  import opened Text
  import opened Directory
  import opened Traversal

  /** A name without lower-case letters is its own key. */
  lemma UpperOfCapitals(s: string)
    requires forall i :: 0 <= i < |s| ==> !IsLower(s[i])
    ensures Upper(s) == s
  {
  }

  const G1 := Entry("G1", "CN=G1")
  const G2 := Entry("G2", "CN=G2")
  const U1 := Entry("U1", "CN=U1")
  const U2 := Entry("U2", "CN=U2")

  /** The search root the scenarios search under. */
  const ROOT := "DC=example,DC=com"

  /** Under ROOT, G1 has subgroup G2 and user U2; G2 has subgroup G1 (a cycle) and user U1. */
  function CycleDirectory(): Directory {
    Directory(map[
      (ROOT, MembersFilter(Group, G1.dn)) := [G2],
      (ROOT, MembersFilter(User, G1.dn)) := [U2],
      (ROOT, MembersFilter(Group, G2.dn)) := [G1],
      (ROOT, MembersFilter(User, G2.dn)) := [U1]])
  }

  lemma CycleMembers()
    ensures GetMembers(CycleDirectory(), ROOT, G1.dn, Group) == [G2]
    ensures GetMembers(CycleDirectory(), ROOT, G1.dn, User) == [U2]
    ensures GetMembers(CycleDirectory(), ROOT, G2.dn, Group) == [G1]
    ensures GetMembers(CycleDirectory(), ROOT, G2.dn, User) == [U1]
  {
    var cs := [Group, User];
    var ds := [G1.dn, G2.dn];
    forall c1, d1, c2, d2 | c1 in cs && d1 in ds && c2 in cs && d2 in ds && (c1, d1) != (c2, d2)
      ensures MembersFilter(c1, d1) != MembersFilter(c2, d2)
    {
      if MembersFilter(c1, d1) == MembersFilter(c2, d2) {
        MembersFilterInjective(c1, d1, c2, d2);
      }
    }
  }

  /** The capitals used as names are their own keys. */
  lemma CycleKeys()
    ensures Upper("G1") == "G1" && Upper("G2") == "G2" && Upper("U1") == "U1" && Upper("U2") == "U2"
  {
    UpperOfCapitals("G1");
    UpperOfCapitals("G2");
    UpperOfCapitals("U1");
    UpperOfCapitals("U2");
  }

  /** G1 entered again from G2, with both groups searched: only its user U2. */
  lemma SecondTraversalOfG1()
    ensures Traverse(CycleDirectory(), ROOT, G1.dn, ["G2", "G1"], []) == Progress([U2], ["G2", "G1"], ["U2"], [G1.dn])
  {
    var dir := CycleDirectory();
    CycleMembers();
    CycleKeys();
    assert TraverseSubgroups(dir, ROOT, G1.dn, 1, ["G2", "G1"], []) == Progress([], ["G2", "G1"], [], []);
    assert TraverseSubgroups(dir, ROOT, G1.dn, 0, ["G2", "G1"], []) == Progress([], ["G2", "G1"], [], []);
    assert EmitUsers([U2], []) == Emitted([U2], ["U2"]);
  }

  /** G2 entered from G1: the second traversal of G1, then U1. */
  lemma TraversalOfG2()
    ensures Traverse(CycleDirectory(), ROOT, G2.dn, ["G2"], []) == Progress([U2, U1], ["G2", "G1"], ["U2", "U1"], [G2.dn, G1.dn])
  {
    var dir := CycleDirectory();
    CycleMembers();
    CycleKeys();
    SecondTraversalOfG1();
    assert ["G2"] + ["G1"] == ["G2", "G1"];
    assert TraverseSubgroups(dir, ROOT, G2.dn, 1, ["G2", "G1"], ["U2"]) == Progress([], ["G2", "G1"], ["U2"], []);
    assert TraverseSubgroups(dir, ROOT, G2.dn, 0, ["G2"], []) == Progress([U2], ["G2", "G1"], ["U2"], [G1.dn]);
    assert EmitUsers([U1], ["U2"]) == Emitted([U1], ["U2", "U1"]);
  }

  /**
   * The root is not marked as searched at the start, so the cycle G1, G2, G1 traverses G1
   * a second time; U2 is yielded there, U1 after it, and U2 is not yielded
   * again when the first traversal of G1 reaches its own users.
   */
  lemma CycleScenario()
    ensures Traverse(CycleDirectory(), ROOT, G1.dn, [], [])
      == Progress([U2, U1], ["G2", "G1"], ["U2", "U1"], [G1.dn, G2.dn, G1.dn])
  {
    var dir := CycleDirectory();
    CycleMembers();
    CycleKeys();
    TraversalOfG2();
    assert [] + ["G2"] == ["G2"];
    assert TraverseSubgroups(dir, ROOT, G1.dn, 1, ["G2", "G1"], ["U2", "U1"]) == Progress([], ["G2", "G1"], ["U2", "U1"], []);
    assert TraverseSubgroups(dir, ROOT, G1.dn, 0, [], []) == Progress([U2, U1], ["G2", "G1"], ["U2", "U1"], [G2.dn, G1.dn]);
    assert EmitUsers([U2], ["U2", "U1"]) == Emitted([], ["U2", "U1"]);
  }

  /** Two accounts whose names differ only in case: only the first is yielded. */
  lemma CaseInsensitiveBatch()
    ensures EmitUsers([Entry("Alice", "CN=Alice"), Entry("ALICE", "CN=ALICE")], [])
      == Emitted([Entry("Alice", "CN=Alice")], ["ALICE"])
  {
    AliceKey();
    var batch := [Entry("Alice", "CN=Alice"), Entry("ALICE", "CN=ALICE")];
    assert batch[1..][1..] == [];
  }

  /** A group with no subgroups and no users yields nothing and searches no group. */
  lemma EmptyGroupYieldsNothing(dir: Directory, searchRoot: string, groupDn: string)
    requires GetMembers(dir, searchRoot, groupDn, Group) == [] && GetMembers(dir, searchRoot, groupDn, User) == []
    ensures Traverse(dir, searchRoot, groupDn, [], []) == Progress([], [], [], [groupDn])
  {
  }
}
