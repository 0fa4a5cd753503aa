# Recursive and chained group-membership resolution, in Dafny

This project models the group-membership resolvers of `FindAllUsersFromSubAndGroups/Program.cs`.
They find every user account that belongs to an Active Directory group, directly or through
nested subgroups.

- **The recursive resolver** (`GetUsersRecursively`, both overloads). It walks the "member of"
  graph depth first. At each group it first handles the immediate subgroups, recursing into
  each one whose upper-cased `sAMAccountName` is not yet in `searchedGroups`. Then it yields
  the group's immediate users whose upper-cased name is not yet in `searchedUsers`. The two
  visited lists are created once per call and shared by reference with every nested traversal.
- **The membership query** (`GetMembers`). Its filter is `(&(objectClass=<class>)(memberOf=<group DN>))`.
- **The chained-filter resolver** (`GetUsersByFilteringThroughChainedObjects`). It checks that
  the entry is a group. It takes the group's relative identifier (RID) from its SID string with
  the regular expression `.*-(\d+)`, formats a filter that uses LDAP_MATCHING_RULE_IN_CHAIN
  (OID 1.2.840.113556.1.4.1941, section 3.1.1.3.4.4.3 of [MS-ADTS]), and searches.

The directory is a finite answer table, `Directory(results: map<(string, string), seq<Entry>>)`.
For each search root, named by its distinguished name, and each LDAP filter, it gives the entries
`FindAll` returns for a subtree search under that root. The entries are already sorted, as
(`sAMAccountName`, `distinguishedName`) pairs. A query not in the table matches nothing.
`GetMembers(dir, searchRoot, dn, cls)` is the search for `MembersFilter(cls, dn)` under the
caller's `searchRoot`, and the recursive resolver passes the same root to every call. The chained
resolver's searcher is built on the group entry itself, so it searches under the group's own DN.

Modules, one per component:

- `Collections`, `Text`: sequence helpers, and the ASCII model of `ToUpperInvariant`.
- `Directory`: entries, the answer table, `GetMembers` and its filter.
- `Traversal`: the recursive resolver as functions. `Traverse` threads the two visited lists
  and records the yielded users and the groups whose traversal started.
- `TraversalProperties`: what the resolver guarantees (see below).
- `RecursiveResolver`: the resolver as the program runs it. A `KeyList` class stands for each
  shared `ICollection<string>`. `GetUsersRecursivelyFrom` is proved to yield, and to leave in
  the lists, exactly what `Traverse` says.
- `Sid`: the RID extraction, and the string form of a SID (section 2.4.2.1 of [MS-DTYP]).
- `ChainedResolver`: the class guard, the formatted group filter and the filter actually searched.
- `Scenarios`: a membership cycle, an empty group, and two names that differ only in case.

Two behaviours of the code that may look unintended are modelled as written:

- The searcher filter of the chained resolver is a hard-coded literal
  (`FindAllUsersFromSubAndGroups/Program.cs:102-103`). It names one fixed group and has no
  `primaryGroupID` clause. The filter formatted from the entry's DN and RID (line 99) is computed
  and never used. So the group reaches the search only as its search root (line 88); its SID, and
  the RID taken from it, do not (`ChainedResolver.ChainedResultIgnoresSid`). A user who belongs
  to the group only through `primaryGroupID` is found only if the directory's answer to the literal
  filter, under that root, contains them.
- The walk starts with both lists empty (`FindAllUsersFromSubAndGroups/Program.cs:125-127`), so
  the root group's key is not in `searchedGroups` when it begins. It is added only when a subgroup
  query returns the root, and the root is then traversed a second time (`Scenarios.CycleScenario`).
  No user is yielded twice all the same.

## Model

| member | source | states |
|---|---|---|
| `Directory.MembersFilter` | FindAllUsersFromSubAndGroups/Program.cs:166 | the filter `GetMembers` builds from a class and a group DN; it reads back to exactly them (`Directory.ParseMembersFilterRoundTrip`) and distinct pairs give distinct filters (`Directory.MembersFilterInjective`) |
| `Directory.GetMembers` | FindAllUsersFromSubAndGroups/Program.cs:162-180 | the directory's answer, in its order, to that filter in a search under the given root; every subgroup it returns has its key in `GroupKeys` (`Directory.MemberKeyInGroupKeys`) |
| `Directory.ParseMembersFilterRoundTrip` | FindAllUsersFromSubAndGroups/Program.cs:166 | the `GetMembers` filter `(&(objectClass=<class>)(memberOf=<dn>))` can be read back to exactly the class and group it was built from |
| `Directory.MembersFilterInjective` | FindAllUsersFromSubAndGroups/Program.cs:162-166 | different (class, group) pairs are different searches, so a group's subgroup query and user query are answered separately |
| `Traversal.EmitUsers` | FindAllUsersFromSubAndGroups/Program.cs:150-159 | the user loop: `searchedUsers` grows by exactly the keys of the users yielded, in the order they are yielded |
| `Traversal.Traverse` | FindAllUsersFromSubAndGroups/Program.cs:130-160 | one traversal only appends to `searchedGroups` (the old list is a prefix of the new); `searchedUsers` grows by exactly the keys it yields; it starts one traversal more than the group keys it adds |
| `Traversal.TraverseSubgroups` | FindAllUsersFromSubAndGroups/Program.cs:136-149 | the subgroup loop: it only appends to `searchedGroups`; `searchedUsers` grows by exactly the keys it yields; it starts exactly as many traversals as the group keys it adds |
| `Traversal.Resolve` | FindAllUsersFromSubAndGroups/Program.cs:123-128 | the public traversal, begun with both visited lists empty; what it yields is duplicate-free by key (`TraversalProperties.ResolveNoDuplicates`), sound (`TraversalProperties.ResolveSound`) and, with unique group names, complete (`TraversalProperties.ResolveComplete`) |
| `TraversalProperties.EmitUsersKeepsOrder` | FindAllUsersFromSubAndGroups/Program.cs:150-158 | the users yielded from one batch are a subsequence of the batch, in the directory's order |
| `TraversalProperties.EmitUsersRemembersBatch` | FindAllUsersFromSubAndGroups/Program.cs:150-157 | after a batch of users, the key of every user in it is in `searchedUsers`, yielded or skipped |
| `TraversalProperties.EmitUsersNoDuplicates` | FindAllUsersFromSubAndGroups/Program.cs:152-157 | a `searchedUsers` list without duplicates stays without duplicates |
| `TraversalProperties.FirstNewUsersKeys` | FindAllUsersFromSubAndGroups/Program.cs:150-157 | the keys of the users selected among the first n of a batch are exactly the keys among them that were not searched before |
| `TraversalProperties.EmitUsersAfterPrefix` | FindAllUsersFromSubAndGroups/Program.cs:150-158 | after the first k users of a batch, the walk has yielded exactly the users selected among them and remembered their keys |
| `TraversalProperties.EmitUsersFirstOccurrences` | FindAllUsersFromSubAndGroups/Program.cs:150-158 | the walk yields, in batch order, exactly each user that is the first in the batch with its key and whose key was not searched before; of several users with the same key only the first reached is yielded |
| `TraversalProperties.TraverseVisited` | FindAllUsersFromSubAndGroups/Program.cs:136-158 | neither visited list ever holds a key twice; every group key added is the key of a group that a subgroup query under the search root returned |
| `TraversalProperties.TraverseSubgroupsVisited` | FindAllUsersFromSubAndGroups/Program.cs:136-149 | the same for the subgroup loop |
| `TraversalProperties.TraversalBound` | FindAllUsersFromSubAndGroups/Program.cs:125-145 | even on a cyclic graph, one call starts at most one traversal per distinct group key that subgroup queries under the search root return, plus the root |
| `TraversalProperties.ResolveNoDuplicates` | FindAllUsersFromSubAndGroups/Program.cs:123-160 | no upper-cased name occurs twice among the users yielded; no two of them have names equal ignoring case |
| `TraversalProperties.TraverseSound` | FindAllUsersFromSubAndGroups/Program.cs:136-159 | every user yielded is a direct user of the group or of a group reachable from it by subgroup edges; every group traversed is reachable |
| `TraversalProperties.TraverseSubgroupsSound` | FindAllUsersFromSubAndGroups/Program.cs:136-149 | what the subgroup loop yields and traverses lies below one of the immediate subgroups |
| `TraversalProperties.ResolveSound` | FindAllUsersFromSubAndGroups/Program.cs:123-128 | every user the public resolver yields belongs to the root group or to a group nested in it |
| `TraversalProperties.DirectUsersComeLast` | FindAllUsersFromSubAndGroups/Program.cs:136-159 | a traversal's output is users found below its subgroups, followed by its own direct users as a subsequence of the directory's batch |
| `TraversalProperties.TraverseCloses` | FindAllUsersFromSubAndGroups/Program.cs:136-159 | with unique group names, a finished traversal has put the keys of all of the group's subgroups and users into the lists, and so has every group whose key it added |
| `TraversalProperties.TraverseSubgroupsClose` | FindAllUsersFromSubAndGroups/Program.cs:136-149 | the subgroup loop puts every remaining subgroup key into `searchedGroups`, and every group it added is closed |
| `TraversalProperties.ResolveComplete` | FindAllUsersFromSubAndGroups/Program.cs:123-160 | with unique group names, every direct user of every group reachable from the root has its key among the keys of the users yielded |
| `RecursiveResolver.KeyList.constructor` | FindAllUsersFromSubAndGroups/Program.cs:125-126 | each visited list starts empty |
| `RecursiveResolver.KeyList.Add` | FindAllUsersFromSubAndGroups/Program.cs:143 | `Add` appends the key and changes nothing else |
| `RecursiveResolver.GetUsersRecursivelyFrom` | FindAllUsersFromSubAndGroups/Program.cs:130-160 | the in-place traversal with the shared lists yields, and leaves in both lists, exactly what `Traverse` gives for the lists it was handed |
| `RecursiveResolver.YieldNewUsers` | FindAllUsersFromSubAndGroups/Program.cs:150-159 | the in-place user loop yields, and leaves in `searchedUsers`, exactly what `EmitUsers` gives for the list it was handed |
| `RecursiveResolver.GetUsersRecursively` | FindAllUsersFromSubAndGroups/Program.cs:123-128 | the public resolver yields exactly `Resolve`, never two users with the same case-insensitive name, and only users of the group or of groups nested in it |
| `Text.Upper` | FindAllUsersFromSubAndGroups/Program.cs:138 | the key of a name (`ToUpperInvariant`, also at line 152): same length, each character upper-cased; two names share a key exactly when they are equal ignoring case (`Text.UpperEqualIffEqualsIgnoreCase`) |
| `Text.UpperChar` | FindAllUsersFromSubAndGroups/Program.cs:138 | upper-casing leaves no lower-case ASCII letter, changes nothing else, and maps each letter to its capital |
| `Text.UpperEqualIffEqualsIgnoreCase` | FindAllUsersFromSubAndGroups/Program.cs:138 | two names get the same key exactly when they are equal ignoring ASCII case |
| `Text.AliceKey` | FindAllUsersFromSubAndGroups/Program.cs:152 | "Alice" and "ALICE" share the key "ALICE" |
| `Sid.LastDashDigit` | FindAllUsersFromSubAndGroups/Program.cs:95-96 | finds the last '-' followed by a digit, or reports that there is none: where the greedy `.*-` settles |
| `Sid.DigitRun` | FindAllUsersFromSubAndGroups/Program.cs:95-96 | the longest run of digits at the start: what the greedy `(\d+)` captures |
| `Sid.Rid` | FindAllUsersFromSubAndGroups/Program.cs:95-97 | the captured RID is all digits; it is empty exactly when no '-' is followed by a digit |
| `Sid.RidOfTrailingDigits` | FindAllUsersFromSubAndGroups/Program.cs:95-97 | whatever precedes it, a trailing "-" and digits is exactly the RID |
| `Sid.DecimalRoundTrip` | FindAllUsersFromSubAndGroups/Program.cs:94 | the decimal digits of a SID component read back to the number |
| `Sid.RidOfSidString` | FindAllUsersFromSubAndGroups/Program.cs:94-97 | for a SID string "S-1-a-s1-...-sn" with components below 2^32, the RID is the digits of sn (of a when there are no sub-authorities) and denotes that number |
| `ChainedResolver.PrepareSearch` | FindAllUsersFromSubAndGroups/Program.cs:91-103 | a search is prepared exactly for entries whose class is "group"; its filter is the literal; its RID is the one the regex takes from the entry's SID string (`Sid.Rid`), all digits; the group filter is formatted from the DN and that RID and reads back to them |
| `ChainedResolver.GetUsersByFilteringThroughChainedObjects` | FindAllUsersFromSubAndGroups/Program.cs:86-121 | a non-group yields nothing; a group yields the directory's answer to the literal filter in a search rooted at the group entry |
| `ChainedResolver.ChainedResultIgnoresSid` | FindAllUsersFromSubAndGroups/Program.cs:88-103 | two group entries with the same DN get the same users whatever their SIDs: the RID and the formatted filter never reach the search |
| `ChainedResolver.SearcherFilterIsNotGroupFilter` | FindAllUsersFromSubAndGroups/Program.cs:99-103 | the filter searched is never the formatted group filter, whatever the group |
| `ChainedResolver.GroupFilter` | FindAllUsersFromSubAndGroups/Program.cs:99-100 | the formatted filter for nested members of a DN or users whose primary group has a RID; it reads back to exactly them (`ChainedResolver.GroupFilterRoundTrip`) |
| `ChainedResolver.GroupFilterRoundTrip` | FindAllUsersFromSubAndGroups/Program.cs:99-100 | the formatted filter can be read back to exactly its group DN and RID |
| `Scenarios.SecondTraversalOfG1` | FindAllUsersFromSubAndGroups/Program.cs:136-159 | in the cycle, G1 entered again with both group keys searched skips its subgroup and yields only U2 |
| `Scenarios.TraversalOfG2` | FindAllUsersFromSubAndGroups/Program.cs:136-159 | in the cycle, G2 entered from G1 traverses G1 again, then yields U1 |
| `Scenarios.CycleScenario` | FindAllUsersFromSubAndGroups/Program.cs:125-159 | G1 has subgroup G2 and user U2, G2 has subgroup G1 and user U1: the result is exactly [U2, U1], and G1 is traversed twice |
| `Scenarios.CaseInsensitiveBatch` | FindAllUsersFromSubAndGroups/Program.cs:150-158 | of "Alice" and "ALICE" in one batch only the first is yielded |
| `Scenarios.EmptyGroupYieldsNothing` | FindAllUsersFromSubAndGroups/Program.cs:136-159 | a group without subgroups or users yields nothing and adds no key |

## Left out

- `Main` (`FindAllUsersFromSubAndGroups/Program.cs:18-52`) is left out: console output, the `Stopwatch`,
  floating-point timing and the `TotalUsers` counter are I/O and reporting.
- `GetAllUsersBySam` (lines 59-79) is left out. It delegates to `System.DirectoryServices.AccountManagement`,
  whose recursive `GetMembers(true)` is not part of this model.
- `DirectorySearcher` mechanics are left out: paging, `SizeLimit`, server-side sorting, the attribute
  projection and disposal. Each search is the table's complete, already sorted answer for its search
  root and filter. `objectGUID` is not modelled, since no resolver reads it.
- Directory failures (no connection, a rejected filter, a failed page) are left out. The table always answers.
- The laziness of `yield return` is left out. Each resolver produces its whole output, which is what a
  caller that drains the sequence sees.
- The `SecurityIdentifier` built from the `objectSid` bytes (line 94) is left out. The SID string is an input.
- `Sid.SidString`: an identifier authority of 2^32 or more, which the string form writes in hexadecimal, is not
  modelled; the authority and the sub-authorities are taken below 2^32.
- `Text.Upper`: `ToUpperInvariant` is modelled on ASCII letters only; other Unicode case mappings are not.
- `Sid.Rid`: `\d` is read as the ASCII digits 0-9; .NET also counts other Unicode decimal digits. The
  regular-expression engine itself is not modelled, only the match `.*-(\d+)` produces.
- `TraversalProperties.ResolveComplete` assumes that the upper-cased `sAMAccountName` determines a group's
  DN. Without that, the key-based guard can skip a different group with the same name. It states key
  membership, not which entry of equal key was yielded.
- The check that the entry passed to `GetUsersRecursively` is a group is not modelled, since the code makes none.
