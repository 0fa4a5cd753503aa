/**
 * The server-assisted resolver: one search whose filter asks the directory
 * for the transitive closure of group membership, through the matching rule
 * LDAP_MATCHING_RULE_IN_CHAIN (section 3.1.1.3.4.4.3 of [MS-ADTS]).
 */
module ChainedResolver {
  import opened Collections
  import opened Text
  import opened Directory
  import opened Sid

  /** The properties of the `DirectoryEntry` the resolver reads. */
  datatype DirectoryObject = DirectoryObject(schemaClassName: string, dn: string, sid: string)

  /** The object identifier of LDAP_MATCHING_RULE_IN_CHAIN. */
  const IN_CHAIN_RULE := "1.2.840.113556.1.4.1941"

  const GROUP_FILTER_PREFIX := "(|(memberOf:" + IN_CHAIN_RULE + ":="
  const RID_MARKER := ")(primaryGroupID="

  /** The formatted filter: nested members of `groupDn` or users whose primary group has RID `groupRid`. */
  function GroupFilter(groupDn: string, groupRid: string): string {
    GROUP_FILTER_PREFIX + groupDn + RID_MARKER + groupRid + "))"
  }

  /** The group named inside the literal searcher filter. */
  const LITERAL_GROUP_DN := "CN=1000PlusTest,OU=Groups,DC=domain,DC=com"

  /**
   * The filter the searcher is actually given: a fixed literal (written as
   * pieces only so that its parts have names; the characters are the
   * literal's): nested members of LITERAL_GROUP_DN that are users and not
   * computers. It has no primary-group clause.
   */
  const SEARCHER_FILTER := "(&(" + "(|(memberOf:" + IN_CHAIN_RULE + ":=" + LITERAL_GROUP_DN + ")))"
    + "((|(&(objectClass=user)(!(objectClass=computer))))))"

  /** What the resolver computes before it searches. */
  datatype ChainedSearch = ChainedSearch(groupRid: string, groupFilter: string, filter: string)

  /**
   * Only a group is searched for. Its RID and the formatted group filter are
   * computed, but the searcher gets the literal filter.
   */
  function PrepareSearch(entry: DirectoryObject): (q: Option<ChainedSearch>)
    ensures q.Some? <==> entry.schemaClassName == "group"
    ensures q.Some? ==> q.value.filter == SEARCHER_FILTER
    ensures q.Some? ==> q.value.groupRid == Rid(entry.sid)
    ensures q.Some? ==> IsDigits(q.value.groupRid) && ParseGroupFilter(q.value.groupFilter) == Some((entry.dn, q.value.groupRid))
  {
    if entry.schemaClassName != "group" then None
    else
      var groupRid := Rid(entry.sid);
      var groupFilter := GroupFilter(entry.dn, groupRid);
      GroupFilterRoundTrip(entry.dn, groupRid);
      Some(ChainedSearch(groupRid, groupFilter, SEARCHER_FILTER))
  }

  /**
   * The users the resolver yields: nothing for a non-group, else the answer
   * to the literal filter in a search rooted at the group entry itself.
   */
  function GetUsersByFilteringThroughChainedObjects(dir: Directory, entry: DirectoryObject): (users: seq<Entry>)
    ensures entry.schemaClassName != "group" ==> users == []
    ensures entry.schemaClassName == "group" ==> users == Search(dir, entry.dn, SEARCHER_FILTER)
  {
    match PrepareSearch(entry)
    case None => []
    case Some(q) => Search(dir, entry.dn, q.filter)
  }

  /**
   * Two group entries with the same distinguished name get the same users,
   * whatever their SIDs: the RID and the filter formatted from it never reach
   * the search.
   */
  lemma ChainedResultIgnoresSid(dir: Directory, a: DirectoryObject, b: DirectoryObject)
    requires a.schemaClassName == "group" && b.schemaClassName == "group" && a.dn == b.dn
    ensures GetUsersByFilteringThroughChainedObjects(dir, a) == GetUsersByFilteringThroughChainedObjects(dir, b)
  {
  }

  /** The literal filter is never the formatted group filter, whatever the group. */
  lemma SearcherFilterIsNotGroupFilter(groupDn: string, groupRid: string)
    ensures SEARCHER_FILTER != GroupFilter(groupDn, groupRid)
  {
    assert GroupFilter(groupDn, groupRid)[1] == GROUP_FILTER_PREFIX[1] == '|';
    assert SEARCHER_FILTER[1] == '&';
  }

  /** Where the run of digits that ends at `k` begins. */
  function DigitsStart(s: string, k: nat): (j: nat)
    requires k <= |s|
    ensures j <= k
    ensures forall i :: j <= i < k ==> IsDigit(s[i])
    ensures j > 0 ==> !IsDigit(s[j - 1])
  {
    if k == 0 || !IsDigit(s[k - 1]) then k else DigitsStart(s, k - 1)
  }

  /** The longest run of digits at the end of `s`. */
  function TrailingDigits(s: string): string {
    s[DigitsStart(s, |s|)..]
  }

  lemma TrailingDigitsAfterNonDigit(head: string, digits: string)
    requires head != [] && !IsDigit(head[|head| - 1]) && IsDigits(digits)
    ensures TrailingDigits(head + digits) == digits
  {
    var s := head + digits;
    var j := DigitsStart(s, |s|);
    assert s[|head| - 1] == head[|head| - 1];
    assert forall i :: |head| <= i < |s| ==> s[i] == digits[i - |head|];
    assert j == |head|;
    assert s[|head|..] == digits;
  }

  /** Reads the group DN and the RID back out of a formatted group filter. */
  function ParseGroupFilter(filter: string): Option<(string, string)> {
    if |filter| < |GROUP_FILTER_PREFIX| + 2 || !(GROUP_FILTER_PREFIX <= filter) || filter[|filter| - 2..] != "))" then None
    else
      var body := filter[|GROUP_FILTER_PREFIX|..|filter| - 2];
      var groupRid := TrailingDigits(body);
      var head := body[..|body| - |groupRid|];
      if |head| < |RID_MARKER| || head[|head| - |RID_MARKER|..] != RID_MARKER then None
      else Some((head[..|head| - |RID_MARKER|], groupRid))
  }

  /** The formatted filter is the prefix, then `groupDn`, the RID marker and the RID, then "))". */
  lemma GroupFilterParts(groupDn: string, groupRid: string)
    ensures var f := GroupFilter(groupDn, groupRid);
      && |f| >= |GROUP_FILTER_PREFIX| + 2 && GROUP_FILTER_PREFIX <= f && f[|f| - 2..] == "))"
      && f[|GROUP_FILTER_PREFIX|..|f| - 2] == groupDn + RID_MARKER + groupRid
  {
    var body := groupDn + RID_MARKER + groupRid;
    var f := GroupFilter(groupDn, groupRid);
    assert f == GROUP_FILTER_PREFIX + body + "))";
    assert f[|GROUP_FILTER_PREFIX|..|f| - 2] == body;
  }

  /** Behind the group's DN, the RID marker ends in a non-digit and can be cut off again. */
  lemma RidMarkerParts(groupDn: string)
    ensures var head := groupDn + RID_MARKER;
      && !IsDigit(head[|head| - 1])
      && |head| >= |RID_MARKER| && head[|head| - |RID_MARKER|..] == RID_MARKER
      && head[..|head| - |RID_MARKER|] == groupDn
  {
    var head := groupDn + RID_MARKER;
    assert head[|head| - 1] == '=';
  }

  /** A formatted group filter names its group and its RID unambiguously. */
  lemma GroupFilterRoundTrip(groupDn: string, groupRid: string)
    requires IsDigits(groupRid)
    ensures ParseGroupFilter(GroupFilter(groupDn, groupRid)) == Some((groupDn, groupRid))
  {
    var head := groupDn + RID_MARKER;
    var body := head + groupRid;
    GroupFilterParts(groupDn, groupRid);
    RidMarkerParts(groupDn);
    TrailingDigitsAfterNonDigit(head, groupRid);
    assert body[..|body| - |groupRid|] == head;
  }
}
