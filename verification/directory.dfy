/**
 * The directory as the resolvers see it: a searcher that, given a search
 * root and an LDAP filter, returns the matching entries already sorted by `sAMAccountName`
 * and projected to the attributes the resolvers read.
 */
module Directory {
  import opened Collections
  import opened Text

  /** A search result: its `sAMAccountName` and its `distinguishedName`. */
  datatype Entry = Entry(name: string, dn: string)

  /** The two object classes `GetMembers` is asked for. */
  datatype ObjectClass = Group | User

  function ClassName(cls: ObjectClass): string {
    match cls
    case Group => "group"
    case User => "user"
  }

  /**
   * The directory's finite answer table: the result of `FindAll` for a
   * searcher whose search root is the entry with distinguished name `base`
   * (subtree scope) and whose filter is `filter`, keyed by (base, filter);
   * a query that is not in the table matches nothing.
   */
  datatype Directory = Directory(results: map<(string, string), seq<Entry>>)

  function Search(dir: Directory, base: string, filter: string): seq<Entry> {
    if (base, filter) in dir.results then dir.results[(base, filter)] else []
  }

  /** The part of a `GetMembers` filter in front of the group's distinguished name. */
  function MembersPrefix(cls: ObjectClass): string {
    "(&(objectClass=" + ClassName(cls) + ")(memberOf="
  }

  /** The filter `GetMembers` gives its searcher. */
  function MembersFilter(cls: ObjectClass, groupDn: string): string {
    MembersPrefix(cls) + groupDn + "))"
  }

  /** The immediate members of `groupDn` that have object class `cls`, searched for under `searchRoot`. */
  function GetMembers(dir: Directory, searchRoot: string, groupDn: string, cls: ObjectClass): seq<Entry> {
    Search(dir, searchRoot, MembersFilter(cls, groupDn))
  }

  /** Reads the object class and group back out of a `GetMembers` filter. */
  function ParseMembersFilter(filter: string): Option<(ObjectClass, string)> {
    if |filter| < 2 || filter[|filter| - 2..] != "))" then None
    else
      var body := filter[..|filter| - 2];
      if MembersPrefix(Group) <= body then Some((Group, body[|MembersPrefix(Group)|..]))
      else if MembersPrefix(User) <= body then Some((User, body[|MembersPrefix(User)|..]))
      else None
  }

  /** A `GetMembers` filter names its object class and its group unambiguously. */
  lemma ParseMembersFilterRoundTrip(cls: ObjectClass, groupDn: string)
    ensures ParseMembersFilter(MembersFilter(cls, groupDn)) == Some((cls, groupDn))
  {
    var f := MembersFilter(cls, groupDn);
    var body := MembersPrefix(cls) + groupDn;
    assert f == body + "))";
    assert f[|f| - 2..] == "))";
    assert f[..|f| - 2] == body;
    assert body[|MembersPrefix(cls)|..] == groupDn;
    if cls == User {
      assert MembersPrefix(User)[15] == 'u';
      assert body[15] == 'u' != MembersPrefix(Group)[15];
    }
  }

  /** Different (class, group) pairs are different queries to the directory. */
  lemma MembersFilterInjective(c1: ObjectClass, d1: string, c2: ObjectClass, d2: string)
    requires MembersFilter(c1, d1) == MembersFilter(c2, d2)
    ensures c1 == c2 && d1 == d2
  {
    ParseMembersFilterRoundTrip(c1, d1);
    ParseMembersFilterRoundTrip(c2, d2);
  }

  /** The keys (upper-cased account names) of a sequence of entries. */
  function Keys(entries: seq<Entry>): seq<string> {
    seq(|entries|, i requires 0 <= i < |entries| => Upper(entries[i].name))
  }

  lemma KeysAppend(a: seq<Entry>, b: seq<Entry>)
    ensures Keys(a + b) == Keys(a) + Keys(b)
  {
    assert forall i :: 0 <= i < |a + b| ==> Keys(a + b)[i] == (Keys(a) + Keys(b))[i];
  }

  /** A query under `searchRoot` whose filter is a `GetMembers` filter for subgroups. */
  predicate IsGroupQuery(searchRoot: string, query: (string, string)) {
    query.0 == searchRoot && ParseMembersFilter(query.1).Some? && ParseMembersFilter(query.1).value.0 == Group
  }

  /** The key of every group that a subgroup query under `searchRoot` can return. */
  function GroupKeys(dir: Directory, searchRoot: string): set<string> {
    set query, e | query in dir.results && IsGroupQuery(searchRoot, query) && e in dir.results[query] :: Upper(e.name)
  }

  lemma MemberKeyInGroupKeys(dir: Directory, searchRoot: string, groupDn: string, e: Entry)
    requires e in GetMembers(dir, searchRoot, groupDn, Group)
    ensures Upper(e.name) in GroupKeys(dir, searchRoot)
  {
    var query := (searchRoot, MembersFilter(Group, groupDn));
    ParseMembersFilterRoundTrip(Group, groupDn);
    assert query in dir.results && IsGroupQuery(searchRoot, query) && e in dir.results[query];
  }
}
