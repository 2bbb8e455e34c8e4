/** The queries of `MemberService` over the member collection. */
module MemberService {
  import opened Wrappers
  import opened Sequences
  import opened Text
  import opened MemberModel

  /** `GetById`: `Find(member => member.Id == id).FirstOrDefault()`. */
  function GetById(ms: seq<Member>, id: string): (r: Option<Member>)
    ensures r.None? <==> forall i :: 0 <= i < |ms| ==> ms[i].id != Some(id)
    ensures r.Some? ==> r.value in ms && r.value.id == Some(id)
  {
    FindFirst(ms, KeyIs(Key, id))
  }

  /** The `GetByName` filter: a case-insensitive substring of either name; a null name never
      matches on the server. */
  predicate NameMatches(m: Member, name: string) {
    || (m.firstname.Some? && ContainsIgnoreCase(m.firstname.value, name))
    || (m.lastname.Some? && ContainsIgnoreCase(m.lastname.value, name))
  }

  /** `GetByName`: the members whose first or last name contains `name`, ignoring case. */
  function GetByName(ms: seq<Member>, name: string): (r: seq<Member>)
    ensures forall m :: m in r <==> m in ms && NameMatches(m, name)
  {
    Filter(ms, m => NameMatches(m, name))
  }

  /** A name search returns members of the collection in store order: searching the
      concatenation of two collections concatenates the results. */
  lemma GetByNameKeepsStoreOrder(a: seq<Member>, b: seq<Member>, name: string)
    ensures GetByName(a + b, name) == GetByName(a, name) + GetByName(b, name)
  {
    FilterAppend(a, b, m => NameMatches(m, name));
  }

  /** The empty query returns every member that has a name; searching for a member's own first
      name finds it. */
  lemma GetByNameFindsOwnName(ms: seq<Member>, k: int)
    requires 0 <= k < |ms| && ms[k].firstname.Some?
    ensures ms[k] in GetByName(ms, "")
    ensures ms[k] in GetByName(ms, ms[k].firstname.value)
  {
    SearchMatchesEmptyAndSelf(ms[k].firstname.value);
  }

  /** In a collection with unique ids, `GetById` returns the one member carrying the id. */
  lemma GetByIdFindsStored(ms: seq<Member>, k: int)
    requires KeysUnique(ms, Key) && 0 <= k < |ms|
    ensures GetById(ms, ms[k].id.value) == Some(ms[k])
  {
    FindByUniqueKey(ms, Key, k);
  }
}
