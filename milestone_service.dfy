/** The queries of `MilestoneService` over the milestone collection, as the server evaluates
    their filters: a null field never matches a comparison or a text search. */
module MilestoneService {
  import opened Wrappers
  import opened Clock
  import opened Sequences
  import opened Text
  import opened Statuses
  import opened MilestoneModel
  import MemberService

  /** `GetById`: the first milestone with that id, or null. */
  function GetById(ms: seq<Milestone>, id: string): (r: Option<Milestone>)
    ensures r.None? <==> forall i :: 0 <= i < |ms| ==> ms[i].id != Some(id)
    ensures r.Some? ==> r.value in ms && r.value.id == Some(id)
  {
    FindFirst(ms, KeyIs(MilestoneModel.Key, id))
  }

  /** `GetByName`: a case-insensitive substring of the name. */
  function GetByName(ms: seq<Milestone>, name: string): (r: seq<Milestone>)
    ensures forall m :: m in r <==> m in ms && m.name.Some? && ContainsIgnoreCase(m.name.value, name)
  {
    Filter(ms, (m: Milestone) => m.name.Some? && ContainsIgnoreCase(m.name.value, name))
  }

  /** `GetByDescription`: a case-insensitive substring of the description. */
  function GetByDescription(ms: seq<Milestone>, description: string): (r: seq<Milestone>)
    ensures forall m :: m in r <==>
              m in ms && m.description.Some? && ContainsIgnoreCase(m.description.value, description)
  {
    Filter(ms, (m: Milestone) => m.description.Some? && ContainsIgnoreCase(m.description.value, description))
  }

  /** The `GetByProjectId` filter. */
  function ReferencesProject(id: string): (p: Milestone -> bool)
    ensures forall m :: p(m) <==> m.projectReference == Some(id)
  {
    (m: Milestone) => m.projectReference == Some(id)
  }

  /** `GetByProjectId`: the milestones that reference the project. */
  function GetByProjectId(ms: seq<Milestone>, id: string): (r: seq<Milestone>)
    ensures forall m :: m in r <==> m in ms && m.projectReference == Some(id)
  {
    Filter(ms, ReferencesProject(id))
  }

  /** The `ElemMatch` of `GetByMemberId`: some embedded member carries the id. */
  predicate HasMemberId(m: Milestone, id: string) {
    m.members.Some? && exists k :: 0 <= k < |m.members.value| && m.members.value[k].id == Some(id)
  }

  /** `GetByMemberId`: the milestones embedding a member with that id. */
  function GetByMemberId(ms: seq<Milestone>, id: string): (r: seq<Milestone>)
    ensures forall m :: m in r <==> m in ms && HasMemberId(m, id)
  {
    Filter(ms, (m: Milestone) => HasMemberId(m, id))
  }

  /** The `ElemMatch` of `GetByMemberName`: some embedded member's first or last name contains
      the query, ignoring case. */
  predicate HasMemberNamed(m: Milestone, name: string) {
    m.members.Some? &&
    exists k :: 0 <= k < |m.members.value| && MemberService.NameMatches(m.members.value[k], name)
  }

  /** `GetByMemberName`: the milestones embedding a member whose name matches. */
  function GetByMemberName(ms: seq<Milestone>, name: string): (r: seq<Milestone>)
    ensures forall m :: m in r <==> m in ms && HasMemberNamed(m, name)
  {
    Filter(ms, (m: Milestone) => HasMemberNamed(m, name))
  }

  /** `IsCompleted == true`; a null flag is not completed. */
  predicate Completed(m: Milestone) {
    m.isCompleted == Some(true)
  }

  /** The filter `GetByStatus` applies for `status` at the instant `now`. */
  predicate HasStatus(m: Milestone, status: Status, now: DateTime) {
    match status
    case COMPLETED => Completed(m)
    case OPENS => !Completed(m) && !(m.end < now)
    case EXPIRED => !Completed(m) && m.end < now
    case Undefined(_) => false
  }

  /** `GetByStatus(status)` evaluated at `now`: COMPLETED keeps the completed milestones, OPENS
      the others that end at or after `now`, EXPIRED the others that end before `now`; any other
      value gives the empty list. */
  function GetByStatus(ms: seq<Milestone>, status: Status, now: DateTime): (r: seq<Milestone>)
    ensures status.Undefined? ==> r == []
    ensures status == COMPLETED ==> forall m :: m in r <==> m in ms && m.isCompleted == Some(true)
    ensures status == OPENS ==>
              forall m :: m in r <==> m in ms && m.isCompleted != Some(true) && m.end >= now
    ensures status == EXPIRED ==>
              forall m :: m in r <==> m in ms && m.isCompleted != Some(true) && m.end < now
  {
    if status.Undefined? then [] else Filter(ms, (m: Milestone) => HasStatus(m, status, now))
  }

  /** `GetByStartAfter`: start at or after `t` (inclusive). */
  function GetByStartAfter(ms: seq<Milestone>, t: DateTime): (r: seq<Milestone>)
    ensures forall m :: m in r <==> m in ms && t <= m.start
  {
    Filter(ms, (m: Milestone) => m.start >= t)
  }

  /** `GetByEndBefore`: end at or before `t` (inclusive). */
  function GetByEndBefore(ms: seq<Milestone>, t: DateTime): (r: seq<Milestone>)
    ensures forall m :: m in r <==> m in ms && m.end <= t
  {
    Filter(ms, (m: Milestone) => m.end <= t)
  }

  /** The three statuses partition the collection: every milestone is in exactly one result. */
  lemma StatusesPartition(ms: seq<Milestone>, now: DateTime)
    ensures forall m :: m in ms ==>
              (m in GetByStatus(ms, COMPLETED, now) || m in GetByStatus(ms, OPENS, now) ||
               m in GetByStatus(ms, EXPIRED, now))
    ensures forall m :: !(m in GetByStatus(ms, COMPLETED, now) && m in GetByStatus(ms, OPENS, now))
    ensures forall m :: !(m in GetByStatus(ms, COMPLETED, now) && m in GetByStatus(ms, EXPIRED, now))
    ensures forall m :: !(m in GetByStatus(ms, OPENS, now) && m in GetByStatus(ms, EXPIRED, now))
  {
  }

  /** Both date filters are inclusive: a milestone starting (ending) exactly at the reference
      date is kept. */
  lemma DateFiltersAreInclusive(ms: seq<Milestone>, t: DateTime)
    ensures forall m :: m in ms && m.start == t ==> m in GetByStartAfter(ms, t)
    ensures forall m :: m in ms && m.end == t ==> m in GetByEndBefore(ms, t)
  {
  }

  /** Filters keep store order: querying the concatenation of two collections concatenates the
      results, for the project and the status queries alike. */
  lemma {:induction false} QueriesKeepStoreOrder(a: seq<Milestone>, b: seq<Milestone>, id: string,
                                                 status: Status, now: DateTime)
    ensures GetByProjectId(a + b, id) == GetByProjectId(a, id) + GetByProjectId(b, id)
    ensures GetByStatus(a + b, status, now) == GetByStatus(a, status, now) + GetByStatus(b, status, now)
  {
    FilterAppend(a, b, ReferencesProject(id));
    FilterAppend(a, b, (m: Milestone) => HasStatus(m, status, now));
  }

  /** In a collection with unique ids, `GetById` returns the one milestone carrying the id. */
  lemma GetByIdFindsStored(ms: seq<Milestone>, k: int)
    requires KeysUnique(ms, MilestoneModel.Key) && 0 <= k < |ms|
    ensures GetById(ms, ms[k].id.value) == Some(ms[k])
  {
    FindByUniqueKey(ms, MilestoneModel.Key, k);
  }
}
