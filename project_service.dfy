/** The queries of `ProjectService` over the project collection. */
module ProjectService {
  import opened Wrappers
  import opened Clock
  import opened Sequences
  import opened Text
  import opened ProjectModel

  /** `GetById`: the first project with that id, or null. */
  function GetById(ps: seq<Project>, id: string): (r: Option<Project>)
    ensures r.None? <==> forall i :: 0 <= i < |ps| ==> ps[i].id != Some(id)
    ensures r.Some? ==> r.value in ps && r.value.id == Some(id)
  {
    FindFirst(ps, KeyIs(ProjectModel.Key, id))
  }

  /** `GetByName`: a case-insensitive substring of the name; a null name never matches. */
  function GetByName(ps: seq<Project>, name: string): (r: seq<Project>)
    ensures forall p :: p in r <==> p in ps && p.name.Some? && ContainsIgnoreCase(p.name.value, name)
  {
    Filter(ps, (p: Project) => p.name.Some? && ContainsIgnoreCase(p.name.value, name))
  }

  /** `GetByStartAfter`: start at or after `t` (inclusive). */
  function GetByStartAfter(ps: seq<Project>, t: DateTime): (r: seq<Project>)
    ensures forall p :: p in r <==> p in ps && t <= p.start
  {
    Filter(ps, (p: Project) => p.start >= t)
  }

  /** `GetByEndBefore`: end at or before `t` (inclusive). */
  function GetByEndBefore(ps: seq<Project>, t: DateTime): (r: seq<Project>)
    ensures forall p :: p in r <==> p in ps && p.end <= t
  {
    Filter(ps, (p: Project) => p.end <= t)
  }

  /** Searching is case-insensitive in the query: upper- and lower-case queries find the same
      projects, in the same order. */
  lemma {:induction false} GetByNameIgnoresQueryCase(ps: seq<Project>, name: string)
    ensures GetByName(ps, ToLower(name)) == GetByName(ps, name)
  {
    forall p | p in ps && p.name.Some?
      ensures ContainsIgnoreCase(p.name.value, ToLower(name)) == ContainsIgnoreCase(p.name.value, name)
    {
      SearchIsCaseInsensitive(p.name.value, name);
    }
    FilterCongruent(ps, (p: Project) => p.name.Some? && ContainsIgnoreCase(p.name.value, ToLower(name)),
                        (p: Project) => p.name.Some? && ContainsIgnoreCase(p.name.value, name));
  }

  /** In a collection with unique ids, `GetById` returns the one project carrying the id. */
  lemma GetByIdFindsStored(ps: seq<Project>, k: int)
    requires KeysUnique(ps, ProjectModel.Key) && 0 <= k < |ps|
    ensures GetById(ps, ps[k].id.value) == Some(ps[k])
  {
    FindByUniqueKey(ps, ProjectModel.Key, k);
  }
}
