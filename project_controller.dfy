/** `ProjectController`: a project's milestones live in their own collection and are attached to
    it again on every read; the member and status searches run over projects assembled that way;
    create and update are guarded, and delete cascades to the project's milestones. */
module ProjectController {
  import opened Wrappers
  import opened Sequences
  import opened Responses
  import opened Statuses
  import opened Clock
  import opened Text
  import opened ProjectModel
  import opened Store
  import MemberModel
  import MilestoneModel
  import MilestoneService
  import MemberService
  import ProjectService

  type Milestone = MilestoneModel.Milestone
  type Member = MemberModel.Member

  /** Every project carries an id, as every stored project does. */
  predicate HasIds(ps: seq<Project>) {
    forall i :: 0 <= i < |ps| ==> ps[i].id.Some?
  }

  /** The stored milestones of project `p`: `GetByProjectId(p.Id)`, which is also what the
      `Id.Equals(ProjectReference)` scan of `GetAll` selects. */
  function Own(ms: seq<Milestone>, p: Project): (r: seq<Milestone>)
    requires p.id.Some?
    ensures forall m :: m in r <==> m in ms && m.projectReference == p.id
  {
    MilestoneService.GetByProjectId(ms, p.id.value)
  }

  /** `p` as a read returns it: its list holds exactly its stored milestones, in store order. */
  function WithMilestones(p: Project, ms: seq<Milestone>): Project
    requires p.id.Some?
  {
    p.(milestones := Some(Own(ms, p)))
  }

  /** Every project of `ps`, in order, with its milestones attached. */
  function Attached(ps: seq<Project>, ms: seq<Milestone>): (r: seq<Project>)
    requires HasIds(ps)
    ensures |r| == |ps|
    ensures forall i :: 0 <= i < |ps| ==> r[i] == WithMilestones(ps[i], ms)
  {
    seq(|ps|, i requires 0 <= i < |ps| => WithMilestones(ps[i], ms))
  }

  /** What `GetAll` and `GetByName` answer for the projects `ps`. They clear each project's own
      list before refilling it, so a project stored with a null list makes them throw, and
      neither catches. */
  function Assembled(ps: seq<Project>, ms: seq<Milestone>): Eval<seq<Project>>
    requires HasIds(ps)
  {
    if exists i :: 0 <= i < |ps| && ps[i].milestones.None? then Throws
    else Value(Attached(ps, ms))
  }

  /** Every project has a (possibly empty) milestone list: the create and update handlers keep
      this, and under it the reads never throw. */
  predicate ListsPresent(ps: seq<Project>) {
    forall i :: 0 <= i < |ps| ==> ps[i].milestones.Some?
  }

  /** With every list present, `GetAll` returns every project in store order, each carrying
      exactly the stored milestones that reference it, in store order. */
  lemma AssembledListsEveryProject(ps: seq<Project>, ms: seq<Milestone>)
    requires HasIds(ps) && ListsPresent(ps)
    ensures Assembled(ps, ms).Value?
    ensures |Assembled(ps, ms).value| == |ps|
    ensures forall i :: 0 <= i < |ps| ==>
              var q := Assembled(ps, ms).value[i];
              && q.(milestones := ps[i].milestones) == ps[i]
              && q.milestones == Some(MilestoneService.GetByProjectId(ms, ps[i].id.value))
  {
  }

  /** The nested `foreach` of the member searches over one project's milestones and their
      members. There is no early exit, so every member is checked: a null member list, or a test
      that throws, anywhere makes the scan throw; otherwise it reports whether a member matched. */
  predicate Scans(m: Milestone, matches: Member -> Eval<bool>) {
    m.members.Some? && forall j :: 0 <= j < |m.members.value| ==> matches(m.members.value[j]).Value?
  }

  function AnyMemberMatches(own: seq<Milestone>, matches: Member -> Eval<bool>): Eval<bool> {
    if exists k :: 0 <= k < |own| && !Scans(own[k], matches) then Throws
    else Value(exists k, j :: 0 <= k < |own| && 0 <= j < |own[k].members.value| &&
                              matches(own[k].members.value[j]) == Value(true))
  }

  /** The `memberFound` loops: every milestone, every member, the flag set on a match. */
  method MemberFound(own: seq<Milestone>, matches: Member -> Eval<bool>) returns (r: Eval<bool>)
    ensures r == AnyMemberMatches(own, matches)
  {
    var memberFound := false;
    for k := 0 to |own|
      invariant forall k' :: 0 <= k' < k ==> Scans(own[k'], matches)
      invariant memberFound <==> exists k', j :: 0 <= k' < k && 0 <= j < |own[k'].members.value| &&
                                                 matches(own[k'].members.value[j]) == Value(true)
    {
      if own[k].members.None? {
        assert !Scans(own[k], matches);
        return Throws;
      }
      var members := own[k].members.value;
      for j := 0 to |members|
        invariant forall j' :: 0 <= j' < j ==> matches(members[j']).Value?
        invariant memberFound <==>
                    || (exists k', j' :: 0 <= k' < k && 0 <= j' < |own[k'].members.value| &&
                                         matches(own[k'].members.value[j']) == Value(true))
                    || (exists j' :: 0 <= j' < j && matches(members[j']) == Value(true))
      {
        var test := matches(members[j]);
        if test.Throws? {
          assert !Scans(own[k], matches);
          return Throws;
        }
        if test.value {
          memberFound := true;
        }
      }
    }
    return Value(memberFound);
  }

  /** The list a project carries after the scan: all its milestones when a member matched,
      otherwise a new empty list. */
  function Tagged(ps: seq<Project>, ms: seq<Milestone>, matches: Member -> Eval<bool>): (r: seq<Project>)
    requires HasIds(ps)
    requires forall i :: 0 <= i < |ps| ==> AnyMemberMatches(Own(ms, ps[i]), matches).Value?
    ensures |r| == |ps|
    ensures forall i :: 0 <= i < |ps| ==>
              r[i] == if AnyMemberMatches(Own(ms, ps[i]), matches).value then WithMilestones(ps[i], ms)
                      else ps[i].(milestones := Some([]))
  {
    seq(|ps|, i requires 0 <= i < |ps| =>
                if AnyMemberMatches(Own(ms, ps[i]), matches).value then WithMilestones(ps[i], ms)
                else ps[i].(milestones := Some([])))
  }

  /** The `RemoveAll(project => project.Milestones.Count == 0)` test, negated: what stays. */
  predicate HasMilestones(q: Project) {
    q.milestones != Some([])
  }

  /** What `GetByMemberId` and `GetByMemberName` answer for the projects `ps`. */
  function MemberSearch(ps: seq<Project>, ms: seq<Milestone>, matches: Member -> Eval<bool>): Eval<seq<Project>>
    requires HasIds(ps)
  {
    if exists i :: 0 <= i < |ps| && AnyMemberMatches(Own(ms, ps[i]), matches).Throws? then Throws
    else Value(Filter(Tagged(ps, ms, matches), HasMilestones))
  }

  /** The loop both member searches share: scan each project's milestones, keep them on a
      match, then drop the projects left with an empty list. */
  method SearchByMember(ps: seq<Project>, ms: seq<Milestone>, matches: Member -> Eval<bool>)
    returns (r: Eval<seq<Project>>)
    requires HasIds(ps)
    ensures r == MemberSearch(ps, ms, matches)
  {
    var projects: seq<Project> := [];
    for i := 0 to |ps|
      invariant forall k :: 0 <= k < i ==> AnyMemberMatches(Own(ms, ps[k]), matches).Value?
      invariant projects == Tagged(ps[..i], ms, matches)
    {
      var milestones := MilestoneService.GetByProjectId(ms, ps[i].id.value);
      var memberFound := MemberFound(milestones, matches);
      if memberFound.Throws? {
        return Throws;
      }
      if memberFound.value {
        projects := projects + [ps[i].(milestones := Some(milestones))];
      } else {
        projects := projects + [ps[i].(milestones := Some([]))];
      }
    }
    assert ps[..|ps|] == ps;
    return Value(Filter(projects, HasMilestones));
  }

  /** A scanned project keeps a non-empty list exactly when a member matched: a match implies
      a milestone, and no match leaves the empty list. */
  lemma TaggedKeepsTheMatching(ps: seq<Project>, ms: seq<Milestone>, matches: Member -> Eval<bool>, i: int)
    requires HasIds(ps)
    requires forall k :: 0 <= k < |ps| ==> AnyMemberMatches(Own(ms, ps[k]), matches).Value?
    requires 0 <= i < |ps|
    ensures HasMilestones(Tagged(ps, ms, matches)[i]) <==> AnyMemberMatches(Own(ms, ps[i]), matches) == Value(true)
    ensures HasMilestones(Tagged(ps, ms, matches)[i]) ==> Tagged(ps, ms, matches)[i] == WithMilestones(ps[i], ms)
  {
    var own := Own(ms, ps[i]);
    var found := AnyMemberMatches(own, matches);
    if found == Value(true) {
      var k, j :| 0 <= k < |own| && 0 <= j < |own[k].members.value| &&
                  matches(own[k].members.value[j]) == Value(true);
      assert own != [];
    }
  }

  /** A member search returns exactly the projects with a matching member, each carrying all
      of its milestones: a match implies a milestone, so no matching project is dropped. */
  lemma MemberSearchSelects(ps: seq<Project>, ms: seq<Milestone>, matches: Member -> Eval<bool>)
    requires HasIds(ps) && MemberSearch(ps, ms, matches).Value?
    ensures forall q :: q in MemberSearch(ps, ms, matches).value <==>
              exists i :: 0 <= i < |ps| && AnyMemberMatches(Own(ms, ps[i]), matches) == Value(true) &&
                          q == WithMilestones(ps[i], ms)
  {
    var tagged := Tagged(ps, ms, matches);
    assert MemberSearch(ps, ms, matches).value == Filter(tagged, HasMilestones);
    forall q
      ensures q in Filter(tagged, HasMilestones) <==>
                exists i :: 0 <= i < |ps| && AnyMemberMatches(Own(ms, ps[i]), matches) == Value(true) &&
                            q == WithMilestones(ps[i], ms)
    {
      if q in Filter(tagged, HasMilestones) {
        var i :| 0 <= i < |tagged| && tagged[i] == q;
        TaggedKeepsTheMatching(ps, ms, matches, i);
      }
      if i :| 0 <= i < |ps| && AnyMemberMatches(Own(ms, ps[i]), matches) == Value(true) &&
              q == WithMilestones(ps[i], ms) {
        TaggedKeepsTheMatching(ps, ms, matches, i);
        assert tagged[i] == q && q in tagged;
      }
    }
  }

  /** `member.Id == id`: string equality, which a null id fails. */
  function IdMatches(id: string): (f: Member -> Eval<bool>)
    ensures forall e :: f(e) == Value(e.id == Some(id))
  {
    (e: Member) => Value(e.id == Some(id))
  }

  /** `member.Firstname.ToLower().Contains(name.ToLower()) || member.Lastname...`: a null first
      name throws; a null last name throws unless the first name already matched. On members
      with both names it is the server's name filter. */
  function NameMatches(name: string): (f: Member -> Eval<bool>)
    ensures forall e :: f(e).Throws? <==>
              e.firstname.None? || (!ContainsIgnoreCase(e.firstname.value, name) && e.lastname.None?)
    ensures forall e: Member :: e.firstname.Some? && e.lastname.Some? ==>
              f(e) == Value(MemberService.NameMatches(e, name))
  {
    (e: Member) =>
      if e.firstname.None? then Throws
      else if ContainsIgnoreCase(e.firstname.value, name) then Value(true)
      else if e.lastname.None? then Throws
      else Value(ContainsIgnoreCase(e.lastname.value, name))
  }

  /** Every stored milestone has a member list. */
  predicate MemberListsPresent(ms: seq<Milestone>) {
    forall k :: 0 <= k < |ms| ==> ms[k].members.Some?
  }

  /** One of the project's milestones embeds a member with the id exactly when one of them is
      among the milestones `GetByMemberId` returns. */
  lemma MemberIdFoundIffQueried(ms: seq<Milestone>, p: Project, id: string)
    requires p.id.Some?
    ensures (exists k :: 0 <= k < |Own(ms, p)| && MilestoneService.HasMemberId(Own(ms, p)[k], id)) <==>
            (exists m :: m in MilestoneService.GetByMemberId(ms, id) && m.projectReference == p.id)
  {
    var own := Own(ms, p);
    if k :| 0 <= k < |own| && MilestoneService.HasMemberId(own[k], id) {
      assert own[k] in MilestoneService.GetByMemberId(ms, id);
    }
    if m :| m in MilestoneService.GetByMemberId(ms, id) && m.projectReference == p.id {
      var k :| 0 <= k < |own| && own[k] == m;
      assert MilestoneService.HasMemberId(own[k], id);
    }
  }

  /** The project-level id search agrees with the milestone-level one: a project's scan finds
      the member exactly when one of its milestones is among the milestones `GetByMemberId`
      returns. */
  lemma MemberIdScanAgreesWithMilestoneQuery(ms: seq<Milestone>, p: Project, id: string)
    requires p.id.Some? && MemberListsPresent(ms)
    ensures AnyMemberMatches(Own(ms, p), IdMatches(id)) ==
              Value(exists m :: m in MilestoneService.GetByMemberId(ms, id) && m.projectReference == p.id)
  {
    var own := Own(ms, p);
    forall k | 0 <= k < |own| ensures Scans(own[k], IdMatches(id)) {
      assert own[k] in ms;
    }
    MemberIdFoundIffQueried(ms, p, id);
    if k, j :| 0 <= k < |own| && 0 <= j < |own[k].members.value| &&
               IdMatches(id)(own[k].members.value[j]) == Value(true) {
      assert MilestoneService.HasMemberId(own[k], id);
    }
    if k :| 0 <= k < |own| && MilestoneService.HasMemberId(own[k], id) {
      var j :| 0 <= j < |own[k].members.value| && own[k].members.value[j].id == Some(id);
      assert IdMatches(id)(own[k].members.value[j]) == Value(true);
    }
  }

  /** `(bool)milestone.IsCompleted`: casting a null flag throws. */
  function CompletedCast(m: Milestone): Eval<bool> {
    if m.isCompleted.None? then Throws else Value(m.isCompleted.value)
  }

  /** `project.Milestones.TrueForAll(milestone => (bool)milestone.IsCompleted)`. */
  function AllCompleted(q: Project): Eval<bool> {
    if q.milestones.None? then Throws else TrueForAllEval(q.milestones.value, CompletedCast)
  }

  /** The COMPLETED removal test: `Milestones.Count == 0 || !Milestones.TrueForAll(...)`. */
  function NotAllCompleted(q: Project): Eval<bool> {
    if q.milestones.None? then Throws
    else if |q.milestones.value| == 0 then Value(true)
    else match AllCompleted(q)
      case Throws => Throws
      case Value(all) => Value(!all)
  }

  /** What `RemoveAll(project => project.End <= now)` keeps. */
  function EndsAfter(now: DateTime): (f: Project -> bool)
    ensures forall q :: f(q) <==> q.end > now
  {
    (q: Project) => !(q.end <= now)
  }

  /** What `RemoveAll(project => project.End > now)` keeps. */
  function EndsBy(now: DateTime): (f: Project -> bool)
    ensures forall q :: f(q) <==> q.end <= now
  {
    (q: Project) => !(q.end > now)
  }

  /** The `switch` of `GetByStatus` over the assembled projects `qs`, with `DateTime.UtcNow`
      read as `now`; an unknown status keeps every project. */
  function StatusFilter(qs: seq<Project>, status: Status, now: DateTime): Eval<seq<Project>> {
    match status
    case COMPLETED => RemoveAllEval(qs, NotAllCompleted)
    case OPENS => RemoveAllEval(Filter(qs, EndsAfter(now)), AllCompleted)
    case EXPIRED => RemoveAllEval(Filter(qs, EndsBy(now)), AllCompleted)
    case Undefined(_) => Value(qs)
  }

  /** Every stored milestone has its completion flag set. */
  predicate FlagsSet(ms: seq<Milestone>) {
    forall k :: 0 <= k < |ms| ==> ms[k].isCompleted.Some?
  }

  /** A project carrying its milestones is COMPLETED when it has one and all are completed, OPENS
      when it ends after `now` and one is not completed, EXPIRED when it ends by `now` and one is
      not completed. */
  predicate IsCompletedProject(q: Project) {
    q.milestones.Some? && |q.milestones.value| > 0 &&
    forall m :: m in q.milestones.value ==> m.isCompleted == Some(true)
  }

  predicate IsOpenProject(q: Project, now: DateTime) {
    q.end > now && q.milestones.Some? && exists m :: m in q.milestones.value && m.isCompleted == Some(false)
  }

  predicate IsExpiredProject(q: Project, now: DateTime) {
    q.end <= now && q.milestones.Some? && exists m :: m in q.milestones.value && m.isCompleted == Some(false)
  }

  /** On a project whose milestones have their flags set, the removal tests do not throw and
      decide exactly the derived statuses. */
  lemma RemovalTestsDecideStatus(q: Project)
    requires q.milestones.Some?
    requires forall k :: 0 <= k < |q.milestones.value| ==> q.milestones.value[k].isCompleted.Some?
    ensures NotAllCompleted(q) == Value(!IsCompletedProject(q))
    ensures AllCompleted(q) == Value(!(exists m :: m in q.milestones.value && m.isCompleted == Some(false)))
  {
    var own := q.milestones.value;
    var all := TrueForAllEval(own, CompletedCast);
    assert all.Value?;
    if all.value {
      forall m | m in own ensures m.isCompleted == Some(true) {
        var i :| 0 <= i < |own| && own[i] == m;
        assert CompletedCast(own[i]) == Value(true);
      }
    } else {
      var i :| 0 <= i < |own| && CompletedCast(own[i]) == Value(false);
      assert own[i] in own && own[i].isCompleted == Some(false);
    }
  }

  /** With every flag set, the status search does not throw and returns exactly the assembled
      projects of that status. */
  lemma StatusFilterSelects(ps: seq<Project>, ms: seq<Milestone>, status: Status, now: DateTime)
    requires HasIds(ps) && FlagsSet(ms) && !status.Undefined?
    ensures StatusFilter(Attached(ps, ms), status, now).Value?
    ensures status == COMPLETED ==>
              forall q :: q in StatusFilter(Attached(ps, ms), status, now).value <==>
                          q in Attached(ps, ms) && IsCompletedProject(q)
    ensures status == OPENS ==>
              forall q :: q in StatusFilter(Attached(ps, ms), status, now).value <==>
                          q in Attached(ps, ms) && IsOpenProject(q, now)
    ensures status == EXPIRED ==>
              forall q :: q in StatusFilter(Attached(ps, ms), status, now).value <==>
                          q in Attached(ps, ms) && IsExpiredProject(q, now)
  {
    var qs := Attached(ps, ms);
    forall q | q in qs
      ensures NotAllCompleted(q) == Value(!IsCompletedProject(q))
      ensures AllCompleted(q) == Value(!(exists m :: m in q.milestones.value && m.isCompleted == Some(false)))
    {
      var i :| 0 <= i < |qs| && qs[i] == q;
      forall k | 0 <= k < |q.milestones.value| ensures q.milestones.value[k].isCompleted.Some? {
        assert q.milestones.value[k] in ms;
      }
      RemovalTestsDecideStatus(q);
    }
  }

  /** The three project statuses exclude each other, and a project without milestones has none
      of them. */
  lemma StatusesExclusive(ps: seq<Project>, ms: seq<Milestone>, now: DateTime, q: Project)
    requires HasIds(ps) && FlagsSet(ms)
    ensures var completed := StatusFilter(Attached(ps, ms), COMPLETED, now);
            var opens := StatusFilter(Attached(ps, ms), OPENS, now);
            var expired := StatusFilter(Attached(ps, ms), EXPIRED, now);
            && completed.Value? && opens.Value? && expired.Value?
            && !(q in completed.value && q in opens.value)
            && !(q in completed.value && q in expired.value)
            && !(q in opens.value && q in expired.value)
            && (q.milestones == Some([]) ==>
                  q !in completed.value && q !in opens.value && q !in expired.value)
  {
    StatusFilterSelects(ps, ms, COMPLETED, now);
    StatusFilterSelects(ps, ms, OPENS, now);
    StatusFilterSelects(ps, ms, EXPIRED, now);
  }

  /** `== p` as a test on each stored project. */
  function EqualTo(p: Project): (f: Project -> Eval<bool>)
    ensures forall q :: f(q) == OpEquals(q, Some(p))
  {
    (q: Project) => OpEquals(q, Some(p))
  }

  /** The duplicate loop of `CreateProject`: it stops at the first stored project `==` to `p`,
      and a comparison that throws ends the request. */
  method FindDuplicate(ps: seq<Project>, p: Project) returns (r: Eval<bool>)
    ensures r == ExistsEval(ps, EqualTo(p))
  {
    for i := 0 to |ps|
      invariant forall k :: 0 <= k < i ==> OpEquals(ps[k], Some(p)) == Value(false)
    {
      var same := OpEquals(ps[i], Some(p));
      if same.Throws? {
        ExistsEvalThrowsAt(ps, EqualTo(p), i);
        return Throws;
      }
      if same.value {
        return Value(true);
      }
    }
    return Value(false);
  }

  /** The duplicate test compares the inbound milestone list, which the handler then clears: a
      project that repeats a stored one with an empty list passes as soon as it brings along a
      milestone, and is stored equal to the stored one. */
  lemma InboundMilestonesEscapeTheDuplicateTest(p: Project, m: Milestone, newId: string)
    requires !IsMissingProperties(p) && p.milestones == Some([])
    ensures OpEquals(p, Some(p.(milestones := Some([m])))) == Value(false)
    ensures OpEquals(p, Some(p.(id := Some(newId), milestones := Some([])))) == Value(true)
  {
  }

  /** `milestone != x`, the test of the guard's dead `Exists`. */
  function DiffersFrom(x: Milestone): (f: Milestone -> Eval<bool>)
    ensures forall s :: f(s) == MilestoneModel.OpNotEquals(s, Some(x))
  {
    (s: Milestone) => MilestoneModel.OpNotEquals(s, Some(x))
  }

  /** The guard of the insert loop of `UpdateProject`, evaluated left to right with
      short-circuits:
      `IsNullOrEmpty(x.Id) || (IsNullOrEmpty(x.Id) && stored.Count > 1 && stored.Exists(s => s != x))`.
      The second disjunct is reached only when its own first conjunct is false, so the guard is
      exactly the id test and never throws. */
  function InsertGuard(x: Milestone, stored: seq<Milestone>): (g: Eval<bool>)
    ensures g == Value(IsNullOrEmpty(x.id))
  {
    if IsNullOrEmpty(x.id) then Value(true)
    else if !(IsNullOrEmpty(x.id) && |stored| > 1) then Value(false)
    else ExistsEval(stored, DiffersFrom(x))
  }

  /** An inbound milestone after the loop: inserting it wrote the fresh id into it when its id
      was null or empty. */
  function Stamped(x: Milestone, newId: string): Milestone {
    if IsNullOrEmpty(x.id) then x.(id := Some(newId)) else x
  }

  /** The inbound list after the loop, which the project document then stores. */
  function WrittenBack(inbound: seq<Milestone>, newIds: seq<string>): (r: seq<Milestone>)
    requires |newIds| == |inbound|
    ensures |r| == |inbound|
    ensures forall k :: 0 <= k < |inbound| ==> r[k] == Stamped(inbound[k], newIds[k])
  {
    seq(|inbound|, k requires 0 <= k < |inbound| => Stamped(inbound[k], newIds[k]))
  }

  /** The milestones the loop inserts, in order. */
  function Inserted(inbound: seq<Milestone>, newIds: seq<string>): (r: seq<Milestone>)
    requires |newIds| == |inbound|
    decreases |inbound|
  {
    if inbound == [] then []
    else
      var k := |inbound| - 1;
      Inserted(inbound[..k], newIds[..k]) +
      (if IsNullOrEmpty(inbound[k].id) then [inbound[k].(id := Some(newIds[k]))] else [])
  }

  /** The loop inserts exactly the inbound milestones whose id is null or empty, each under the
      fresh id of its position and otherwise unvalidated. */
  lemma {:induction false} InsertedAreTheIdlessInbound(inbound: seq<Milestone>, newIds: seq<string>)
    requires |newIds| == |inbound|
    ensures forall m :: m in Inserted(inbound, newIds) <==>
              exists k :: 0 <= k < |inbound| && IsNullOrEmpty(inbound[k].id) &&
                          m == inbound[k].(id := Some(newIds[k]))
    decreases |inbound|
  {
    if inbound != [] {
      var k := |inbound| - 1;
      InsertedAreTheIdlessInbound(inbound[..k], newIds[..k]);
      forall i | 0 <= i < k ensures inbound[..k][i] == inbound[i] && newIds[..k][i] == newIds[i] { }
    }
  }

  /** Distinct ids no stored milestone carries. */
  ghost predicate FreshIds(newIds: seq<string>, ms: seq<Milestone>) {
    && (forall i, j :: 0 <= i < j < |newIds| ==> newIds[i] != newIds[j])
    && (forall i :: 0 <= i < |newIds| ==> FreshKey(ms, MilestoneModel.Key, newIds[i]))
  }

  /** The loop grows the inserted list by at most the milestone at the next position. */
  lemma InsertedStep(inbound: seq<Milestone>, newIds: seq<string>, i: int)
    requires |newIds| == |inbound| && 0 <= i < |inbound|
    ensures Inserted(inbound[..i + 1], newIds[..i + 1]) ==
            Inserted(inbound[..i], newIds[..i]) +
            (if IsNullOrEmpty(inbound[i].id) then [inbound[i].(id := Some(newIds[i]))] else [])
  {
    assert inbound[..i + 1][..i] == inbound[..i] && newIds[..i + 1][..i] == newIds[..i];
  }

  /** The id the loop uses at position `i` is still free when it is used: no stored milestone
      and no milestone inserted at an earlier position carries it. */
  lemma NextIdIsFresh(before: seq<Milestone>, inbound: seq<Milestone>, newIds: seq<string>, i: int)
    requires |newIds| == |inbound| && 0 <= i < |inbound| && FreshIds(newIds, before)
    ensures FreshKey(before + Inserted(inbound[..i], newIds[..i]), MilestoneModel.Key, newIds[i])
  {
    var added := Inserted(inbound[..i], newIds[..i]);
    InsertedAreTheIdlessInbound(inbound[..i], newIds[..i]);
    var all := before + added;
    forall j | 0 <= j < |all|
      ensures MilestoneModel.Key(all[j]) != Some(newIds[i])
    {
      if j < |before| {
        assert all[j] == before[j];
      } else {
        assert all[j] in added;
        var k :| 0 <= k < i && IsNullOrEmpty(inbound[..i][k].id) &&
                 all[j] == inbound[..i][k].(id := Some(newIds[..i][k]));
        assert newIds[..i][k] == newIds[k];
      }
    }
  }

  /** The filter the cascade has applied after deleting the milestones `ts`. */
  function NotAmong(ts: seq<Milestone>): (f: Milestone -> bool)
    ensures forall m :: f(m) <==> forall k :: 0 <= k < |ts| ==> m.id != ts[k].id
  {
    (m: Milestone) => forall k :: 0 <= k < |ts| ==> m.id != ts[k].id
  }

  /** The milestones that survive deleting project `id`. */
  function Unreferencing(id: string): (f: Milestone -> bool)
    ensures forall m :: f(m) <==> m.projectReference != Some(id)
  {
    (m: Milestone) => m.projectReference != Some(id)
  }

  /** Every stored milestone references a stored project. */
  ghost predicate ReferencesResolve(ps: seq<Project>, ms: seq<Milestone>) {
    forall m :: m in ms ==> exists p :: p in ps && m.projectReference == p.id
  }

  /** A milestone is among the first `i + 1` exactly when it is among the first `i` or is the
      next one. */
  lemma NotAmongNext(ts: seq<Milestone>, i: int, x: Milestone)
    requires 0 <= i < |ts|
    ensures NotAmong(ts[..i + 1])(x) <==> NotAmong(ts[..i])(x) && x.id != ts[i].id
  {
    var next, prev := ts[..i + 1], ts[..i];
    if NotAmong(next)(x) {
      forall k | 0 <= k < i ensures x.id != prev[k].id {
        assert prev[k] == next[k];
      }
      assert x.id != next[i].id;
    } else {
      var k :| 0 <= k < i + 1 && x.id == next[k].id;
      if k < i {
        assert prev[k] == next[k];
      }
    }
  }

  /** One pass of the delete loop: removing the next milestone by id extends the set of ids
      removed so far by that one id. */
  lemma DeleteStep(before: seq<Milestone>, ts: seq<Milestone>, i: int)
    requires 0 <= i < |ts| && ts[i].id.Some?
    ensures Filter(Filter(before, NotAmong(ts[..i])), KeyIsNot(MilestoneModel.Key, ts[i].id.value)) ==
            Filter(before, NotAmong(ts[..i + 1]))
  {
    var kept, gone := NotAmong(ts[..i]), KeyIsNot(MilestoneModel.Key, ts[i].id.value);
    FilterFilter(before, kept, gone);
    forall x | x in before
      ensures And(kept, gone)(x) == NotAmong(ts[..i + 1])(x)
    {
      NotAmongNext(ts, i, x);
    }
    FilterCongruent(before, And(kept, gone), NotAmong(ts[..i + 1]));
  }

  /** With unique milestone ids, deleting by id each milestone that references project `id`
      removes exactly the milestones that reference it. */
  lemma DeletingByIdRemovesTheReferencing(before: seq<Milestone>, id: string)
    requires KeysUnique(before, MilestoneModel.Key)
    ensures Filter(before, NotAmong(MilestoneService.GetByProjectId(before, id))) ==
            Filter(before, Unreferencing(id))
  {
    var ts := MilestoneService.GetByProjectId(before, id);
    forall x | x in before
      ensures NotAmong(ts)(x) == Unreferencing(id)(x)
    {
      var a :| 0 <= a < |before| && before[a] == x;
      if x.projectReference == Some(id) {
        assert x in ts;
      } else {
        forall k | 0 <= k < |ts| ensures x.id != ts[k].id {
          var t := ts[k];
          assert t in before;
          var b :| 0 <= b < |before| && before[b] == t;
          assert x.projectReference != t.projectReference;
          assert a != b;
        }
      }
    }
    FilterCongruent(before, NotAmong(ts), Unreferencing(id));
  }

  /** Deleting a project together with the milestones that reference it leaves every other
      milestone's reference resolvable. */
  lemma DeleteKeepsReferencesResolved(ps: seq<Project>, ms: seq<Milestone>, id: string)
    requires ReferencesResolve(ps, ms)
    ensures ReferencesResolve(Filter(ps, KeyIsNot(ProjectModel.Key, id)), Filter(ms, Unreferencing(id)))
  {
    var ps', ms' := Filter(ps, KeyIsNot(ProjectModel.Key, id)), Filter(ms, Unreferencing(id));
    forall m | m in ms'
      ensures exists p :: p in ps' && m.projectReference == p.id
    {
      assert m in ms && m.projectReference != Some(id);
      var p :| p in ps && m.projectReference == p.id;
      assert p in ps';
    }
  }

  /** Replacing a project by one that carries a list keeps every list present. */
  lemma ReplaceKeepsListsPresent(ps: seq<Project>, id: string, x: Project)
    requires ListsPresent(ps) && x.milestones.Some?
    ensures ListsPresent(ReplaceFirst(ps, KeyIs(ProjectModel.Key, id), x))
  {
    if k :| FirstMatchAt(ps, KeyIs(ProjectModel.Key, id), k) {
      assert ReplaceFirst(ps, KeyIs(ProjectModel.Key, id), x) == ps[k := x];
    }
  }

  /** What `GetById` answers without an exception: `Ok` with the project, or the failure
      envelope `{ success = false, message }`. */
  datatype Lookup = Found(project: Project) | NotFound(message: string)

  class ProjectController {
    const projectService: Collection<Project>
    const milestoneService: Collection<Milestone>

    /** The controller works on valid project and milestone stores, each keyed by id. */
    ghost predicate Valid()
      reads this, projectService, milestoneService
    {
      && projectService.key == ProjectModel.Key && projectService.Valid()
      && milestoneService.key == MilestoneModel.Key && milestoneService.Valid()
    }

    constructor(projectService: Collection<Project>, milestoneService: Collection<Milestone>)
      ensures this.projectService == projectService && this.milestoneService == milestoneService
    {
      this.projectService := projectService;
      this.milestoneService := milestoneService;
    }

    /** `GetAll`: for each stored project, clear its list and add every stored milestone whose
        reference equals the project's id. */
    method GetAll() returns (r: Eval<seq<Project>>)
      requires Valid()
      ensures HasIds(projectService.records)
      ensures r == Assembled(projectService.records, milestoneService.records)
    {
      var projects := projectService.records;
      var milestones := milestoneService.records;
      var result: seq<Project> := [];
      for projectIndex := 0 to |projects|
        invariant result == Attached(projects[..projectIndex], milestones)
        invariant forall k :: 0 <= k < projectIndex ==> projects[k].milestones.Some?
      {
        var project := projects[projectIndex];
        if project.milestones.None? {
          return Throws;
        }
        var own: seq<Milestone> := [];
        for milestoneIndex := 0 to |milestones|
          invariant own == Filter(milestones[..milestoneIndex], MilestoneService.ReferencesProject(project.id.value))
        {
          FilterStep(milestones, milestoneIndex, MilestoneService.ReferencesProject(project.id.value));
          if project.id == milestones[milestoneIndex].projectReference {
            own := own + [milestones[milestoneIndex]];
          }
        }
        assert milestones[..|milestones|] == milestones;
        result := result + [project.(milestones := Some(own))];
      }
      assert projects[..|projects|] == projects;
      return Value(result);
    }

    /** `GetById`: the failure envelope "Project not exists" for an unknown id; otherwise the
        project with its list cleared and refilled from `GetByProjectId`, which throws
        (uncaught) on a stored null list. */
    method GetById(id: string) returns (r: Eval<Lookup>)
      requires Valid()
      ensures r == Value(NotFound("Project not exists")) <==>
                ProjectService.GetById(projectService.records, id).None?
      ensures r.Throws? <==>
                exists p :: p in projectService.records && p.id == Some(id) && p.milestones.None?
      ensures r.Value? && r.value.Found? ==>
                && r.value.project.(milestones := None) ==
                   ProjectService.GetById(projectService.records, id).value.(milestones := None)
                && r.value.project.id == Some(id)
                && r.value.project.milestones == Some(MilestoneService.GetByProjectId(milestoneService.records, id))
    {
      var project := ProjectService.GetById(projectService.records, id);
      if project.None? {
        return Value(NotFound("Project not exists"));
      }
      if project.value.milestones.None? {
        return Throws;
      }
      var milestones := MilestoneService.GetByProjectId(milestoneService.records, id);
      return Value(Found(project.value.(milestones := Some(milestones))));
    }

    /** `GetByName`: the projects whose name matches, each with its list cleared and refilled
        from `GetByProjectId`. */
    method GetByName(name: string) returns (r: Eval<seq<Project>>)
      requires Valid()
      ensures HasIds(ProjectService.GetByName(projectService.records, name))
      ensures r == Assembled(ProjectService.GetByName(projectService.records, name), milestoneService.records)
    {
      var projects := ProjectService.GetByName(projectService.records, name);
      forall i | 0 <= i < |projects| ensures projects[i].id.Some? {
        assert projects[i] in projectService.records;
      }
      var result: seq<Project> := [];
      for i := 0 to |projects|
        invariant result == Attached(projects[..i], milestoneService.records)
        invariant forall k :: 0 <= k < i ==> projects[k].milestones.Some?
      {
        if projects[i].milestones.None? {
          return Throws;
        }
        var milestones := MilestoneService.GetByProjectId(milestoneService.records, projects[i].id.value);
        result := result + [projects[i].(milestones := Some(milestones))];
      }
      assert projects[..|projects|] == projects;
      return Value(result);
    }

    /** `GetByMemberId`: the projects one of whose milestones embeds a member with that id. */
    method GetByMemberId(id: string) returns (r: Eval<seq<Project>>)
      requires Valid()
      ensures HasIds(projectService.records)
      ensures r == MemberSearch(projectService.records, milestoneService.records, IdMatches(id))
    {
      r := SearchByMember(projectService.records, milestoneService.records, IdMatches(id));
    }

    /** `GetByMemberName`: the projects one of whose milestones embeds a member whose first or
        last name contains the query, ignoring case. */
    method GetByMemberName(name: string) returns (r: Eval<seq<Project>>)
      requires Valid()
      ensures HasIds(projectService.records)
      ensures r == MemberSearch(projectService.records, milestoneService.records, NameMatches(name))
    {
      r := SearchByMember(projectService.records, milestoneService.records, NameMatches(name));
    }

    /** `GetByStatus`: each project gets its stored milestones, then the status filter runs at
        the instant `now`. */
    method GetByStatus(status: Status, now: DateTime) returns (r: Eval<seq<Project>>)
      requires Valid()
      ensures HasIds(projectService.records)
      ensures r == StatusFilter(Attached(projectService.records, milestoneService.records), status, now)
    {
      var projects := projectService.records;
      var assembled: seq<Project> := [];
      for i := 0 to |projects|
        invariant assembled == Attached(projects[..i], milestoneService.records)
      {
        var milestones := MilestoneService.GetByProjectId(milestoneService.records, projects[i].id.value);
        assembled := assembled + [projects[i].(milestones := Some(milestones))];
      }
      assert projects[..|projects|] == projects;
      r := StatusFilter(assembled, status, now);
    }

    /** `CreateProject`: rejects a body with a missing property, then one `==` to a stored
        project (comparing the body's own milestone list); otherwise stores it, with its list
        cleared, under the id it carries or else the generated `newId`. The handler has no `try`:
        a null body, a comparison that throws, or the store's duplicate-key error for an id
        already taken is an unhandled fault. */
    method CreateProject(newProject: Option<Project>, newId: string) returns (r: Response)
      requires Valid() && FreshKey(projectService.records, ProjectModel.Key, newId)
      modifies projectService
      ensures Valid()
      ensures newProject.None? ==> r == Faulted(false) && projectService.records == old(projectService.records)
      ensures newProject.Some? && IsMissingProperties(newProject.value) ==>
                r == Failed("Project property is missing") &&
                projectService.records == old(projectService.records)
      ensures newProject.Some? && !IsMissingProperties(newProject.value) ==>
                match ExistsEval(old(projectService.records), EqualTo(newProject.value))
                case Throws =>
                  r == Faulted(false) && projectService.records == old(projectService.records)
                case Value(duplicate) =>
                  if duplicate then
                    r == Failed("Project-Duplicate not allowed") &&
                    projectService.records == old(projectService.records)
                  else
                    var id := AssignedId(newProject.value.id, newId);
                    if FreshKey(old(projectService.records), ProjectModel.Key, id) then
                      r == Created(id) &&
                      projectService.records ==
                      old(projectService.records) + [newProject.value.(id := Some(id), milestones := Some([]))]
                    else
                      r == Faulted(false) && projectService.records == old(projectService.records)
      ensures ListsPresent(old(projectService.records)) ==> ListsPresent(projectService.records)
    {
      if newProject.None? {
        return Faulted(false);
      }
      var p := newProject.value;
      if IsMissingProperties(p) {
        return Failed("Project property is missing");
      }
      var duplicate := FindDuplicate(projectService.records, p);
      if duplicate.Throws? {
        return Faulted(false);
      }
      if duplicate.value {
        return Failed("Project-Duplicate not allowed");
      }
      var id := AssignedId(p.id, newId);
      var ok := projectService.InsertOne(p.(id := Some(id), milestones := Some([])));
      if !ok {
        return Faulted(false);
      }
      return Created(id);
    }

    /** `UpdateProject`: rejects an unknown route id and a body with a missing property; then
        inserts, unvalidated, every inbound milestone whose id is null or empty (the driver writes
        the fresh id back into it), and replaces the project by the body. Every exception is
        caught: a null body, a stored null list, and the store refusing to change the id, in
        which case the inserted milestones stay. */
    method UpdateProject(id: string, updatedProject: Option<Project>, newIds: seq<string>) returns (r: Response)
      requires Valid()
      requires updatedProject.Some? && updatedProject.value.milestones.Some? ==>
                 |newIds| == |updatedProject.value.milestones.value|
      requires FreshIds(newIds, milestoneService.records)
      modifies projectService, milestoneService
      ensures Valid()
      ensures ProjectService.GetById(old(projectService.records), id).None? ==>
                && r == Failed("Project not exists")
                && projectService.records == old(projectService.records)
                && milestoneService.records == old(milestoneService.records)
      ensures ProjectService.GetById(old(projectService.records), id).Some? && updatedProject.None? ==>
                && r == Faulted(true)
                && projectService.records == old(projectService.records)
                && milestoneService.records == old(milestoneService.records)
      ensures ProjectService.GetById(old(projectService.records), id).Some? && updatedProject.Some? &&
              IsMissingProperties(updatedProject.value) ==>
                && r == Failed("Project property is missing")
                && projectService.records == old(projectService.records)
                && milestoneService.records == old(milestoneService.records)
      ensures ProjectService.GetById(old(projectService.records), id).Some? && updatedProject.Some? &&
              !IsMissingProperties(updatedProject.value) &&
              ProjectService.GetById(old(projectService.records), id).value.milestones.None? ==>
                && r == Faulted(true)
                && projectService.records == old(projectService.records)
                && milestoneService.records == old(milestoneService.records)
      ensures ProjectService.GetById(old(projectService.records), id).Some? && updatedProject.Some? &&
              !IsMissingProperties(updatedProject.value) &&
              ProjectService.GetById(old(projectService.records), id).value.milestones.Some? ==>
                var u := updatedProject.value;
                && milestoneService.records == old(milestoneService.records) + Inserted(u.milestones.value, newIds)
                && if u.id == Some(id) then
                     r == Succeeded("Project updated") &&
                     projectService.records ==
                     ReplaceFirst(old(projectService.records), KeyIs(ProjectModel.Key, id),
                                  u.(milestones := Some(WrittenBack(u.milestones.value, newIds))))
                   else
                     r == Faulted(true) && projectService.records == old(projectService.records)
      ensures ListsPresent(old(projectService.records)) ==> ListsPresent(projectService.records)
    {
      var project := ProjectService.GetById(projectService.records, id);
      if project.None? {
        return Failed("Project not exists");
      }
      if updatedProject.None? {
        return Faulted(true);
      }
      var u := updatedProject.value;
      if IsMissingProperties(u) {
        return Failed("Project property is missing");
      }
      if project.value.milestones.None? {
        return Faulted(true);
      }
      var milestones := MilestoneService.GetByProjectId(milestoneService.records, id);
      var list := InsertIdless(u.milestones.value, milestones, newIds);
      ghost var projectsBefore := projectService.records;
      var ok := projectService.ReplaceOne(id, u.(milestones := Some(list)));
      if !ok {
        return Faulted(true);
      }
      if ListsPresent(projectsBefore) {
        ReplaceKeepsListsPresent(projectsBefore, id, u.(milestones := Some(list)));
      }
      return Succeeded("Project updated");
    }

    /** The insert loop of `UpdateProject`: every inbound milestone the guard admits is inserted
        under the fresh id of its position, which the driver writes back into the list. */
    method InsertIdless(inbound: seq<Milestone>, milestones: seq<Milestone>, newIds: seq<string>)
      returns (list: seq<Milestone>)
      requires Valid() && |newIds| == |inbound| && FreshIds(newIds, milestoneService.records)
      modifies milestoneService
      ensures Valid()
      ensures list == WrittenBack(inbound, newIds)
      ensures milestoneService.records == old(milestoneService.records) + Inserted(inbound, newIds)
    {
      ghost var before := milestoneService.records;
      list := inbound;
      for i := 0 to |inbound|
        invariant |list| == |inbound|
        invariant forall k :: 0 <= k < i ==> list[k] == Stamped(inbound[k], newIds[k])
        invariant forall k :: i <= k < |inbound| ==> list[k] == inbound[k]
        invariant milestoneService.records == before + Inserted(inbound[..i], newIds[..i])
        invariant milestoneService.Valid()
      {
        InsertedStep(inbound, newIds, i);
        var guard := InsertGuard(list[i], milestones);
        if guard.value {
          var m := list[i].(id := Some(newIds[i]));
          NextIdIsFresh(before, inbound, newIds, i);
          var inserted := milestoneService.InsertOne(m);
          list := list[i := m];
        }
      }
      assert inbound[..|inbound|] == inbound && newIds[..|newIds|] == newIds;
    }

    /** The cascade loop of `DeleteProject`: deletes the milestones `ts` one by one, by id. */
    method DeleteEach(ts: seq<Milestone>)
      requires Valid() && forall k :: 0 <= k < |ts| ==> ts[k] in milestoneService.records
      modifies milestoneService
      ensures Valid()
      ensures milestoneService.records == Filter(old(milestoneService.records), NotAmong(ts))
    {
      ghost var before := milestoneService.records;
      FilterKeepsAll(before, NotAmong(ts[..0]));
      for i := 0 to |ts|
        invariant milestoneService.Valid()
        invariant milestoneService.records == Filter(before, NotAmong(ts[..i]))
      {
        assert ts[i] in before;
        milestoneService.DeleteOne(ts[i].id.value);
        DeleteStep(before, ts, i);
      }
      assert ts[..|ts|] == ts;
    }

    /** `DeleteProject`: rejects an unknown id; otherwise removes the project, then each
        milestone `GetByProjectId` returns, one `DeleteMilestone` at a time. */
    method DeleteProject(id: string) returns (r: Response)
      requires Valid()
      modifies projectService, milestoneService
      ensures Valid()
      ensures ProjectService.GetById(old(projectService.records), id).None? ==>
                && r == Failed("Project not exists")
                && projectService.records == old(projectService.records)
                && milestoneService.records == old(milestoneService.records)
      ensures ProjectService.GetById(old(projectService.records), id).Some? ==>
                && r == Succeeded("Project removed")
                && projectService.records == Filter(old(projectService.records), KeyIsNot(ProjectModel.Key, id))
                && milestoneService.records == Filter(old(milestoneService.records), Unreferencing(id))
      ensures ReferencesResolve(old(projectService.records), old(milestoneService.records)) ==>
                ReferencesResolve(projectService.records, milestoneService.records)
    {
      if ProjectService.GetById(projectService.records, id).None? {
        return Failed("Project not exists");
      }
      ghost var projectsBefore := projectService.records;
      projectService.DeleteOne(id);
      ghost var before := milestoneService.records;
      var projectMilestones := MilestoneService.GetByProjectId(milestoneService.records, id);
      DeleteEach(projectMilestones);
      DeletingByIdRemovesTheReferencing(before, id);
      if ReferencesResolve(projectsBefore, before) {
        DeleteKeepsReferencesResolved(projectsBefore, before, id);
      }
      return Succeeded("Project removed");
    }
  }
}
