/** `MilestoneController`: creating, updating and deleting milestones, guarded by referential
    checks against the project and member stores. */
module MilestoneController {
  import opened Wrappers
  import opened Sequences
  import opened Responses
  import opened MilestoneModel
  import opened Store
  import MemberModel
  import ProjectModel
  import MilestoneService

  /** `projects.Exists(project => project.Id.Equals(reference))`. */
  predicate ProjectExists(ps: seq<ProjectModel.Project>, reference: Option<string>) {
    reference.Some? && exists i :: 0 <= i < |ps| && ps[i].id == reference
  }

  /** `members.Exists(member => e.Id == member.Id && e == member)`: an embedded member resolves
      when a stored member carries its id and is `==` to it. */
  predicate MemberResolves(e: MemberModel.Member, members: seq<MemberModel.Member>) {
    exists j :: 0 <= j < |members| && e.id == members[j].id && MemberModel.OpEquals(e, Some(members[j]))
  }

  /** The loop that clears `memebrExists` at the first embedded member that does not resolve. */
  method AllMembersExist(embedded: seq<MemberModel.Member>, members: seq<MemberModel.Member>)
    returns (exist: bool)
    ensures exist <==> forall i :: 0 <= i < |embedded| ==> MemberResolves(embedded[i], members)
  {
    exist := true;
    var i := 0;
    while i < |embedded|
      invariant 0 <= i <= |embedded|
      invariant forall k :: 0 <= k < i ==> MemberResolves(embedded[k], members)
    {
      if !MemberResolves(embedded[i], members) {
        exist := false;
        break;
      }
      i := i + 1;
    }
  }

  /** `milestones.Exists(milestone => milestone == newMilestone)`; a stored milestone with a null
      field makes `==` throw. */
  function DuplicateOnCreate(ms: seq<Milestone>, m: Milestone): Eval<bool> {
    ExistsEval(ms, (x: Milestone) => OpEquals(x, Some(m)))
  }

  /** The update-time test: `milestone == updated && milestone.Id != updated.Id`. */
  function EqualWithOtherId(x: Milestone, u: Milestone): Eval<bool> {
    match OpEquals(x, Some(u))
    case Throws => Throws
    case Value(same) => Value(same && x.id != u.id)
  }

  function DuplicateOnUpdate(ms: seq<Milestone>, u: Milestone): Eval<bool> {
    ExistsEval(ms, (x: Milestone) => EqualWithOtherId(x, u))
  }

  /** The outcome of `CreateMilestone`; its checks run in this order and the first failing one
      decides. The handler has no `try`, so an exception (a null body reaching the
      missing-properties test, a stored milestone whose comparison throws, the store's
      duplicate-key error for an id already taken) is an unhandled fault. */
  function CreateVerdict(ms: seq<Milestone>, ps: seq<ProjectModel.Project>,
                         members: seq<MemberModel.Member>, newMilestone: Option<Milestone>,
                         newId: string): Response
  {
    if newMilestone.None? then Faulted(false)
    else if IsMissingProperties(newMilestone.value) then Failed("Milestone property is missing")
    else
      var m := newMilestone.value;
      if !ProjectExists(ps, m.projectReference) then Failed("Project not exists")
      else match DuplicateOnCreate(ms, m)
        case Throws => Faulted(false)
        case Value(dup) =>
          if dup then Failed("Milestone-Duplicate not allowed")
          else if !forall i :: 0 <= i < |m.members.value| ==> MemberResolves(m.members.value[i], members)
          then Failed("Member/s not exists")
          else if m.start > m.end then Failed("Invalid Start Date")
          else
            var id := AssignedId(m.id, newId);
            if exists i :: 0 <= i < |ms| && ms[i].id == Some(id) then Faulted(false)
            else Created(id)
  }

  /** The outcome of `UpdateMilestone`. Project and member checks come before the
      missing-properties check, so a null body or a null member list throws there; every
      exception, including the store's refusal to change the id, is caught. */
  function UpdateVerdict(ms: seq<Milestone>, ps: seq<ProjectModel.Project>,
                         members: seq<MemberModel.Member>, id: string,
                         updatedMilestone: Option<Milestone>): Response
  {
    if MilestoneService.GetById(ms, id).None? then Failed("Milestone not exists")
    else if updatedMilestone.None? then
      (if |ps| > 0 then Faulted(true) else Failed("Project not exists"))
    else
      var u := updatedMilestone.value;
      if !ProjectExists(ps, u.projectReference) then Failed("Project not exists")
      else if u.members.None? then Faulted(true)
      else if !forall i :: 0 <= i < |u.members.value| ==> MemberResolves(u.members.value[i], members)
      then Failed("Member/s not exists")
      else if IsMissingProperties(u) then Failed("Milestone property is missing")
      else match DuplicateOnUpdate(ms, u)
        case Throws => Faulted(true)
        case Value(dup) =>
          if dup then Failed("Milestone-Duplicate not allowed")
          else if u.start > u.end then Failed("Invalid Start Date")
          else if u.id != Some(id) then Faulted(true)
          else Succeeded("Milestone updated")
  }

  /** A create succeeds exactly when the milestone is complete, its project exists, no stored
      milestone equals it, every embedded member resolves, it does not start after it ends (a
      milestone that starts when it ends is accepted) and the id it is stored under, its own or
      the generated one, is not taken. */
  lemma CreateSucceedsExactlyWhenValid(ms: seq<Milestone>, ps: seq<ProjectModel.Project>,
                                       members: seq<MemberModel.Member>, m: Milestone, newId: string)
    ensures CreateVerdict(ms, ps, members, Some(m), newId).Created? <==>
              && !IsMissingProperties(m)
              && ProjectExists(ps, m.projectReference)
              && (forall i :: 0 <= i < |ms| ==> OpEquals(ms[i], Some(m)) == Value(false))
              && (forall i :: 0 <= i < |m.members.value| ==> MemberResolves(m.members.value[i], members))
              && m.start <= m.end
              && FreshKey(ms, Key, AssignedId(m.id, newId))
    ensures CreateVerdict(ms, ps, members, Some(m), newId).Created? ==>
              CreateVerdict(ms, ps, members, Some(m), newId).id == AssignedId(m.id, newId)
  {
  }

  /** An update succeeds exactly when the route id exists, the body is complete, carries the
      route id, references an existing project, has only resolving members, equals no stored
      milestone with another id and does not start after it ends. */
  lemma UpdateSucceedsExactlyWhenValid(ms: seq<Milestone>, ps: seq<ProjectModel.Project>,
                                       members: seq<MemberModel.Member>, id: string, u: Milestone)
    ensures UpdateVerdict(ms, ps, members, id, Some(u)) == Succeeded("Milestone updated") <==>
              && MilestoneService.GetById(ms, id).Some?
              && !IsMissingProperties(u)
              && u.id == Some(id)
              && ProjectExists(ps, u.projectReference)
              && (forall i :: 0 <= i < |u.members.value| ==> MemberResolves(u.members.value[i], members))
              && (forall i :: 0 <= i < |ms| ==> EqualWithOtherId(ms[i], u) == Value(false))
              && u.start <= u.end
  {
  }

  /** After a successful update the body's id is the route id, so the duplicate check exempted
      exactly the record being replaced: with unique ids, every other stored milestone is
      unequal to the new value. */
  lemma UpdateExemptsOnlyTheReplacedRecord(ms: seq<Milestone>, ps: seq<ProjectModel.Project>,
                                           members: seq<MemberModel.Member>, id: string, u: Milestone)
    requires KeysUnique(ms, Key)
    requires UpdateVerdict(ms, ps, members, id, Some(u)) == Succeeded("Milestone updated")
    ensures forall i :: 0 <= i < |ms| && ms[i].id != Some(id) ==> OpEquals(ms[i], Some(u)) == Value(false)
  {
    UpdateSucceedsExactlyWhenValid(ms, ps, members, id, u);
    forall i | 0 <= i < |ms| && ms[i].id != Some(id)
      ensures OpEquals(ms[i], Some(u)) == Value(false)
    {
      assert EqualWithOtherId(ms[i], u) == Value(false);
    }
  }

  class MilestoneController {
    const milestoneService: Collection<Milestone>
    const projectService: Collection<ProjectModel.Project>
    const memberService: Collection<MemberModel.Member>

    /** The controller works on a valid milestone store keyed by milestone id. */
    ghost predicate Valid()
      reads this, milestoneService
    {
      milestoneService.key == Key && milestoneService.Valid()
    }

    constructor(milestoneService: Collection<Milestone>, projectService: Collection<ProjectModel.Project>,
                memberService: Collection<MemberModel.Member>)
      ensures this.milestoneService == milestoneService
      ensures this.projectService == projectService && this.memberService == memberService
    {
      this.milestoneService := milestoneService;
      this.projectService := projectService;
      this.memberService := memberService;
    }

    /** `CreateMilestone`: on success exactly one milestone, under the id it carries or else the
        generated one, is added; on every failure nothing changes. */
    method CreateMilestone(newMilestone: Option<Milestone>, newId: string) returns (r: Response)
      requires Valid() && FreshKey(milestoneService.records, Key, newId)
      modifies milestoneService
      ensures Valid()
      ensures r == CreateVerdict(old(milestoneService.records), projectService.records,
                                 memberService.records, newMilestone, newId)
      ensures r.Created? ==>
                milestoneService.records == old(milestoneService.records) + [newMilestone.value.(id := Some(r.id))]
      ensures !r.Created? ==> milestoneService.records == old(milestoneService.records)
    {
      var milestones := milestoneService.records;
      var projects := projectService.records;
      if newMilestone.None? {
        return Faulted(false);
      }
      if IsMissingProperties(newMilestone.value) {
        return Failed("Milestone property is missing");
      }
      var m := newMilestone.value;
      if !ProjectExists(projects, m.projectReference) {
        return Failed("Project not exists");
      }
      var dup := DuplicateOnCreate(milestones, m);
      if dup.Throws? {
        return Faulted(false);
      }
      if dup.value {
        return Failed("Milestone-Duplicate not allowed");
      }
      var exist := AllMembersExist(m.members.value, memberService.records);
      if !exist {
        return Failed("Member/s not exists");
      }
      if m.start > m.end {
        return Failed("Invalid Start Date");
      }
      var id := AssignedId(m.id, newId);
      var ok := milestoneService.InsertOne(m.(id := Some(id)));
      if !ok {
        return Faulted(false);
      }
      return Created(id);
    }

    /** `UpdateMilestone`: on success only the record with the route id is replaced; on every
        failure nothing changes. */
    method UpdateMilestone(id: string, updatedMilestone: Option<Milestone>) returns (r: Response)
      requires Valid()
      modifies milestoneService
      ensures Valid()
      ensures r == UpdateVerdict(old(milestoneService.records), projectService.records,
                                 memberService.records, id, updatedMilestone)
      ensures r.Succeeded? ==>
                milestoneService.records ==
                ReplaceFirst(old(milestoneService.records), KeyIs(Key, id), updatedMilestone.value)
      ensures !r.Succeeded? ==> milestoneService.records == old(milestoneService.records)
    {
      if MilestoneService.GetById(milestoneService.records, id).None? {
        return Failed("Milestone not exists");
      }
      var projects := projectService.records;
      if updatedMilestone.None? {
        if |projects| > 0 {
          return Faulted(true);
        }
        return Failed("Project not exists");
      }
      var u := updatedMilestone.value;
      if !ProjectExists(projects, u.projectReference) {
        return Failed("Project not exists");
      }
      if u.members.None? {
        return Faulted(true);
      }
      var exist := AllMembersExist(u.members.value, memberService.records);
      if !exist {
        return Failed("Member/s not exists");
      }
      if IsMissingProperties(u) {
        return Failed("Milestone property is missing");
      }
      var dup := DuplicateOnUpdate(milestoneService.records, u);
      if dup.Throws? {
        return Faulted(true);
      }
      if dup.value {
        return Failed("Milestone-Duplicate not allowed");
      }
      if u.start > u.end {
        return Failed("Invalid Start Date");
      }
      var ok := milestoneService.ReplaceOne(id, u);
      if !ok {
        return Faulted(true);
      }
      return Succeeded("Milestone updated");
    }

    /** `DeleteMilestone`: rejects an unknown id; otherwise removes exactly that milestone. */
    method DeleteMilestone(id: string) returns (r: Response)
      requires Valid()
      modifies milestoneService
      ensures Valid()
      ensures MilestoneService.GetById(old(milestoneService.records), id).None? ==>
                r == Failed("Milestone not exists") &&
                milestoneService.records == old(milestoneService.records)
      ensures MilestoneService.GetById(old(milestoneService.records), id).Some? ==>
                r == Succeeded("Milestone removed") &&
                milestoneService.records == Filter(old(milestoneService.records), KeyIsNot(Key, id))
    {
      if MilestoneService.GetById(milestoneService.records, id).None? {
        return Failed("Milestone not exists");
      }
      milestoneService.DeleteOne(id);
      return Succeeded("Milestone removed");
    }
  }
}
