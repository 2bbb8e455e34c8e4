/** `MemberController`: the guarded create, update and delete handlers over the member store. */
module MemberController {
  import opened Wrappers
  import opened Sequences
  import opened Responses
  import opened MemberModel
  import opened Store
  import MemberService

  /** The create-time duplicate test: some stored member is `==` to `m`. */
  predicate IsDuplicate(ms: seq<Member>, m: Member) {
    exists i :: 0 <= i < |ms| && OpEquals(ms[i], Some(m))
  }

  /** The update-time duplicate test: some stored member is `==` to `m` and carries an id other
      than `m`'s own (the body's id, not the route id). */
  predicate IsDuplicateOfOther(ms: seq<Member>, m: Member) {
    exists i :: 0 <= i < |ms| && OpEquals(ms[i], Some(m)) && ms[i].id != m.id
  }

  /** The store invariant the handlers keep: no two distinct stored members are `==`. */
  ghost predicate NoDuplicates(ms: seq<Member>) {
    forall x, y :: x in ms && y in ms && x != y ==> !OpEquals(x, Some(y))
  }

  /** Adding a member that is not a duplicate keeps the store free of duplicates, whatever id it
      receives. */
  lemma CreateKeepsNoDuplicates(ms: seq<Member>, m: Member, id: string)
    requires NoDuplicates(ms) && !IsDuplicate(ms, m)
    ensures NoDuplicates(ms + [m.(id := Some(id))])
  {
    var m' := m.(id := Some(id));
    forall x | x in ms
      ensures !OpEquals(x, Some(m')) && !OpEquals(m', Some(x))
    {
      var i :| 0 <= i < |ms| && ms[i] == x;
      assert !OpEquals(ms[i], Some(m));
      EqualityIsAnEquivalence(x, m', x);
    }
  }

  /** Replacing the record with id `id` by a body carrying that id, which no other stored
      member equals, keeps the store free of duplicates. */
  lemma UpdateKeepsNoDuplicates(ms: seq<Member>, k: int, u: Member)
    requires KeysUnique(ms, Key) && NoDuplicates(ms)
    requires 0 <= k < |ms| && u.id == ms[k].id && !IsDuplicateOfOther(ms, u)
    ensures NoDuplicates(ms[k := u])
  {
    var ms' := ms[k := u];
    forall x, y | x in ms' && y in ms' && x != y
      ensures !OpEquals(x, Some(y))
    {
      var i :| 0 <= i < |ms'| && ms'[i] == x;
      var j :| 0 <= j < |ms'| && ms'[j] == y;
      if i == k {
        assert x == u;
        assert j != k && y == ms[j] && y.id != u.id;
        assert !OpEquals(ms[j], Some(u));
        EqualityIsAnEquivalence(x, y, x);
      } else if j == k {
        assert x == ms[i] && x.id != u.id;
        assert !OpEquals(ms[i], Some(u));
      } else {
        assert x == ms[i] && y == ms[j];
        assert x in ms && y in ms;
      }
    }
  }

  /** Removing records keeps the store free of duplicates. */
  lemma FilterKeepsNoDuplicates(ms: seq<Member>, p: Member -> bool)
    requires NoDuplicates(ms)
    ensures NoDuplicates(Filter(ms, p))
  {
  }

  class MemberController {
    const memberService: Collection<Member>

    /** The controller works on a valid member store keyed by member id. */
    ghost predicate Valid()
      reads this, memberService
    {
      memberService.key == Key && memberService.Valid()
    }

    constructor(memberService: Collection<Member>)
      requires memberService.key == Key
      ensures this.memberService == memberService
    {
      this.memberService := memberService;
    }

    /** `CreateMember`: rejects a null body, a body with a null name and a duplicate, in that
        order; otherwise inserts the member under the id it carries, or under the generated
        `newId` when that is null or empty. An id already stored makes the insert fail with a
        duplicate-key error, which the handler does not catch. */
    method CreateMember(newMember: Option<Member>, newId: string) returns (r: Response)
      requires Valid() && FreshKey(memberService.records, Key, newId)
      modifies memberService
      ensures Valid()
      ensures newMember.None? ==>
                r == Failed("Member is null") && memberService.records == old(memberService.records)
      ensures newMember.Some? && IsMissingProperties(newMember.value) ==>
                r == Failed("Member property is missing") &&
                memberService.records == old(memberService.records)
      ensures newMember.Some? && !IsMissingProperties(newMember.value) && IsDuplicate(old(memberService.records), newMember.value) ==>
                r == Failed("Member-Duplicate not allowed") &&
                memberService.records == old(memberService.records)
      ensures newMember.Some? && !IsMissingProperties(newMember.value) && !IsDuplicate(old(memberService.records), newMember.value) ==>
                var id := AssignedId(newMember.value.id, newId);
                if FreshKey(old(memberService.records), Key, id) then
                  r == Created(id) &&
                  memberService.records == old(memberService.records) + [newMember.value.(id := Some(id))]
                else
                  r == Faulted(false) && memberService.records == old(memberService.records)
      ensures NoDuplicates(old(memberService.records)) ==> NoDuplicates(memberService.records)
    {
      if newMember.None? {
        return Failed("Member is null");
      }
      if IsMissingProperties(newMember.value) {
        return Failed("Member property is missing");
      }
      var m := newMember.value;
      if IsDuplicate(memberService.records, m) {
        return Failed("Member-Duplicate not allowed");
      }
      var id := AssignedId(m.id, newId);
      if NoDuplicates(memberService.records) {
        CreateKeepsNoDuplicates(memberService.records, m, id);
      }
      var ok := memberService.InsertOne(m.(id := Some(id)));
      if !ok {
        return Faulted(false);
      }
      return Created(id);
    }

    /** `UpdateMember`: rejects an unknown route id, a body with a null name and a body equal to
        another stored member, in that order; otherwise replaces the record, which the store
        refuses (a caught fault) when the body's id differs from the route id. A null body makes
        the missing-properties test throw, and the fault is caught. */
    method UpdateMember(id: string, updatedMember: Option<Member>) returns (r: Response)
      requires Valid()
      modifies memberService
      ensures Valid()
      ensures MemberService.GetById(old(memberService.records), id).None? ==>
                r == Failed("Member not exists") && memberService.records == old(memberService.records)
      ensures MemberService.GetById(old(memberService.records), id).Some? && updatedMember.None? ==>
                r == Faulted(true) && memberService.records == old(memberService.records)
      ensures MemberService.GetById(old(memberService.records), id).Some? && updatedMember.Some? &&
              IsMissingProperties(updatedMember.value) ==>
                r == Failed("Member property is missing") &&
                memberService.records == old(memberService.records)
      ensures MemberService.GetById(old(memberService.records), id).Some? && updatedMember.Some? &&
              !IsMissingProperties(updatedMember.value) ==>
                if IsDuplicateOfOther(old(memberService.records), updatedMember.value) then
                  r == Failed("Member-Duplicate not allowed") &&
                  memberService.records == old(memberService.records)
                else if updatedMember.value.id != Some(id) then
                  r == Faulted(true) && memberService.records == old(memberService.records)
                else
                  r == Succeeded("Member updated") &&
                  memberService.records == ReplaceFirst(old(memberService.records), KeyIs(Key, id), updatedMember.value)
      ensures r == Succeeded("Member updated") ==> updatedMember.Some? && updatedMember.value.id == Some(id)
      ensures NoDuplicates(old(memberService.records)) ==> NoDuplicates(memberService.records)
    {
      if MemberService.GetById(memberService.records, id).None? {
        return Failed("Member not exists");
      }
      if updatedMember.None? {
        return Faulted(true);
      }
      if IsMissingProperties(updatedMember.value) {
        return Failed("Member property is missing");
      }
      var u := updatedMember.value;
      if IsDuplicateOfOther(memberService.records, u) {
        return Failed("Member-Duplicate not allowed");
      }
      ghost var before := memberService.records;
      var ok := memberService.ReplaceOne(id, u);
      if !ok {
        return Faulted(true);
      }
      ghost var k :| 0 <= k < |before| && before[k].id == Some(id);
      assert FirstMatchAt(before, KeyIs(Key, id), k);
      if NoDuplicates(before) {
        UpdateKeepsNoDuplicates(before, k, u);
      }
      return Succeeded("Member updated");
    }

    /** `DeleteMember`: rejects an unknown id; otherwise removes exactly that member. Milestones
        that embed a copy of it are not touched. */
    method DeleteMember(id: string) returns (r: Response)
      requires Valid()
      modifies memberService
      ensures Valid()
      ensures MemberService.GetById(old(memberService.records), id).None? ==>
                r == Failed("Member not exists") && memberService.records == old(memberService.records)
      ensures MemberService.GetById(old(memberService.records), id).Some? ==>
                r == Succeeded("Member removed") &&
                memberService.records == Filter(old(memberService.records), (m: Member) => m.id != Some(id))
      ensures NoDuplicates(old(memberService.records)) ==> NoDuplicates(memberService.records)
    {
      if MemberService.GetById(memberService.records, id).None? {
        return Failed("Member not exists");
      }
      ghost var before := memberService.records;
      memberService.DeleteOne(id);
      FilterCongruent(before, KeyIsNot(Key, id), (m: Member) => m.id != Some(id));
      if NoDuplicates(before) {
        FilterKeepsNoDuplicates(before, (m: Member) => m.id != Some(id));
      }
      return Succeeded("Member removed");
    }
  }
}
