/** The derived status of a milestone or project (an enum, so any integer can arrive). */
module Statuses {

  datatype Status = COMPLETED | OPENS | EXPIRED | Undefined(code: int)
}

/** The Milestone entity: a dated, completable step of a project, with embedded member copies. */
module MilestoneModel {
  import opened Wrappers
  import opened Clock
  import MemberModel
  import Hashing

  datatype Milestone = Milestone(
    id: Option<string>,
    projectReference: Option<string>,
    name: Option<string>,
    description: Option<string>,
    start: DateTime,
    end: DateTime,
    isCompleted: Option<bool>,
    members: Option<seq<MemberModel.Member>>)

  /** The id accessor, the store's key. */
  function Key(m: Milestone): Option<string> {
    m.id
  }

  /** `Milestone.IsMissingProperties` on a milestone: a null reference field, an unset completion
      flag, or a date equal to the zero date. Its `m == null` test goes through the overloaded
      `operator==`, which is false for a milestone and dereferences a null argument. */
  predicate IsMissingProperties(m: Milestone) {
    || m.projectReference.None?
    || m.name.None?
    || m.description.None?
    || m.members.None?
    || m.isCompleted.None?
    || m.start == ZeroDate
    || m.end == ZeroDate
  }

  /** The single boolean expression that opens `Milestone.Equals`, evaluated left to right with
      short-circuit: `this.Name`, `this.ProjectReference`, `this.Description` and both `Members`
      lists are dereferenced, so a null one throws once evaluation reaches it. */
  function FieldsEqual(self: Milestone, o: Milestone): Eval<bool> {
    if self.name.None? then Throws
    else if self.name != o.name then Value(false)
    else if self.projectReference.None? then Throws
    else if self.projectReference != o.projectReference then Value(false)
    else if Millisecond(self.start) != Millisecond(o.start) then Value(false)
    else if Millisecond(self.end) != Millisecond(o.end) then Value(false)
    else if self.description.None? then Throws
    else if self.description != o.description then Value(false)
    else if self.isCompleted != o.isCompleted then Value(false)
    else if self.members.None? || o.members.None? then Throws
    else Value(|self.members.value| == |o.members.value|)
  }

  /** Embedded members compared position by position with Member `==`. */
  predicate MembersPairwiseEqual(a: seq<MemberModel.Member>, b: seq<MemberModel.Member>)
    requires |a| == |b|
  {
    forall i :: 0 <= i < |a| ==> MemberModel.OpEquals(a[i], Some(b[i]))
  }

  /** What `Milestone.Equals(object)` evaluates to. */
  function EqualsSpec(self: Milestone, other: Option<Milestone>): Eval<bool> {
    if other.None? then Value(false)
    else match FieldsEqual(self, other.value)
      case Throws => Throws
      case Value(same) =>
        if !same then Value(false)
        else Value(MembersPairwiseEqual(self.members.value, other.value.members.value))
  }

  /** `Milestone.Equals(object)`: the field comparison, then a loop that folds `&=` over the
      embedded members. */
  method Equals(self: Milestone, other: Option<Milestone>) returns (r: Eval<bool>)
    ensures r == EqualsSpec(self, other)
  {
    if other.None? {
      return Value(false);
    }
    var fields := FieldsEqual(self, other.value);
    if fields.Throws? {
      return Throws;
    }
    if !fields.value {
      return Value(false);
    }
    var mine, theirs := self.members.value, other.value.members.value;
    var found := true;
    var i := 0;
    while i < |mine|
      invariant 0 <= i <= |mine|
      invariant found <==> forall k :: 0 <= k < i ==> MemberModel.OpEquals(mine[k], Some(theirs[k]))
    {
      found := found && MemberModel.OpEquals(mine[i], Some(theirs[i]));
      i := i + 1;
    }
    return Value(found);
  }

  /** `Milestone.GetHashCode`: lengths, millisecond components and the member count. */
  function GetHashCode(self: Milestone): int
    requires self.name.Some? && self.projectReference.Some? && self.description.Some?
    requires self.members.Some?
  {
    Hashing.Combine([|self.name.value|, |self.projectReference.value|, Millisecond(self.start),
                     Millisecond(self.end), |self.description.value|, |self.members.value|])
  }

  /** Equal milestones are complete in every field the hash reads. */
  lemma EqualIsHashable(self: Milestone, other: Option<Milestone>)
    requires EqualsSpec(self, other) == Value(true)
    ensures other.Some?
    ensures self.name.Some? && self.projectReference.Some? && self.description.Some?
    ensures self.members.Some?
    ensures other.value.name.Some? && other.value.projectReference.Some?
    ensures other.value.description.Some? && other.value.members.Some?
  {
  }

  /** `operator==(m1, m2)`: `Equals` and equal hash codes; the hash is read only when
      `Equals` holds. */
  function OpEquals(m1: Milestone, m2: Option<Milestone>): Eval<bool> {
    match EqualsSpec(m1, m2)
    case Throws => Throws
    case Value(same) =>
      if !same then Value(false)
      else
        EqualIsHashable(m1, m2);
        Value(GetHashCode(m1) == GetHashCode(m2.value))
  }

  /** `operator!=(m1, m2)`. */
  function OpNotEquals(m1: Milestone, m2: Option<Milestone>): Eval<bool> {
    match OpEquals(m1, m2)
    case Throws => Throws
    case Value(same) => Value(!same)
  }

  /** Equal milestones have equal hash codes, so `==` is exactly `Equals` (throwing exactly when
      it throws) and `!=` is its negation. */
  lemma OperatorsAgreeWithEquals(m1: Milestone, m2: Option<Milestone>)
    ensures OpEquals(m1, m2) == EqualsSpec(m1, m2)
    ensures OpNotEquals(m1, m2) == (if EqualsSpec(m1, m2).Throws? then Throws
                                     else Value(!EqualsSpec(m1, m2).value))
  {
    if EqualsSpec(m1, m2) == Value(true) {
      EqualIsHashable(m1, m2);
      assert |m1.members.value| == |m2.value.members.value|;
    }
  }

  /** Neither the milestones' own ids nor the ids of the members embedded on either side take
      part in equality. */
  lemma EqualityIgnoresIds(m: Milestone, n: Milestone, a: Option<string>, b: Option<string>,
                           ma: seq<MemberModel.Member>, nb: seq<MemberModel.Member>)
    requires m.members.Some? && |ma| == |m.members.value|
    requires forall i :: 0 <= i < |ma| ==> ma[i].(id := None) == m.members.value[i].(id := None)
    requires n.members.Some? && |nb| == |n.members.value|
    requires forall i :: 0 <= i < |nb| ==> nb[i].(id := None) == n.members.value[i].(id := None)
    ensures EqualsSpec(m.(id := a, members := Some(ma)), Some(n.(id := b, members := Some(nb)))) ==
            EqualsSpec(m, Some(n))
  {
    var m', n' := m.(id := a, members := Some(ma)), n.(id := b, members := Some(nb));
    if FieldsEqual(m, n) == Value(true) {
      assert FieldsEqual(m', n') == Value(true);
      forall i | 0 <= i < |ma|
        ensures MemberModel.OpEquals(ma[i], Some(nb[i])) ==
                MemberModel.OpEquals(m.members.value[i], Some(n.members.value[i]))
      {
        MemberModel.OperatorsAgreeWithEquals(ma[i], Some(nb[i]));
        MemberModel.OperatorsAgreeWithEquals(m.members.value[i], Some(n.members.value[i]));
      }
    }
  }

  /** Start and End are compared only by their millisecond component: moving both dates by any
      whole number of seconds (or days) leaves equality unchanged. */
  lemma DatesComparedByMillisecondOnly(m: Milestone, n: Milestone, s: nat, e: nat)
    requires m.start + s * TicksPerSecond <= MaxTicks && m.end + e * TicksPerSecond <= MaxTicks
    ensures EqualsSpec(m.(start := m.start + s * TicksPerSecond, end := m.end + e * TicksPerSecond),
                       Some(n)) == EqualsSpec(m, Some(n))
  {
    MillisecondIgnoresWholeSeconds(m.start, s);
    MillisecondIgnoresWholeSeconds(m.end, e);
  }

  /** Member lists are compared by position: swapping two differently named members makes
      otherwise identical milestones unequal. */
  lemma MemberOrderMatters(m: Milestone, x: MemberModel.Member, y: MemberModel.Member)
    requires !IsMissingProperties(m)
    requires x.firstname.Some? && x.lastname.Some? && x.firstname != y.firstname
    ensures EqualsSpec(m.(members := Some([x, y])), Some(m.(members := Some([y, x])))) == Value(false)
  {
    var a := [x, y];
    var b := [y, x];
    assert !MemberModel.OpEquals(a[0], Some(b[0]));
  }

  /** Two complete milestones compare without throwing; a complete milestone whose embedded
      members are complete is equal to itself. */
  lemma CompleteMilestonesCompare(m: Milestone, n: Milestone)
    requires !IsMissingProperties(m) && !IsMissingProperties(n)
    ensures EqualsSpec(m, Some(n)).Value?
    ensures (forall k :: 0 <= k < |m.members.value| ==> !MemberModel.IsMissingProperties(m.members.value[k]))
            ==> EqualsSpec(m, Some(m)) == Value(true)
  {
  }

  /** An embedded member with a null name makes a milestone unequal even to itself. */
  lemma IncompleteMemberBreaksReflexivity(m: Milestone, k: int)
    requires !IsMissingProperties(m)
    requires 0 <= k < |m.members.value| && MemberModel.IsMissingProperties(m.members.value[k])
    ensures EqualsSpec(m, Some(m)) == Value(false)
  {
    assert !MemberModel.OpEquals(m.members.value[k], Some(m.members.value[k]));
  }
}
