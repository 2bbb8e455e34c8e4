/** The Project entity: a named, dated container whose milestones are stored separately and
    re-attached on read. */
module ProjectModel {
  import opened Wrappers
  import opened Clock
  import MilestoneModel
  import Hashing

  datatype Project = Project(
    id: Option<string>,
    name: Option<string>,
    start: DateTime,
    end: DateTime,
    milestones: Option<seq<MilestoneModel.Milestone>>)

  /** The id accessor, the store's key. */
  function Key(p: Project): Option<string> {
    p.id
  }

  /** A freshly constructed (or deserialised, where the body omits a field) project: no id, no
      name, the two sentinel dates and an empty milestone list. */
  function New(): Project {
    Project(None, None, ProjectDefaultStart, ProjectDefaultEnd, Some([]))
  }

  /** `Project.IsMissingProperties` on a project: a null name or a null milestone list; dates are
      never flagged. Its `p == null` test goes through the overloaded `operator==`, which is false
      for a project and dereferences a null argument. */
  predicate IsMissingProperties(p: Project) {
    p.name.None? || p.milestones.None?
  }

  /** The boolean expression that opens `Project.Equals`: `this.Name` is dereferenced first, both
      `Milestones` lists last. */
  function FieldsEqual(self: Project, o: Project): Eval<bool> {
    if self.name.None? then Throws
    else if self.name != o.name then Value(false)
    else if Millisecond(self.start) != Millisecond(o.start) then Value(false)
    else if Millisecond(self.end) != Millisecond(o.end) then Value(false)
    else if self.milestones.None? || o.milestones.None? then Throws
    else Value(|self.milestones.value| == |o.milestones.value|)
  }

  /** The `found &= a[i] == b[i]` loop over milestones: `&=` does not short-circuit, so every
      pair is compared and any comparison that throws makes the whole loop throw. */
  function PairwiseEqual(a: seq<MilestoneModel.Milestone>, b: seq<MilestoneModel.Milestone>): Eval<bool>
    requires |a| == |b|
  {
    if exists i :: 0 <= i < |a| && MilestoneModel.OpEquals(a[i], Some(b[i])).Throws? then Throws
    else Value(forall i :: 0 <= i < |a| ==> MilestoneModel.OpEquals(a[i], Some(b[i])) == Value(true))
  }

  /** What `Project.Equals(object)` evaluates to. */
  function EqualsSpec(self: Project, other: Option<Project>): Eval<bool> {
    if other.None? then Value(false)
    else match FieldsEqual(self, other.value)
      case Throws => Throws
      case Value(same) =>
        if !same then Value(false)
        else PairwiseEqual(self.milestones.value, other.value.milestones.value)
  }

  /** `Project.Equals(object)`: the field comparison, then the loop over both milestone lists. */
  method Equals(self: Project, other: Option<Project>) returns (r: Eval<bool>)
    ensures r == EqualsSpec(self, other)
  {
    if other.None? {
      return Value(false);
    }
    var fields := FieldsEqual(self, other.value);
    if fields.Throws? {
      return Throws;
    }
    if !fields.value {
      return Value(false);
    }
    var mine, theirs := self.milestones.value, other.value.milestones.value;
    var found := true;
    var i := 0;
    while i < |theirs|
      invariant 0 <= i <= |theirs|
      invariant forall k :: 0 <= k < i ==> MilestoneModel.OpEquals(mine[k], Some(theirs[k])).Value?
      invariant found <==> forall k :: 0 <= k < i ==> MilestoneModel.OpEquals(mine[k], Some(theirs[k])) == Value(true)
    {
      var same := MilestoneModel.OpEquals(mine[i], Some(theirs[i]));
      if same.Throws? {
        return Throws;
      }
      found := found && same.value;
      i := i + 1;
    }
    return Value(found);
  }

  /** `Project.GetHashCode`: the name length and the two millisecond components. */
  function GetHashCode(self: Project): int
    requires self.name.Some?
  {
    Hashing.Combine([|self.name.value|, Millisecond(self.start), Millisecond(self.end)])
  }

  /** `operator==(p1, p2)`: plain `Equals`, without the hash. */
  function OpEquals(p1: Project, p2: Option<Project>): Eval<bool> {
    EqualsSpec(p1, p2)
  }

  /** `operator!=(p1, p2)`. */
  function OpNotEquals(p1: Project, p2: Option<Project>): Eval<bool> {
    match EqualsSpec(p1, p2)
    case Throws => Throws
    case Value(same) => Value(!same)
  }

  /** `Equals` and `GetHashCode` agree: equal projects hash alike. */
  lemma EqualProjectsHashAlike(p: Project, q: Project)
    requires EqualsSpec(p, Some(q)) == Value(true)
    ensures p.name.Some? && q.name.Some? && GetHashCode(p) == GetHashCode(q)
  {
  }

  /** `==` and `!=` are complementary: exactly one holds unless the comparison throws. */
  lemma OperatorsAreComplementary(p1: Project, p2: Option<Project>)
    ensures OpEquals(p1, p2).Throws? <==> OpNotEquals(p1, p2).Throws?
    ensures OpEquals(p1, p2) == Value(true) <==> OpNotEquals(p1, p2) == Value(false)
    ensures OpEquals(p1, p2) == Value(false) <==> OpNotEquals(p1, p2) == Value(true)
  {
  }

  /** The id is never compared, and Start and End only by their millisecond component, so moving
      the dates by whole seconds leaves equality unchanged. */
  lemma EqualityIgnoresIdAndWholeSeconds(p: Project, q: Project, a: Option<string>, s: nat, e: nat)
    requires p.start + s * TicksPerSecond <= MaxTicks && p.end + e * TicksPerSecond <= MaxTicks
    ensures EqualsSpec(p.(id := a, start := p.start + s * TicksPerSecond, end := p.end + e * TicksPerSecond),
                       Some(q)) == EqualsSpec(p, Some(q))
  {
    MillisecondIgnoresWholeSeconds(p.start, s);
    MillisecondIgnoresWholeSeconds(p.end, e);
  }

  /** Two complete projects whose milestones are all complete compare without throwing, and the
      result is the position-by-position comparison of their milestones. */
  lemma {:induction false} CompleteProjectsCompare(p: Project, q: Project)
    requires !IsMissingProperties(p) && !IsMissingProperties(q)
    requires forall k :: 0 <= k < |p.milestones.value| ==>
               !MilestoneModel.IsMissingProperties(p.milestones.value[k])
    requires forall k :: 0 <= k < |q.milestones.value| ==>
               !MilestoneModel.IsMissingProperties(q.milestones.value[k])
    ensures EqualsSpec(p, Some(q)).Value?
    ensures EqualsSpec(p, Some(q)) == Value(true) ==> |p.milestones.value| == |q.milestones.value|
  {
    if FieldsEqual(p, q) == Value(true) {
      var a, b := p.milestones.value, q.milestones.value;
      forall i | 0 <= i < |a|
        ensures MilestoneModel.OpEquals(a[i], Some(b[i])).Value?
      {
        MilestoneModel.CompleteMilestonesCompare(a[i], b[i]);
        MilestoneModel.OperatorsAgreeWithEquals(a[i], Some(b[i]));
      }
    }
  }

  /** A default project is missing only its name: naming it gives a complete project on whole-second
      sentinel dates that is equal to itself. */
  lemma NewProjectDefaults(n: string)
    ensures IsMissingProperties(New())
    ensures !IsMissingProperties(New().(name := Some(n)))
    ensures Millisecond(New().start) == 0 && Millisecond(New().end) == 0
    ensures New().start < New().end
    ensures EqualsSpec(New().(name := Some(n)), Some(New().(name := Some(n)))) == Value(true)
  {
    ProjectDefaultsOnWholeSeconds();
  }
}
