/** The Member entity: a first and last name with an id assigned by the store.
    Members are also embedded by value inside milestones. */
module MemberModel {
  import opened Wrappers
  import Hashing

  datatype Member = Member(id: Option<string>, firstname: Option<string>, lastname: Option<string>)

  /** The id accessor, the store's key. */
  function Key(m: Member): Option<string> {
    m.id
  }

  /** `Member.IsMissingProperties` on a member: a null name. Empty names are accepted. Its
      `m == null` test goes through the overloaded `operator==`, which is false for a member and
      dereferences a null argument, so callers treat a null body as an exception. */
  predicate IsMissingProperties(m: Member) {
    m.firstname.None? || m.lastname.None?
  }

  /** `Member.Equals(object)`, receiver `self` and argument `other`. */
  predicate Equals(self: Member, other: Option<Member>)
    ensures Equals(self, other) <==>
              && !IsMissingProperties(self)
              && other.Some?
              && self.(id := other.value.id) == other.value
  {
    && other.Some?
    && self.firstname.Some?
    && self.lastname.Some?
    && self.firstname == other.value.firstname
    && self.lastname == other.value.lastname
  }

  /** `Member.GetHashCode`: combines the two name lengths only. */
  function GetHashCode(self: Member): int
    requires self.firstname.Some? && self.lastname.Some?
  {
    Hashing.Combine([|self.firstname.value|, |self.lastname.value|])
  }

  /** `operator==(m1, m2)`: `Equals` and equal hash codes. */
  predicate OpEquals(m1: Member, m2: Option<Member>) {
    Equals(m1, m2) && GetHashCode(m1) == GetHashCode(m2.value)
  }

  /** `operator!=(m1, m2)`. */
  predicate OpNotEquals(m1: Member, m2: Option<Member>) {
    !(Equals(m1, m2) && GetHashCode(m1) == GetHashCode(m2.value))
  }

  /** Equal members always have equal hash codes, so `==` is exactly `Equals`, and `!=` is
      exactly its negation. */
  lemma OperatorsAgreeWithEquals(m1: Member, m2: Option<Member>)
    ensures OpEquals(m1, m2) <==> Equals(m1, m2)
    ensures OpNotEquals(m1, m2) <==> !OpEquals(m1, m2)
  {
  }

  /** Two members whose names are equal are `==`, whatever their ids. */
  lemma EqualityIgnoresId(m: Member, n: Member, a: Option<string>, b: Option<string>)
    requires !IsMissingProperties(m)
    requires m.firstname == n.firstname && m.lastname == n.lastname
    ensures OpEquals(m.(id := a), Some(n.(id := b)))
  {
  }

  /** A null argument is never equal, nor is a receiver with a null name. */
  lemma EqualsRejectsNull(m: Member, n: Option<Member>)
    ensures !Equals(m, None)
    ensures IsMissingProperties(m) ==> !Equals(m, n)
  {
  }

  /** `==` is reflexive on complete members, symmetric always, and transitive. */
  lemma EqualityIsAnEquivalence(a: Member, b: Member, c: Member)
    ensures !IsMissingProperties(a) ==> OpEquals(a, Some(a))
    ensures OpEquals(a, Some(b)) <==> OpEquals(b, Some(a))
    ensures OpEquals(a, Some(b)) && OpEquals(b, Some(c)) ==> OpEquals(a, Some(c))
  {
  }

  /** A member is `==` to another exactly when both are complete and their names agree
      character by character, case-sensitively. */
  lemma EqualsComparesNamesExactly(m: Member, n: Member)
    ensures OpEquals(m, Some(n)) <==>
              m.firstname.Some? && m.lastname.Some? &&
              m.firstname == n.firstname && m.lastname == n.lastname
  {
  }
}
