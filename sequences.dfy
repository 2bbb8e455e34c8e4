/** The collection operations the document store offers, as functions on a sequence of records:
    filter (`Find`), first match (`FirstOrDefault`), `DeleteOne` and `ReplaceOne`. */
module Sequences {
  import opened Wrappers

  /** The records satisfying `p`, in store order. */
  function Filter<T(!new)>(s: seq<T>, p: T -> bool): (r: seq<T>)
    ensures |r| <= |s|
    ensures forall x :: x in r <==> x in s && p(x)
    decreases |s|
  {
    if s == [] then []
    else Filter(s[..|s| - 1], p) + (if p(s[|s| - 1]) then [s[|s| - 1]] else [])
  }

  /** One step of a scan that keeps the records satisfying `p`. */
  lemma FilterStep<T(!new)>(s: seq<T>, i: nat, p: T -> bool)
    requires i < |s|
    ensures Filter(s[..i + 1], p) == Filter(s[..i], p) + (if p(s[i]) then [s[i]] else [])
  {
    assert s[..i + 1][..i] == s[..i];
  }

  /** Filtering keeps store order: it distributes over concatenation. */
  lemma {:induction false} FilterAppend<T(!new)>(a: seq<T>, b: seq<T>, p: T -> bool)
    ensures Filter(a + b, p) == Filter(a, p) + Filter(b, p)
    decreases |b|
  {
    if b == [] {
      assert a + b == a;
    } else {
      var front := b[..|b| - 1];
      assert (a + b)[..|a + b| - 1] == a + front;
      FilterAppend(a, front, p);
    }
  }

  /** Filters that agree on every record of `s` select the same records. */
  lemma {:induction false} FilterCongruent<T(!new)>(s: seq<T>, p: T -> bool, q: T -> bool)
    requires forall x :: x in s ==> p(x) == q(x)
    ensures Filter(s, p) == Filter(s, q)
    decreases |s|
  {
    if s != [] {
      FilterCongruent(s[..|s| - 1], p, q);
    }
  }

  /** The conjunction of two filters. */
  function And<T(!new)>(p: T -> bool, q: T -> bool): (r: T -> bool)
    ensures forall x :: r(x) <==> p(x) && q(x)
  {
    x => p(x) && q(x)
  }

  /** Filtering twice is filtering once by the conjunction. */
  lemma {:induction false} FilterFilter<T(!new)>(s: seq<T>, p: T -> bool, q: T -> bool)
    ensures Filter(Filter(s, p), q) == Filter(s, And(p, q))
    decreases |s|
  {
    if s != [] {
      var front := s[..|s| - 1];
      var last := s[|s| - 1];
      FilterFilter(front, p, q);
      FilterAppend(Filter(front, p), if p(last) then [last] else [], q);
      if p(last) {
        assert Filter([last], q) == Filter([], q) + (if q(last) then [last] else []);
      }
    }
  }

  /** A filter every record passes returns the collection unchanged. */
  lemma {:induction false} FilterKeepsAll<T(!new)>(s: seq<T>, p: T -> bool)
    requires forall i :: 0 <= i < |s| ==> p(s[i])
    ensures Filter(s, p) == s
    decreases |s|
  {
    if s != [] {
      FilterKeepsAll(s[..|s| - 1], p);
      assert s[..|s| - 1] + [s[|s| - 1]] == s;
    }
  }

  /** `Find(filter).FirstOrDefault()`: the first record satisfying `p`, or null. */
  function FindFirst<T(!new)>(s: seq<T>, p: T -> bool): (r: Option<T>)
    ensures r.None? <==> forall i :: 0 <= i < |s| ==> !p(s[i])
    ensures r.Some? ==> exists i :: 0 <= i < |s| && s[i] == r.value && p(s[i]) &&
                                    forall j :: 0 <= j < i ==> !p(s[j])
  {
    if s == [] then None
    else if p(s[0]) then Some(s[0])
    else
      var r := FindFirst(s[1..], p);
      assert r.Some? ==> exists i :: 0 <= i < |s| - 1 && s[1..][i] == r.value && p(s[1..][i]) &&
                                     forall j :: 0 <= j < i ==> !p(s[1..][j]);
      assert r.None? ==> forall i :: 1 <= i < |s| ==> s[i] == s[1..][i - 1] && !p(s[i]);
      r
  }

  /** The position of the first record satisfying `p`, when there is one. */
  ghost predicate FirstMatchAt<T(!new)>(s: seq<T>, p: T -> bool, k: int) {
    0 <= k < |s| && p(s[k]) && forall j :: 0 <= j < k ==> !p(s[j])
  }

  /** `DeleteOne(filter)`: removes the first record satisfying `p`, if any. */
  function RemoveFirst<T(!new)>(s: seq<T>, p: T -> bool): (r: seq<T>)
    ensures (forall i :: 0 <= i < |s| ==> !p(s[i])) ==> r == s
    ensures forall k :: FirstMatchAt(s, p, k) ==> r == s[..k] + s[k + 1..]
  {
    if s == [] then []
    else if p(s[0]) then s[1..]
    else
      var r := [s[0]] + RemoveFirst(s[1..], p);
      assert forall k :: FirstMatchAt(s, p, k) ==> k >= 1 && FirstMatchAt(s[1..], p, k - 1);
      r
  }

  /** `ReplaceOne(filter, x)`: overwrites the first record satisfying `p`, if any. */
  function ReplaceFirst<T(!new)>(s: seq<T>, p: T -> bool, x: T): (r: seq<T>)
    ensures |r| == |s|
    ensures (forall i :: 0 <= i < |s| ==> !p(s[i])) ==> r == s
    ensures forall k :: FirstMatchAt(s, p, k) ==> r == s[k := x]
  {
    if s == [] then []
    else if p(s[0]) then [x] + s[1..]
    else
      var r := [s[0]] + ReplaceFirst(s[1..], p, x);
      assert forall k :: FirstMatchAt(s, p, k) ==> k >= 1 && FirstMatchAt(s[1..], p, k - 1);
      r
  }

  /** Every record carries an id, and no two positions carry the same one. */
  ghost predicate KeysUnique<T(!new)>(s: seq<T>, key: T -> Option<string>) {
    && (forall i :: 0 <= i < |s| ==> key(s[i]).Some?)
    && (forall i, j :: 0 <= i < |s| && 0 <= j < |s| && key(s[i]) == key(s[j]) ==> i == j)
  }

  /** The filter selecting the record whose id is `id`. */
  function KeyIs<T(!new)>(key: T -> Option<string>, id: string): (p: T -> bool)
    ensures forall x :: p(x) <==> key(x) == Some(id)
  {
    x => key(x) == Some(id)
  }

  /** The filter keeping every record whose id is not `id`. */
  function KeyIsNot<T(!new)>(key: T -> Option<string>, id: string): (p: T -> bool)
    ensures forall x :: p(x) <==> key(x) != Some(id)
  {
    x => key(x) != Some(id)
  }

  /** An id nothing in the collection carries yet. */
  ghost predicate FreshKey<T(!new)>(s: seq<T>, key: T -> Option<string>, id: string) {
    forall i :: 0 <= i < |s| ==> key(s[i]) != Some(id)
  }

  /** A filter that rejects exactly one position drops that record and keeps the rest in order. */
  lemma {:induction false} FilterDropsOne<T(!new)>(s: seq<T>, k: int, q: T -> bool)
    requires 0 <= k < |s| && !q(s[k])
    requires forall i :: 0 <= i < |s| && i != k ==> q(s[i])
    ensures Filter(s, q) == s[..k] + s[k + 1..]
  {
    var before, after := s[..k], s[k + 1..];
    assert forall i :: 0 <= i < |before| ==> q(before[i]) by {
      forall i | 0 <= i < |before| ensures q(before[i]) { assert before[i] == s[i]; }
    }
    assert forall i :: 0 <= i < |after| ==> q(after[i]) by {
      forall i | 0 <= i < |after| ensures q(after[i]) { assert after[i] == s[k + 1 + i]; }
    }
    assert s[..k + 1][..k] == before;
    assert s == s[..k + 1] + after;
    assert Filter(s[..k + 1], q) == Filter(before, q);
    FilterKeepsAll(before, q);
    FilterKeepsAll(after, q);
    FilterAppend(s[..k + 1], after, q);
    calc {
      Filter(s, q);
      Filter(s[..k + 1] + after, q);
      Filter(s[..k + 1], q) + Filter(after, q);
      before + after;
    }
  }

  /** With unique ids, delete-by-id removes exactly the records carrying that id: all others
      stay, in order. */
  lemma {:induction false} RemoveByUniqueKey<T(!new)>(s: seq<T>, key: T -> Option<string>, id: string)
    requires KeysUnique(s, key)
    ensures RemoveFirst(s, KeyIs(key, id)) == Filter(s, KeyIsNot(key, id))
  {
    var p := KeyIs(key, id);
    var q := KeyIsNot(key, id);
    if k :| 0 <= k < |s| && p(s[k]) {
      assert FirstMatchAt(s, p, k);
      FilterDropsOne(s, k, q);
    } else {
      FilterKeepsAll(s, q);
    }
  }

  /** Appending a record with a fresh id keeps ids unique. */
  lemma AppendFreshKeepsUnique<T(!new)>(s: seq<T>, key: T -> Option<string>, x: T, id: string)
    requires KeysUnique(s, key) && FreshKey(s, key, id) && key(x) == Some(id)
    ensures KeysUnique(s + [x], key)
  {
  }

  /** Overwriting a record by one carrying the same id keeps ids unique. */
  lemma UpdateSameKeyKeepsUnique<T(!new)>(s: seq<T>, key: T -> Option<string>, k: int, x: T)
    requires KeysUnique(s, key) && 0 <= k < |s| && key(x) == key(s[k])
    ensures KeysUnique(s[k := x], key)
  {
  }

  /** Any filter of a collection with unique ids has unique ids. */
  lemma {:induction false} FilterKeepsUnique<T(!new)>(s: seq<T>, key: T -> Option<string>, p: T -> bool)
    requires KeysUnique(s, key)
    ensures KeysUnique(Filter(s, p), key)
    decreases |s|
  {
    if s != [] {
      var front := s[..|s| - 1];
      var last := s[|s| - 1];
      assert KeysUnique(front, key);
      FilterKeepsUnique(front, key, p);
      if p(last) {
        forall y | y in Filter(front, p) ensures key(y) != key(last) {
          var j :| 0 <= j < |front| && front[j] == y;
          assert s[j] == y;
        }
      }
    }
  }

  /** `List.Exists(p)` with a predicate that may throw: scans in order and stops at the first
      record that satisfies `p`; an exception before that point propagates. */
  function ExistsEval<T(!new)>(s: seq<T>, p: T -> Eval<bool>): (r: Eval<bool>)
    ensures r.Throws? ==> exists i :: 0 <= i < |s| && p(s[i]).Throws?
    ensures r == Value(false) <==> forall i :: 0 <= i < |s| ==> p(s[i]) == Value(false)
    ensures r == Value(true) <==>
              exists i :: 0 <= i < |s| && p(s[i]) == Value(true) &&
                          forall j :: 0 <= j < i ==> p(s[j]) == Value(false)
  {
    if s == [] then Value(false)
    else match p(s[0])
      case Throws => Throws
      case Value(b) =>
        if b then Value(true)
        else
          var r := ExistsEval(s[1..], p);
          assert forall i :: 1 <= i < |s| ==> s[i] == s[1..][i - 1];
          assert r == Value(true) ==>
                   exists i :: 0 <= i < |s| - 1 && p(s[1..][i]) == Value(true) &&
                               forall j :: 0 <= j < i ==> p(s[1..][j]) == Value(false);
          r
  }

  /** `Exists` throws when the first record that does not fail the test throws. */
  lemma {:induction false} ExistsEvalThrowsAt<T(!new)>(s: seq<T>, p: T -> Eval<bool>, i: int)
    requires 0 <= i < |s| && p(s[i]).Throws?
    requires forall k :: 0 <= k < i ==> p(s[k]) == Value(false)
    ensures ExistsEval(s, p) == Throws
    decreases i
  {
    if i > 0 {
      assert forall k :: 0 <= k < i - 1 ==> s[1..][k] == s[k + 1];
      ExistsEvalThrowsAt(s[1..], p, i - 1);
    }
  }

  /** `List.TrueForAll(p)` with a predicate that may throw: scans in order and stops at the first
      record that fails `p`; an exception before that point propagates. */
  function TrueForAllEval<T(!new)>(s: seq<T>, p: T -> Eval<bool>): (r: Eval<bool>)
    ensures r.Throws? ==> exists i :: 0 <= i < |s| && p(s[i]).Throws?
    ensures r == Value(true) <==> forall i :: 0 <= i < |s| ==> p(s[i]) == Value(true)
    ensures r == Value(false) <==>
              exists i :: 0 <= i < |s| && p(s[i]) == Value(false) &&
                          forall j :: 0 <= j < i ==> p(s[j]) == Value(true)
  {
    if s == [] then Value(true)
    else match p(s[0])
      case Throws => Throws
      case Value(b) =>
        if !b then Value(false)
        else
          var r := TrueForAllEval(s[1..], p);
          assert forall i :: 1 <= i < |s| ==> s[i] == s[1..][i - 1];
          assert r == Value(false) ==>
                   exists i :: 0 <= i < |s| - 1 && p(s[1..][i]) == Value(false) &&
                               forall j :: 0 <= j < i ==> p(s[1..][j]) == Value(true);
          r
  }

  /** `List.RemoveAll(p)` with a predicate that may throw: every record is checked, so any
      exception propagates; otherwise the records failing `p` remain, in order. */
  function RemoveAllEval<T(!new)>(s: seq<T>, p: T -> Eval<bool>): (r: Eval<seq<T>>)
    ensures r.Throws? <==> exists i :: 0 <= i < |s| && p(s[i]).Throws?
    ensures r.Value? ==> forall x :: x in r.value <==> x in s && p(x) == Value(false)
  {
    if exists i :: 0 <= i < |s| && p(s[i]).Throws? then Throws
    else Value(Filter(s, x => p(x) == Value(false)))
  }

  /** With unique ids, looking a record up by its own id finds exactly that record. */
  lemma FindByUniqueKey<T(!new)>(s: seq<T>, key: T -> Option<string>, k: int)
    requires KeysUnique(s, key) && 0 <= k < |s|
    ensures FindFirst(s, KeyIs(key, key(s[k]).value)) == Some(s[k])
  {
    var p := KeyIs(key, key(s[k]).value);
    var i :| 0 <= i < |s| && s[i] == FindFirst(s, p).value && p(s[i]);
    assert key(s[i]) == key(s[k]);
  }
}
