/** A MongoDB collection as the services use it: a sequence of documents, each carrying a
    unique `_id`, with `InsertOne`, `ReplaceOne` and `DeleteOne` by id. */
module Store {
  import opened Wrappers
  import opened Sequences

  /** The `_id` a new document is stored under: the one it carries, unless that is null or empty,
      in which case the driver's generator supplies `generated`. */
  function AssignedId(id: Option<string>, generated: string): (r: string)
    ensures !IsNullOrEmpty(id) ==> Some(r) == id
    ensures IsNullOrEmpty(id) ==> r == generated
  {
    if IsNullOrEmpty(id) then generated else id.value
  }

  class Collection<T(!new)> {
    /** The accessor of a document's `_id`. */
    const key: T -> Option<string>
    /** The documents in natural (insertion) order. */
    var records: seq<T>

    /** Every stored document has an `_id`, and no two share one. */
    ghost predicate Valid()
      reads this
    {
      KeysUnique(records, key)
    }

    constructor(key: T -> Option<string>, initial: seq<T>)
      requires KeysUnique(initial, key)
      ensures this.key == key && records == initial
      ensures Valid()
    {
      this.key := key;
      records := initial;
    }

    /** `InsertOneAsync`: the document keeps the `_id` it carries, or gets the one the driver
        generated for it (`AssignedId`). The server refuses an `_id` already stored with a
        duplicate-key error (`ok` is false then, and nothing changes); otherwise the document is
        appended. */
    method InsertOne(x: T) returns (ok: bool)
      requires Valid() && key(x).Some?
      modifies this
      ensures Valid()
      ensures ok <==> FreshKey(old(records), key, key(x).value)
      ensures ok ==> records == old(records) + [x]
      ensures !ok ==> records == old(records)
    {
      if exists i :: 0 <= i < |records| && key(records[i]) == key(x) {
        return false;
      }
      AppendFreshKeepsUnique(records, key, x, key(x).value);
      records := records + [x];
      return true;
    }

    /** `ReplaceOneAsync(doc => doc.Id == id, x)`: overwrites the document with that `_id`.
        The server refuses a replacement that would change the `_id` of the matched document
        (`ok` is false then, and nothing changes); when nothing matches, nothing changes. */
    method ReplaceOne(id: string, x: T) returns (ok: bool)
      requires Valid()
      modifies this
      ensures Valid()
      ensures ok <==> FindFirst(old(records), KeyIs(key, id)).None? || key(x) == Some(id)
      ensures ok ==> records == ReplaceFirst(old(records), KeyIs(key, id), x)
      ensures !ok ==> records == old(records)
    {
      var p := KeyIs(key, id);
      if FindFirst(records, p).Some? && key(x) != Some(id) {
        return false;
      }
      if k :| 0 <= k < |records| && p(records[k]) {
        assert FirstMatchAt(records, p, k);
        UpdateSameKeyKeepsUnique(records, key, k, x);
      }
      records := ReplaceFirst(records, p, x);
      return true;
    }

    /** `DeleteOneAsync(doc => doc.Id == id)`: removes the document with that `_id`, if any;
        every other document stays, in order. */
    method DeleteOne(id: string)
      requires Valid()
      modifies this
      ensures Valid()
      ensures records == Filter(old(records), KeyIsNot(key, id))
    {
      RemoveByUniqueKey(records, key, id);
      FilterKeepsUnique(records, key, KeyIsNot(key, id));
      records := RemoveFirst(records, KeyIs(key, id));
    }
  }
}
