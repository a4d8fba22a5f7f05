/**
 * The document-store operations the resolvers use, on a collection modelled
 * as a table from ObjectId to record: `findOne`, `find(...).toArray()`,
 * `$in` filters, the id that `insertOne` assigns, and the `$push`/`$pull`
 * array operators.
 */
module Mongo {
  import opened Wrappers
  import opened Types

  /** `findOne({_id: k})`: the record, or null when there is none. */
  function FindOne<R>(t: map<ObjectId, R>, k: ObjectId): (r: Option<R>)
    ensures r.Some? <==> k in t
    ensures r.Some? ==> r.value == t[k]
  {
    if k in t then Some(t[k]) else None
  }

  /**
   * `findOne` after a write: a record stored under `k` is read back, a
   * deleted key reads as null, and every other key reads as before.
   */
  lemma FindOneAfterWrite<R>(t: map<ObjectId, R>, k: ObjectId, v: R, j: ObjectId)
    ensures FindOne(t[k := v], j) == if j == k then Some(v) else FindOne(t, j)
    ensures FindOne(t - {k}, j) == if j == k then None else FindOne(t, j)
  {
  }

  /** No two keys of `t` hold the same record, as when each record carries its own key. */
  ghost predicate Distinct<R>(t: map<ObjectId, R>)
  {
    forall a, b :: a in t && b in t && t[a] == t[b] ==> a == b
  }

  /** No element of `s` occurs twice. */
  ghost predicate NoDuplicates<R>(s: seq<R>)
  {
    forall i, j :: 0 <= i < j < |s| ==> s[i] != s[j]
  }

  /**
   * `find(filter).toArray()` over the records of `t`: every record exactly
   * once, in an order the store chooses.
   */
  ghost function Find<R(!new)>(t: map<ObjectId, R>): (r: seq<R>)
    ensures |r| == |t|
    ensures forall x :: x in r <==> x in t.Values
    ensures Distinct(t) ==> NoDuplicates(r)
    decreases |t|
  {
    if |t| == 0 then []
    else
      var k :| k in t;
      var rest := t - {k};
      assert rest.Keys == t.Keys - {k};
      assert |rest| == |t| - 1;
      var r := [t[k]] + Find(rest);
      assert forall x :: x in t.Values ==> x in r by {
        forall x | x in t.Values ensures x in r {
          var j :| j in t && t[j] == x;
          if j != k { assert rest[j] == x; }
        }
      }
      assert Distinct(t) ==> NoDuplicates(r) by {
        if Distinct(t) {
          assert Distinct(rest);
          assert forall j :: j in rest ==> rest[j] != t[k];
          assert t[k] !in Find(rest);
          forall i, j | 0 <= i < j < |r| ensures r[i] != r[j] {
            if i == 0 { assert r[j] == Find(rest)[j - 1]; }
            else { assert r[i] == Find(rest)[i - 1] && r[j] == Find(rest)[j - 1]; }
          }
        }
      }
      r
  }

  /**
   * `find({_id: {$in: ids}}).toArray()`: each stored record whose key occurs
   * in `ids`, once, however often the key occurs; keys with no record are
   * skipped.
   */
  ghost function FindIn<R(!new)>(t: map<ObjectId, R>, ids: seq<ObjectId>): (r: seq<R>)
    ensures |r| == |Present(ids, t.Keys)| <= |ids|
    ensures forall k :: k in ids && k in t ==> t[k] in r
    ensures forall x :: x in r ==> exists k :: k in ids && k in t && t[k] == x
    ensures Distinct(t) ==> NoDuplicates(r)
  {
    var sub := map k | k in t && k in ids :: t[k];
    assert sub.Keys == Present(ids, t.Keys);
    DistinctPresentBound(ids, t.Keys);
    assert Distinct(t) ==> Distinct(sub);
    var r := Find(sub);
    assert forall k :: k in ids && k in t ==> t[k] in r by {
      forall k | k in ids && k in t ensures t[k] in r {
        assert sub[k] == t[k];
      }
    }
    r
  }

  /** `$in` with a list naming one stored key, however often, finds that one record. */
  lemma FindInOne<R(!new)>(t: map<ObjectId, R>, ids: seq<ObjectId>, k: ObjectId)
    requires k in t && k in ids
    requires forall j :: j in ids ==> j == k
    ensures FindIn(t, ids) == [t[k]]
  {
    assert Present(ids, t.Keys) == {k};
    var r := FindIn(t, ids);
    assert t[k] in r;
  }

  /** The ids of `ids` that are keys of the collection. */
  ghost function Present(ids: seq<ObjectId>, keys: set<ObjectId>): set<ObjectId>
  {
    set k | k in ids && k in keys
  }

  /** The ids of `ids` that are keys of the collection are at most as many as `ids`. */
  lemma {:induction false} DistinctPresentBound(ids: seq<ObjectId>, keys: set<ObjectId>)
    ensures |Present(ids, keys)| <= |ids|
  {
    if ids != [] {
      var tail := Present(ids[1..], keys);
      DistinctPresentBound(ids[1..], keys);
      var wider := tail + {ids[0]};
      assert Present(ids, keys) <= wider by {
        forall k | k in Present(ids, keys) ensures k in wider {
          if k != ids[0] {
            var i :| 0 <= i < |ids| && ids[i] == k;
            assert ids[1..][i - 1] == k;
          }
        }
      }
      if ids[0] in tail {
        assert wider == tail;
      } else {
        assert |wider| == |tail| + 1;
      }
      assert wider == Present(ids, keys) + (wider - Present(ids, keys));
    }
  }

  /** A number above every key of `t`. */
  ghost function KeyBound<R>(t: map<ObjectId, R>): (b: ObjectId)
    ensures forall k :: k in t ==> k < b
    decreases |t|
  {
    if |t| == 0 then 0
    else
      var k :| k in t;
      var rest := t - {k};
      assert rest.Keys == t.Keys - {k};
      var b := KeyBound(rest);
      assert forall j :: j in t && j != k ==> j in rest;
      if k < b then b else k + 1
  }

  /** `insertOne` can always assign an id that no record of the collection has. */
  lemma FreshIdExists<R>(t: map<ObjectId, R>)
    ensures exists k: ObjectId :: k !in t
  {
    assert KeyBound(t) !in t;
  }

  /** `$pull: {field: x}` on an array of ids, element by element. */
  function Pull(xs: seq<ObjectId>, x: ObjectId): seq<ObjectId>
  {
    if xs == [] then [] else (if xs[0] == x then [] else [xs[0]]) + Pull(xs[1..], x)
  }

  /**
   * `$pull` removes every element equal to `x`, keeps every other id with
   * its multiplicity, and leaves an array without `x` as it was.
   */
  lemma {:induction false} PullSpec(xs: seq<ObjectId>, x: ObjectId)
    ensures x !in Pull(xs, x)
    ensures forall y :: y != x ==> (y in Pull(xs, x) <==> y in xs)
    ensures multiset(Pull(xs, x)) == multiset(xs)[x := 0]
    ensures x !in xs ==> Pull(xs, x) == xs
  {
    if xs != [] {
      PullSpec(xs[1..], x);
      assert xs == [xs[0]] + xs[1..];
    }
  }

  /** `$pull` works element by element, so the ids it keeps stay in their order. */
  lemma {:induction false} PullConcat(a: seq<ObjectId>, b: seq<ObjectId>, x: ObjectId)
    ensures Pull(a + b, x) == Pull(a, x) + Pull(b, x)
  {
    if a == [] {
      assert a + b == b;
    } else {
      assert (a + b)[0] == a[0] && (a + b)[1..] == a[1..] + b;
      PullConcat(a[1..], b, x);
    }
  }

  /** Pushing twice onto an undeclared field leaves `x` at its end twice. */
  lemma PushUndeclaredTwice(field: Option<seq<ObjectId>>, x: ObjectId)
    ensures PushUndeclared(PushUndeclared(field, x), x).value
            == (if field.Some? then field.value else []) + [x, x]
  {
  }

  /** `$push: {field: x}` on a field the declared schema lacks: created as `[x]` when absent. */
  function PushUndeclared(field: Option<seq<ObjectId>>, x: ObjectId): (r: Option<seq<ObjectId>>)
    ensures r.Some? && |r.value| > 0 && r.value[|r.value| - 1] == x
    ensures field.Some? ==> r.value == field.value + [x]
    ensures field.None? ==> r.value == [x]
  {
    match field
    case None => Some([x])
    case Some(xs) => Some(xs + [x])
  }

  /** `$pull: {field: x}` on a field the declared schema lacks: nothing happens when it is absent. */
  function PullUndeclared(field: Option<seq<ObjectId>>, x: ObjectId): (r: Option<seq<ObjectId>>)
    ensures r.Some? <==> field.Some?
    ensures r.Some? ==> x !in r.value && multiset(r.value) == multiset(field.value)[x := 0]
  {
    match field
    case None => None
    case Some(xs) => PullSpec(xs, x); Some(Pull(xs, x))
  }
}
