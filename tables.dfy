/**
 * An in-memory stand-in for the object-relational store: a table is the
 * sequence of its rows in primary-key order. Queries without `order_by`
 * on models without an ordering of their own have no order the database
 * promises; the model takes them to hand rows out in this key order.
 */
module Tables {
  import opened Wrappers

  /** One stored record: its primary key and its column values. */
  datatype Row<T> = Row(id: nat, val: T)

  type Table<T> = seq<Row<T>>

  /** Primary keys are unique and rows are kept in key order. */
  ghost predicate IdsIncreasing<T>(t: Table<T>)
  {
    forall i, j :: 0 <= i < j < |t| ==> t[i].id < t[j].id
  }

  /** Every primary key in the table is below `bound` (the next key to hand out). */
  ghost predicate IdsBelow<T>(t: Table<T>, bound: nat)
  {
    forall r :: r in t ==> r.id < bound
  }

  /** The set of primary keys present in a table. */
  function IdSet<T(==)>(t: Table<T>): set<nat>
  {
    set r | r in t :: r.id
  }

  /** The primary keys of a table, in row order. */
  function Ids<T>(t: Table<T>): (ids: seq<nat>)
    ensures |ids| == |t|
    ensures forall k :: 0 <= k < |t| ==> ids[k] == t[k].id
  {
    if t == [] then [] else [t[0].id] + Ids(t[1..])
  }

  /** The elements of `s` that `keep` accepts, in their original order (a queryset filter). */
  function Filter<T(!new)>(s: seq<T>, keep: T -> bool): (r: seq<T>)
    ensures |r| <= |s|
    ensures forall x :: x in r <==> x in s && keep(x)
  {
    if s == [] then []
    else (if keep(s[0]) then [s[0]] else []) + Filter(s[1..], keep)
  }

  /** Filtering distributes over concatenation. */
  lemma {:induction false} FilterAppend<T(!new)>(a: seq<T>, b: seq<T>, keep: T -> bool)
    ensures Filter(a + b, keep) == Filter(a, keep) + Filter(b, keep)
  {
    if a == [] {
      assert a + b == b;
    } else {
      assert (a + b)[1..] == a[1..] + b;
      FilterAppend(a[1..], b, keep);
    }
  }

  /** Behind the first row of a key-ordered table come a key-ordered table of larger keys. */
  lemma IdsIncreasingTail<T>(t: Table<T>)
    requires t != [] && IdsIncreasing(t)
    ensures IdsIncreasing(t[1..]) && forall x :: x in t[1..] ==> t[0].id < x.id
  {
    var rest := t[1..];
    forall i, j | 0 <= i < j < |rest| ensures rest[i].id < rest[j].id {
      assert rest[i] == t[i + 1] && rest[j] == t[j + 1];
    }
    forall x | x in rest ensures t[0].id < x.id {
      var k :| 0 <= k < |rest| && rest[k] == x;
      assert x == t[k + 1];
    }
  }

  /** A row keyed below every key of a key-ordered table can lead it. */
  lemma IdsIncreasingCons<T>(r: Row<T>, t: Table<T>)
    requires IdsIncreasing(t) && forall x :: x in t ==> r.id < x.id
    ensures IdsIncreasing([r] + t)
  {
    var f := [r] + t;
    forall i, j | 0 <= i < j < |f| ensures f[i].id < f[j].id {
      assert f[j] == t[j - 1];
      if i == 0 {
        assert f[j] in t;
      } else {
        assert f[i] == t[i - 1];
      }
    }
  }

  /** A filtered table still has unique keys in increasing order. */
  lemma {:induction false} FilterIncreasing<T(!new)>(t: Table<T>, keep: Row<T> -> bool)
    requires IdsIncreasing(t)
    ensures IdsIncreasing(Filter(t, keep))
  {
    if t != [] {
      IdsIncreasingTail(t);
      var tail := Filter(t[1..], keep);
      FilterIncreasing(t[1..], keep);
      if keep(t[0]) {
        IdsIncreasingCons(t[0], tail);
      } else {
        assert [] + tail == tail;
      }
    }
  }

  /** No element occurs twice. */
  ghost predicate NoDuplicates<T>(s: seq<T>)
  {
    s == [] || (s[0] !in s[1..] && NoDuplicates(s[1..]))
  }

  /** The scan `NoDuplicates` agrees with the position-wise statement. */
  lemma {:induction false} NoDuplicatesIff<T>(s: seq<T>)
    ensures NoDuplicates(s) <==> forall i, j :: 0 <= i < j < |s| ==> s[i] != s[j]
  {
    if s != [] {
      var rest := s[1..];
      NoDuplicatesIff(rest);
      assert forall k :: 0 <= k < |rest| ==> rest[k] == s[k + 1];
      if forall i, j :: 0 <= i < j < |s| ==> s[i] != s[j] {
        assert s[0] !in rest by {
          forall k | 0 <= k < |rest| ensures rest[k] != s[0] {
            assert rest[k] == s[k + 1];
          }
        }
      }
      if NoDuplicates(s) {
        forall i, j | 0 <= i < j < |s| ensures s[i] != s[j] {
          if i > 0 {
            assert s[i] == rest[i - 1] && s[j] == rest[j - 1];
          } else {
            assert s[j] == rest[j - 1] && s[j] in rest;
          }
        }
      }
    }
  }

  /** Filtering a sequence without duplicates leaves one without duplicates. */
  lemma {:induction false} FilterNoDuplicates<T(!new)>(s: seq<T>, keep: T -> bool)
    requires NoDuplicates(s)
    ensures NoDuplicates(Filter(s, keep))
  {
    if s != [] {
      var tail := Filter(s[1..], keep);
      FilterNoDuplicates(s[1..], keep);
      if keep(s[0]) {
        assert ([s[0]] + tail)[1..] == tail;
      } else {
        assert [] + tail == tail;
      }
    }
  }

  /** A strictly increasing sequence of keys has no duplicates. */
  lemma {:induction false} IncreasingNoDuplicates(s: seq<nat>)
    requires forall i, j :: 0 <= i < j < |s| ==> s[i] < s[j]
    ensures NoDuplicates(s)
  {
    if s != [] {
      var rest := s[1..];
      assert forall k :: 0 <= k < |rest| ==> rest[k] == s[k + 1];
      IncreasingNoDuplicates(rest);
      assert s[0] !in rest by {
        forall k | 0 <= k < |rest| ensures rest[k] != s[0] {
          assert rest[k] == s[k + 1];
        }
      }
    }
  }

  /** The value stored under `id`, if any (`get_object_or_404` without the 404). */
  function Get<T(==)>(t: Table<T>, id: nat): (r: Option<T>)
    ensures r.Some? <==> id in IdSet(t)
    ensures r.Some? ==> Row(id, r.value) in t
  {
    if t == [] then None
    else if t[0].id == id then Some(t[0].val)
    else
      assert forall r :: r in t ==> r == t[0] || r in t[1..];
      Get(t[1..], id)
  }

  /** With unique keys, `Get` returns the one row that carries the key. */
  lemma GetUnique<T>(t: Table<T>, k: nat)
    requires IdsIncreasing(t) && k < |t|
    ensures Get(t, t[k].id) == Some(t[k].val)
  {
    if k > 0 {
      assert t[0].id < t[k].id;
      var rest := t[1..];
      assert rest[k - 1] == t[k];
      assert IdsIncreasing(rest) by {
        forall i, j | 0 <= i < j < |rest| ensures rest[i].id < rest[j].id {
          assert rest[i] == t[i + 1] && rest[j] == t[j + 1];
        }
      }
      GetUnique(rest, k - 1);
    }
  }

  /** The table with the row keyed `id` given the new value `v` (a `save()` of that row). */
  function Put<T>(t: Table<T>, id: nat, v: T): (r: Table<T>)
    ensures |r| == |t| && Ids(r) == Ids(t)
    ensures forall k :: 0 <= k < |t| ==> r[k] == (if t[k].id == id then Row(id, v) else t[k])
  {
    if t == [] then []
    else [if t[0].id == id then Row(id, v) else t[0]] + Put(t[1..], id, v)
  }
}
