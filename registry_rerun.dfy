/**
  A run's upserts taken together, described key by key: after them, the first
  entry of the list with a key is the last entry the run upserted with that
  key. Pruning and sorting keep each key's first entry, which is why a second
  run over the same files finds nothing to change.
*/
module RegistryRerun {
  import opened Wrappers
  import opened RegistryEntries
  import opened RegistryOrder

  /** The upserts of one run, in order. */
  function UpsertAll(s: seq<Entry>, es: seq<Entry>): seq<Entry>
    decreases |es|
  {
    if es == [] then s else UpsertAll(Upserted(s, es[0]), es[1..])
  }

  /** The first entry of `s` with key `k`: the one an upsert overwrites. */
  function FirstWith(s: seq<Entry>, k: Key): (r: Option<Entry>)
    ensures r.Some? ==> r.value in s && KeyOf(r.value) == k
    ensures r.None? <==> forall j :: 0 <= j < |s| ==> KeyOf(s[j]) != k
  {
    if s == [] then None
    else if KeyOf(s[0]) == k then Some(s[0])
    else
      assert forall j :: 1 <= j < |s| ==> s[j] == s[1..][j - 1];
      FirstWith(s[1..], k)
  }

  /** The last entry of `es` with key `k`. */
  function LastWith(es: seq<Entry>, k: Key): (r: Option<Entry>)
    ensures r.Some? ==> r.value in es && KeyOf(r.value) == k
    ensures r.None? <==> forall j :: 0 <= j < |es| ==> KeyOf(es[j]) != k
  {
    if es == [] then None
    else if KeyOf(es[|es| - 1]) == k then Some(es[|es| - 1])
    else
      assert forall j :: 0 <= j < |es| - 1 ==> es[j] == es[..|es| - 1][j];
      LastWith(es[..|es| - 1], k)
  }

  /** Position `i` holds the first entry of `s` with its key. */
  predicate IsFirst(s: seq<Entry>, i: int)
  {
    0 <= i < |s| && forall j :: 0 <= j < i ==> KeyOf(s[j]) != KeyOf(s[i])
  }

  /** The index of the first entry with key `k`, or `|s|` when there is none. */
  function IndexOfKey(s: seq<Entry>, k: Key): (r: nat)
    ensures r <= |s|
    ensures forall j :: 0 <= j < r ==> KeyOf(s[j]) != k
    ensures r < |s| ==> KeyOf(s[r]) == k
  {
    if s == [] then 0
    else if KeyOf(s[0]) == k then 0
    else
      var r := 1 + IndexOfKey(s[1..], k);
      assert forall j :: 1 <= j < r ==> s[j] == s[1..][j - 1];
      r
  }

  lemma {:induction false} UpsertAllSnoc(s: seq<Entry>, es: seq<Entry>, e: Entry)
    ensures UpsertAll(s, es + [e]) == Upserted(UpsertAll(s, es), e)
    decreases |es|
  {
    if es == [] {
      assert es + [e] == [e] && [e][1..] == [];
    } else {
      assert (es + [e])[1..] == es[1..] + [e];
      UpsertAllSnoc(Upserted(s, es[0]), es[1..], e);
    }
  }

  /** Every entry after a run's upserts was there before or was upserted. */
  lemma {:induction false} UpsertAllMembers(s: seq<Entry>, es: seq<Entry>, x: Entry)
    requires x in UpsertAll(s, es)
    ensures x in s || x in es
    decreases |es|
  {
    if es != [] {
      UpsertAllMembers(Upserted(s, es[0]), es[1..], x);
      UpsertKeys(s, es[0]);
      if x in es[1..] {
        assert x in es;
      }
    }
  }

  /** An upsert makes its entry the first with its key and leaves the first
      entry of every other key alone. */
  lemma {:induction false} FirstWithUpserted(s: seq<Entry>, e: Entry, k: Key)
    ensures FirstWith(Upserted(s, e), k) == if k == KeyOf(e) then Some(e) else FirstWith(s, k)
  {
    if s == [] {
      assert [e][1..] == [];
    } else if KeyOf(s[0]) == KeyOf(e) {
      assert ([e] + s[1..])[1..] == s[1..];
    } else {
      FirstWithUpserted(s[1..], e, k);
      assert ([s[0]] + Upserted(s[1..], e))[1..] == Upserted(s[1..], e);
    }
  }

  /** After a run's upserts, the first entry with key `k` is the last entry
      upserted with `k`, or the first one before the run when none was. */
  lemma {:induction false} FirstWithUpsertAll(s: seq<Entry>, es: seq<Entry>, k: Key)
    ensures FirstWith(UpsertAll(s, es), k) == if LastWith(es, k).Some? then LastWith(es, k) else FirstWith(s, k)
    decreases |es|
  {
    if es != [] {
      var init, e := es[..|es| - 1], es[|es| - 1];
      assert es == init + [e];
      UpsertAllSnoc(s, init, e);
      FirstWithUpsertAll(s, init, k);
      FirstWithUpserted(UpsertAll(s, init), e, k);
    }
  }

  /** The prune keeps the first entry of every kept key and drops the others. */
  lemma {:induction false} FirstWithPruned(s: seq<Entry>, keep: set<Key>, k: Key)
    ensures FirstWith(Pruned(s, keep), k) == if k in keep then FirstWith(s, k) else None
  {
    if s != [] {
      FirstWithPruned(s[1..], keep, k);
      var rest := Pruned(s[1..], keep);
      if KeyOf(s[0]) in keep {
        assert Pruned(s, keep) == [s[0]] + rest;
        assert ([s[0]] + rest)[1..] == rest;
      } else {
        assert Pruned(s, keep) == rest;
      }
    }
  }

  /** Entries with the same key have the same sort key. */
  lemma SameKeySameSortKey(x: Entry, y: Entry)
    requires Orderable(x) && Orderable(y)
    ensures KeyOf(x) == KeyOf(y) ==> SortKey(x) == SortKey(y)
  {
  }

  lemma {:induction false} FirstWithInsertFirst(t: seq<Entry>, x: Entry, k: Key)
    requires AllOrderable(t) && Orderable(x)
    ensures FirstWith(InsertFirst(t, x), k) == FirstWith([x] + t, k)
  {
    assert ([x] + t)[1..] == t;
    if t != [] && KeyLess(SortKey(t[0]), SortKey(x)) {
      var r' := InsertFirst(t[1..], x);
      assert InsertFirst(t, x) == [t[0]] + r';
      assert ([t[0]] + r')[1..] == r';
      assert ([x] + t[1..])[1..] == t[1..];
      FirstWithInsertFirst(t[1..], x, k);
      SameKeySameSortKey(t[0], x);
      KeyLessIsStrictTotalOrder(SortKey(x), SortKey(x), SortKey(x));
      assert KeyOf(t[0]) != KeyOf(x);
    }
  }

  /** The sort moves no entry ahead of an entry with the same key. */
  lemma {:induction false} FirstWithSortByKey(s: seq<Entry>, k: Key)
    requires AllOrderable(s)
    ensures FirstWith(SortByKey(s), k) == FirstWith(s, k)
  {
    if s != [] {
      assert s == [s[0]] + s[1..];
      FirstWithSortByKey(s[1..], k);
      FirstWithInsertFirst(SortByKey(s[1..]), s[0], k);
      assert ([s[0]] + SortByKey(s[1..]))[1..] == SortByKey(s[1..]);
    }
  }

  lemma {:induction false} FirstWithAt(s: seq<Entry>, i: int)
    requires IsFirst(s, i)
    ensures FirstWith(s, KeyOf(s[i])) == Some(s[i])
  {
    if i > 0 {
      assert IsFirst(s[1..], i - 1) by {
        forall j | 0 <= j < i - 1 ensures KeyOf(s[1..][j]) != KeyOf(s[1..][i - 1]) {
          assert s[1..][j] == s[j + 1] && s[1..][i - 1] == s[i];
        }
      }
      FirstWithAt(s[1..], i - 1);
    }
  }

  /** What a run's upserts do to `s`, position by position: old positions
      keep their keys; the first position of each upserted key holds the last
      entry upserted with it and every other old position is unchanged; each
      position past the old end holds the first and only entry of a key that
      `s` did not have, namely the last entry upserted with that key. */
  predicate UpsertShape(s: seq<Entry>, es: seq<Entry>, r: seq<Entry>)
  {
    && |s| <= |r|
    && (forall i :: 0 <= i < |s| ==> KeyOf(r[i]) == KeyOf(s[i]))
    && (forall i :: 0 <= i < |s| ==>
          r[i] == if IsFirst(s, i) && LastWith(es, KeyOf(s[i])).Some? then LastWith(es, KeyOf(s[i])).value else s[i])
    && (forall i :: |s| <= i < |r| ==> IsFirst(r, i) && LastWith(es, KeyOf(r[i])) == Some(r[i]))
    && (forall i, j :: 0 <= j < |s| <= i < |r| ==> KeyOf(s[j]) != KeyOf(r[i]))
  }

  lemma {:induction false} UpsertAllShape(s: seq<Entry>, es: seq<Entry>)
    ensures UpsertShape(s, es, UpsertAll(s, es))
    decreases |es|
  {
    if es != [] {
      var init, e := es[..|es| - 1], es[|es| - 1];
      assert es == init + [e];
      UpsertAllSnoc(s, init, e);
      UpsertAllShape(s, init);
      var f := UpsertAll(s, init);
      var p := IndexOfKey(f, KeyOf(e));
      if p < |f| {
        UpsertReplacesFirstMatch(f, e, p);
        UpsertShapeReplace(s, init, e, f, p);
      } else {
        UpsertAppendsWhenAbsent(f, e);
        UpsertShapeAppend(s, init, e, f);
      }
    }
  }

  lemma UpsertShapeReplace(s: seq<Entry>, init: seq<Entry>, e: Entry, f: seq<Entry>, p: nat)
    requires UpsertShape(s, init, f)
    requires p < |f| && KeyOf(f[p]) == KeyOf(e)
    requires forall j :: 0 <= j < p ==> KeyOf(f[j]) != KeyOf(e)
    ensures UpsertShape(s, init + [e], f[p := e])
  {
    var es, r, k := init + [e], f[p := e], KeyOf(e);
    assert es[..|es| - 1] == init;
    forall i | 0 <= i < |s|
      ensures r[i] == if IsFirst(s, i) && LastWith(es, KeyOf(s[i])).Some? then LastWith(es, KeyOf(s[i])).value else s[i]
    {
      if i == p {
        assert IsFirst(s, p);
      } else if KeyOf(s[i]) == k {
        assert p < |s|;
        assert !IsFirst(s, i);
      }
    }
    forall i | |s| <= i < |r| ensures IsFirst(r, i) && LastWith(es, KeyOf(r[i])) == Some(r[i]) {
      if i != p {
        assert KeyOf(f[i]) != k;
      }
    }
  }

  lemma UpsertShapeAppend(s: seq<Entry>, init: seq<Entry>, e: Entry, f: seq<Entry>)
    requires UpsertShape(s, init, f)
    requires forall j :: 0 <= j < |f| ==> KeyOf(f[j]) != KeyOf(e)
    ensures UpsertShape(s, init + [e], f + [e])
  {
    var es, r := init + [e], f + [e];
    assert es[..|es| - 1] == init;
    forall i | |s| <= i < |r| ensures IsFirst(r, i) && LastWith(es, KeyOf(r[i])) == Some(r[i]) {
      if i < |f| {
        assert IsFirst(f, i);
      }
    }
  }

  /** A second run leaves a registry alone when, for every key the run
      upserts, its first entry is already the last one upserted with that key;
      every entry's key is kept by the prune; and every kept upserted key is
      already present. */
  lemma RerunKeepsRegistry(ms: seq<Entry>, es: seq<Entry>, keep: set<Key>)
    requires forall k :: LastWith(es, k).Some? && FirstWith(ms, k).Some? ==> FirstWith(ms, k) == LastWith(es, k)
    requires forall m :: m in ms ==> KeyOf(m) in keep
    requires forall k :: LastWith(es, k).Some? && k in keep ==> FirstWith(ms, k).Some?
    ensures Pruned(UpsertAll(ms, es), keep) == ms
  {
    var r := UpsertAll(ms, es);
    UpsertAllKeepsPrefix(ms, es);
    var tail := r[|ms|..];
    assert r == ms + tail by {
      assert r == r[..|ms|] + tail;
    }
    UpsertAllTailNotKept(ms, es, keep);
    PrunedDistributes(ms, tail, keep);
    PrunedAllKept(ms, keep);
    PrunedNoneKept(tail, keep);
  }

  /** When the first entry of every upserted key that `ms` holds is already the
      last one upserted with it, the upserts leave `ms` in place as a prefix. */
  lemma UpsertAllKeepsPrefix(ms: seq<Entry>, es: seq<Entry>)
    requires forall k :: LastWith(es, k).Some? && FirstWith(ms, k).Some? ==> FirstWith(ms, k) == LastWith(es, k)
    ensures |ms| <= |UpsertAll(ms, es)| && UpsertAll(ms, es)[..|ms|] == ms
  {
    var r := UpsertAll(ms, es);
    UpsertAllShape(ms, es);
    forall i | 0 <= i < |ms| ensures r[i] == ms[i] {
      if IsFirst(ms, i) && LastWith(es, KeyOf(ms[i])).Some? {
        FirstWithAt(ms, i);
      }
    }
  }

  /** When every kept upserted key is already in `ms`, the entries the upserts
      append past the end of `ms` all have keys the prune drops. */
  lemma UpsertAllTailNotKept(ms: seq<Entry>, es: seq<Entry>, keep: set<Key>)
    requires forall k :: LastWith(es, k).Some? && k in keep ==> FirstWith(ms, k).Some?
    ensures |ms| <= |UpsertAll(ms, es)|
    ensures forall m :: m in UpsertAll(ms, es)[|ms|..] ==> KeyOf(m) !in keep
  {
    var r := UpsertAll(ms, es);
    UpsertAllShape(ms, es);
    var tail := r[|ms|..];
    forall m | m in tail ensures KeyOf(m) !in keep {
      var i :| 0 <= i < |tail| && tail[i] == m;
      assert r[|ms| + i] == m;
    }
  }

  /** In the registry a run writes (its upserts, then the prune, then the
      sort), the first entry of an upserted key is the last entry upserted
      with it when the key is kept, and there is none otherwise. */
  lemma WrittenFirstEntries(load: seq<Entry>, es: seq<Entry>, keep: set<Key>, k: Key)
    requires AllOrderable(Pruned(UpsertAll(load, es), keep))
    requires LastWith(es, k).Some?
    ensures FirstWith(SortByKey(Pruned(UpsertAll(load, es), keep)), k) == if k in keep then LastWith(es, k) else None
  {
    var f := UpsertAll(load, es);
    FirstWithSortByKey(Pruned(f, keep), k);
    FirstWithPruned(f, keep, k);
    FirstWithUpsertAll(load, es, k);
  }

  /** Upserting a run's entries, pruning and sorting, applied to the registry
      that the same steps wrote, gives that registry back. */
  lemma RewriteIsIdempotent(load: seq<Entry>, es: seq<Entry>, keep: set<Key>)
    requires AllOrderable(Pruned(UpsertAll(load, es), keep))
    ensures var ms := SortByKey(Pruned(UpsertAll(load, es), keep));
      Pruned(UpsertAll(ms, es), keep) == ms && SortByKey(ms) == ms
  {
    var f := UpsertAll(load, es);
    var p := Pruned(f, keep);
    var ms := SortByKey(p);
    forall k | LastWith(es, k).Some?
      ensures FirstWith(ms, k) == if k in keep then LastWith(es, k) else None
    {
      WrittenFirstEntries(load, es, keep, k);
    }
    PrunedMembers(f, keep);
    forall m | m in ms ensures KeyOf(m) in keep {
      assert m in multiset(ms);
    }
    RerunKeepsRegistry(ms, es, keep);
    SortByKeySorted(p);
    SortByKeyOfSorted(ms);
  }
}
