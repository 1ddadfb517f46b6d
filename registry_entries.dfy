/**
  The registry's list of entries (`registry["models"]`), their identity key
  `(name, version)`, and the two list operations the script performs on it:
  the upsert of `upsert_model` and the prune at the end of `main`.
*/
module RegistryEntries {
  import opened Json

  /** A catalog entry: one JSON object of the "models" list. */
  type Entry = Object

  /** The identity key `(m.get("name"), m.get("version"))`. */
  type Key = (JsonValue, JsonValue)

  function KeyOf(m: Entry): Key
  {
    (Get(m, "name"), Get(m, "version"))
  }

  function Keys(s: seq<Entry>): set<Key>
  {
    set m | m in s :: KeyOf(m)
  }

  /** At most one entry per identity key. */
  predicate UniqueKeys(s: seq<Entry>)
  {
    forall i, j :: 0 <= i < j < |s| ==> KeyOf(s[i]) != KeyOf(s[j])
  }

  lemma UniqueKeysCons(x: Entry, t: seq<Entry>)
    ensures UniqueKeys([x] + t) <==> KeyOf(x) !in Keys(t) && UniqueKeys(t)
  {
    var s := [x] + t;
    if UniqueKeys(s) {
      forall i, j | 0 <= i < j < |t| ensures KeyOf(t[i]) != KeyOf(t[j]) {
        assert s[i + 1] == t[i] && s[j + 1] == t[j];
      }
      forall m | m in t ensures KeyOf(m) != KeyOf(x) {
        var j :| 0 <= j < |t| && t[j] == m;
        assert s[0] == x && s[j + 1] == m;
      }
    }
  }

  /** `upsert_model`, stated without the loop: walk the list, replace the first
      entry with the new entry's key, or append when there is none. */
  function Upserted(s: seq<Entry>, e: Entry): (r: seq<Entry>)
    ensures |s| <= |r| <= |s| + 1
    ensures e in r
  {
    if s == [] then [e]
    else if KeyOf(s[0]) == KeyOf(e) then [e] + s[1..]
    else [s[0]] + Upserted(s[1..], e)
  }

  /** If position `i` holds the first entry with the new entry's key, exactly
      that position is overwritten; the length and every other position stay. */
  lemma {:induction false} UpsertReplacesFirstMatch(s: seq<Entry>, e: Entry, i: nat)
    requires i < |s| && KeyOf(s[i]) == KeyOf(e)
    requires forall j :: 0 <= j < i ==> KeyOf(s[j]) != KeyOf(e)
    ensures Upserted(s, e) == s[i := e]
  {
    if i > 0 {
      UpsertReplacesFirstMatch(s[1..], e, i - 1);
      assert [s[0]] + s[1..][i - 1 := e] == s[i := e];
    }
  }

  /** Without an entry of the same key, the new entry is appended at the end. */
  lemma {:induction false} UpsertAppendsWhenAbsent(s: seq<Entry>, e: Entry)
    requires forall j :: 0 <= j < |s| ==> KeyOf(s[j]) != KeyOf(e)
    ensures Upserted(s, e) == s + [e]
  {
    if s != [] {
      UpsertAppendsWhenAbsent(s[1..], e);
      assert [s[0]] + (s[1..] + [e]) == s + [e];
    }
  }

  lemma KeysCons(h: Entry, t: seq<Entry>)
    ensures Keys([h] + t) == {KeyOf(h)} + Keys(t)
  {
    forall k | k in Keys([h] + t) ensures k in {KeyOf(h)} + Keys(t) {
      var m :| m in [h] + t && KeyOf(m) == k;
      if m != h {
        assert m in t;
      }
    }
    forall k | k in {KeyOf(h)} + Keys(t) ensures k in Keys([h] + t) {
      if k == KeyOf(h) {
        assert h in [h] + t;
      } else {
        var m :| m in t && KeyOf(m) == k;
        assert m in [h] + t;
      }
    }
  }

  /** The keys after an upsert are the old keys plus the new entry's; the new
      entry is in the list; every entry with another key is still there. */
  lemma {:induction false} UpsertKeys(s: seq<Entry>, e: Entry)
    ensures Keys(Upserted(s, e)) == Keys(s) + {KeyOf(e)}
    ensures e in Upserted(s, e)
    ensures forall x :: x in s && KeyOf(x) != KeyOf(e) ==> x in Upserted(s, e)
    ensures forall x :: x in Upserted(s, e) ==> x == e || x in s
  {
    if s != [] {
      var h, t := s[0], s[1..];
      assert s == [h] + t;
      UpsertKeys(t, e);
      KeysCons(h, t);
      if KeyOf(h) == KeyOf(e) {
        assert Upserted(s, e) == [e] + t;
        KeysCons(e, t);
      } else {
        assert Upserted(s, e) == [h] + Upserted(t, e);
        KeysCons(h, Upserted(t, e));
      }
    }
  }

  /** Upsert keeps the registry free of duplicate keys. */
  lemma {:induction false} UpsertPreservesUniqueKeys(s: seq<Entry>, e: Entry)
    requires UniqueKeys(s)
    ensures UniqueKeys(Upserted(s, e))
  {
    if s != [] {
      assert s == [s[0]] + s[1..];
      UniqueKeysCons(s[0], s[1..]);
      if KeyOf(s[0]) == KeyOf(e) {
        UniqueKeysCons(e, s[1..]);
      } else {
        UpsertPreservesUniqueKeys(s[1..], e);
        UpsertKeys(s[1..], e);
        UniqueKeysCons(s[0], Upserted(s[1..], e));
      }
    }
  }

  /** Upserting the same entry twice is the same as upserting it once. */
  lemma {:induction false} UpsertIdempotent(s: seq<Entry>, e: Entry)
    ensures Upserted(Upserted(s, e), e) == Upserted(s, e)
  {
    if s != [] && KeyOf(s[0]) != KeyOf(e) {
      UpsertIdempotent(s[1..], e);
    }
  }

  /** The prune `[m for m in models if (m.get("name"), m.get("version")) in keep]`. */
  function Pruned(s: seq<Entry>, keep: set<Key>): (r: seq<Entry>)
    ensures |r| <= |s|
  {
    if s == [] then []
    else (if KeyOf(s[0]) in keep then [s[0]] else []) + Pruned(s[1..], keep)
  }

  /** An entry survives the prune exactly when it was there and its key is kept. */
  lemma {:induction false} PrunedMembers(s: seq<Entry>, keep: set<Key>)
    ensures forall x :: x in Pruned(s, keep) <==> x in s && KeyOf(x) in keep
    ensures Keys(Pruned(s, keep)) == Keys(s) * keep
  {
    if s != [] {
      PrunedMembers(s[1..], keep);
      assert s == [s[0]] + s[1..];
      assert Keys(s) == {KeyOf(s[0])} + Keys(s[1..]);
    }
  }

  /** A prune that keeps the key of every entry changes nothing. */
  lemma {:induction false} PrunedAllKept(s: seq<Entry>, keep: set<Key>)
    requires forall m :: m in s ==> KeyOf(m) in keep
    ensures Pruned(s, keep) == s
  {
    if s != [] {
      assert s == [s[0]] + s[1..];
      PrunedAllKept(s[1..], keep);
    }
  }

  /** A prune that keeps the key of no entry removes every entry. */
  lemma {:induction false} PrunedNoneKept(s: seq<Entry>, keep: set<Key>)
    requires forall m :: m in s ==> KeyOf(m) !in keep
    ensures Pruned(s, keep) == []
  {
    if s != [] {
      assert s == [s[0]] + s[1..];
      PrunedNoneKept(s[1..], keep);
    }
  }

  /** Survivors keep their order: pruning a concatenation prunes each part. */
  lemma {:induction false} PrunedDistributes(a: seq<Entry>, b: seq<Entry>, keep: set<Key>)
    ensures Pruned(a + b, keep) == Pruned(a, keep) + Pruned(b, keep)
  {
    if a != [] {
      assert (a + b)[1..] == a[1..] + b;
      PrunedDistributes(a[1..], b, keep);
    } else {
      assert a + b == b;
    }
  }

  /** The prune keeps the registry free of duplicate keys. */
  lemma {:induction false} PrunePreservesUniqueKeys(s: seq<Entry>, keep: set<Key>)
    requires UniqueKeys(s)
    ensures UniqueKeys(Pruned(s, keep))
  {
    if s != [] {
      assert s == [s[0]] + s[1..];
      UniqueKeysCons(s[0], s[1..]);
      PrunePreservesUniqueKeys(s[1..], keep);
      PrunedMembers(s[1..], keep);
      if KeyOf(s[0]) in keep {
        UniqueKeysCons(s[0], Pruned(s[1..], keep));
      }
    }
  }
}
