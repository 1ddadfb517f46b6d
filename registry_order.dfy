/**
  The order `save_registry` puts the registry in:
  `models.sort(key=lambda m: (m.get("name", ""), m.get("version", "")))`,
  Python's stable sort on the pair, compared lexicographically.
*/
module RegistryOrder {
  import opened Json
  import opened RegistryEntries

  /** Python's `<` on `str`: code point by code point, a proper prefix first. */
  predicate StrLess(a: string, b: string)
  {
    |b| > 0 && (|a| == 0 || a[0] < b[0] || (a[0] == b[0] && StrLess(a[1..], b[1..])))
  }

  lemma {:induction false} StrLessIrreflexive(a: string)
    ensures !StrLess(a, a)
  {
    if |a| > 0 {
      StrLessIrreflexive(a[1..]);
    }
  }

  lemma {:induction false} StrLessTransitive(a: string, b: string, c: string)
    requires StrLess(a, b) && StrLess(b, c)
    ensures StrLess(a, c)
  {
    if |a| > 0 && a[0] == b[0] == c[0] {
      StrLessTransitive(a[1..], b[1..], c[1..]);
    }
  }

  lemma {:induction false} StrLessTotal(a: string, b: string)
    ensures a == b || StrLess(a, b) || StrLess(b, a)
  {
    if |a| > 0 && |b| > 0 && a[0] == b[0] {
      StrLessTotal(a[1..], b[1..]);
      if a[1..] == b[1..] {
        assert a == [a[0]] + a[1..] && b == [b[0]] + b[1..];
      }
    }
  }

  /** The sort-key component `m.get(k, "")` is comparable with the others:
      missing, or a string. (A null, number, list or dict next to a string
      makes Python's sort raise TypeError.) */
  predicate SortField(m: Entry, k: string)
  {
    k !in m || m[k].JString?
  }

  predicate Orderable(m: Entry)
  {
    SortField(m, "name") && SortField(m, "version")
  }

  predicate AllOrderable(s: seq<Entry>)
  {
    forall m :: m in s ==> Orderable(m)
  }

  /** `m.get(k, "")` for a comparable component. */
  function FieldOr(m: Entry, k: string): string
    requires SortField(m, k)
  {
    if k in m then m[k].s else ""
  }

  /** The sort key `(m.get("name", ""), m.get("version", ""))`. */
  function SortKey(m: Entry): (string, string)
    requires Orderable(m)
  {
    (FieldOr(m, "name"), FieldOr(m, "version"))
  }

  /** Python's `<` on the pair: by name, then by version. */
  predicate KeyLess(a: (string, string), b: (string, string))
  {
    StrLess(a.0, b.0) || (a.0 == b.0 && StrLess(a.1, b.1))
  }

  lemma KeyLessIsStrictTotalOrder(a: (string, string), b: (string, string), c: (string, string))
    ensures !KeyLess(a, a)
    ensures KeyLess(a, b) && KeyLess(b, c) ==> KeyLess(a, c)
    ensures a == b || KeyLess(a, b) || KeyLess(b, a)
  {
    StrLessIrreflexive(a.0);
    StrLessIrreflexive(a.1);
    if StrLess(a.0, b.0) && StrLess(b.0, c.0) {
      StrLessTransitive(a.0, b.0, c.0);
    }
    if StrLess(a.1, b.1) && StrLess(b.1, c.1) {
      StrLessTransitive(a.1, b.1, c.1);
    }
    StrLessTotal(a.0, b.0);
    StrLessTotal(a.1, b.1);
  }

  /** Ascending by sort key: no later entry's key is below an earlier one's. */
  predicate Sorted(s: seq<Entry>)
    requires AllOrderable(s)
  {
    forall i, j :: 0 <= i < j < |s| ==> !KeyLess(SortKey(s[j]), SortKey(s[i]))
  }

  /** Insert `x` in front of the first entry whose key is not below its own. */
  function InsertFirst(t: seq<Entry>, x: Entry): (r: seq<Entry>)
    requires AllOrderable(t) && Orderable(x)
    ensures multiset(r) == multiset(t) + multiset{x}
    ensures AllOrderable(r)
  {
    if t == [] then [x]
    else if KeyLess(SortKey(t[0]), SortKey(x)) then
      assert t == [t[0]] + t[1..];
      [t[0]] + InsertFirst(t[1..], x)
    else [x] + t
  }

  /** The stable sort of `save_registry`: insertion of each entry, last to
      first, in front of the entries with an equal or greater key. */
  function SortByKey(s: seq<Entry>): (r: seq<Entry>)
    requires AllOrderable(s)
    ensures multiset(r) == multiset(s)
    ensures AllOrderable(r)
  {
    if s == [] then []
    else
      assert s == [s[0]] + s[1..];
      InsertFirst(SortByKey(s[1..]), s[0])
  }

  lemma SortedCons(h: Entry, t: seq<Entry>)
    requires Orderable(h) && AllOrderable(t) && Sorted(t)
    requires forall y :: y in t ==> !KeyLess(SortKey(y), SortKey(h))
    ensures AllOrderable([h] + t) && Sorted([h] + t)
  {
    var s := [h] + t;
    forall i, j | 0 <= i < j < |s| ensures !KeyLess(SortKey(s[j]), SortKey(s[i])) {
      assert s[j] == t[j - 1];
      if i > 0 {
        assert s[i] == t[i - 1];
      }
    }
  }

  lemma {:induction false} InsertFirstSorted(t: seq<Entry>, x: Entry)
    requires AllOrderable(t) && Orderable(x) && Sorted(t)
    ensures Sorted(InsertFirst(t, x))
  {
    if t != [] {
      SortedTail(t);
      if KeyLess(SortKey(t[0]), SortKey(x)) {
        InsertFirstSorted(t[1..], x);
        InsertFirstSortedAfterHead(t, x);
      } else {
        InsertFirstSortedAtFront(t, x);
      }
    }
  }

  /** The tail of an ascending list is ascending and no key in it is below the head's. */
  lemma SortedTail(t: seq<Entry>)
    requires AllOrderable(t) && Sorted(t) && t != []
    ensures AllOrderable(t[1..]) && Sorted(t[1..])
    ensures forall y :: y in t[1..] ==> !KeyLess(SortKey(y), SortKey(t[0]))
  {
    forall y | y in t[1..] ensures !KeyLess(SortKey(y), SortKey(t[0])) {
      var j :| 0 <= j < |t[1..]| && t[1..][j] == y;
      assert t[j + 1] == y;
    }
  }

  /** Inserting past a head whose key is below the new one keeps the list ascending. */
  lemma InsertFirstSortedAfterHead(t: seq<Entry>, x: Entry)
    requires AllOrderable(t) && Orderable(x) && t != []
    requires KeyLess(SortKey(t[0]), SortKey(x))
    requires forall y :: y in t[1..] ==> !KeyLess(SortKey(y), SortKey(t[0]))
    requires Sorted(InsertFirst(t[1..], x))
    ensures Sorted(InsertFirst(t, x))
  {
    var kx, k0 := SortKey(x), SortKey(t[0]);
    var r' := InsertFirst(t[1..], x);
    forall y | y in r' ensures !KeyLess(SortKey(y), k0) {
      assert y in multiset(r');
      if y == x {
        KeyLessIsStrictTotalOrder(kx, k0, kx);
      }
    }
    SortedCons(t[0], r');
  }

  /** Inserting in front of a head whose key is not below the new one keeps
      the list ascending. */
  lemma InsertFirstSortedAtFront(t: seq<Entry>, x: Entry)
    requires AllOrderable(t) && Orderable(x) && Sorted(t) && t != []
    requires !KeyLess(SortKey(t[0]), SortKey(x))
    requires forall y :: y in t[1..] ==> !KeyLess(SortKey(y), SortKey(t[0]))
    ensures Sorted(InsertFirst(t, x))
  {
    var kx, k0 := SortKey(x), SortKey(t[0]);
    assert t == [t[0]] + t[1..];
    forall y | y in t ensures !KeyLess(SortKey(y), kx) {
      KeyLessIsStrictTotalOrder(SortKey(y), kx, k0);
      KeyLessIsStrictTotalOrder(kx, k0, k0);
    }
    SortedCons(x, t);
  }

  /** The sort's result is ascending by `(name or "", version or "")`. */
  lemma {:induction false} SortByKeySorted(s: seq<Entry>)
    requires AllOrderable(s)
    ensures Sorted(SortByKey(s))
  {
    if s != [] {
      assert s == [s[0]] + s[1..];
      SortByKeySorted(s[1..]);
      InsertFirstSorted(SortByKey(s[1..]), s[0]);
    }
  }

  /** The entries whose sort key is `k`, in list order. */
  function WithSortKey(s: seq<Entry>, k: (string, string)): seq<Entry>
    requires AllOrderable(s)
  {
    if s == [] then []
    else
      assert s == [s[0]] + s[1..];
      (if SortKey(s[0]) == k then [s[0]] else []) + WithSortKey(s[1..], k)
  }

  lemma WithSortKeyCons(h: Entry, t: seq<Entry>, k: (string, string))
    requires Orderable(h) && AllOrderable(t)
    ensures AllOrderable([h] + t)
    ensures WithSortKey([h] + t, k) == (if SortKey(h) == k then [h] else []) + WithSortKey(t, k)
  {
    assert ([h] + t)[1..] == t;
  }

  lemma {:induction false} InsertFirstWithSortKey(t: seq<Entry>, x: Entry, k: (string, string))
    requires AllOrderable(t) && Orderable(x)
    decreases |t|, 1
    ensures WithSortKey(InsertFirst(t, x), k) == (if SortKey(x) == k then [x] else []) + WithSortKey(t, k)
  {
    if t == [] {
      WithSortKeyCons(x, [], k);
    } else {
      var h, t' := t[0], t[1..];
      assert t == [h] + t';
      if KeyLess(SortKey(h), SortKey(x)) {
        InsertFirstWithSortKeyLess(h, t', x, k);
      } else {
        WithSortKeyCons(x, t, k);
      }
    }
  }

  lemma {:induction false} InsertFirstWithSortKeyLess(h: Entry, t': seq<Entry>, x: Entry, k: (string, string))
    requires Orderable(h) && AllOrderable(t') && Orderable(x)
    requires KeyLess(SortKey(h), SortKey(x))
    ensures AllOrderable([h] + t')
    ensures WithSortKey(InsertFirst([h] + t', x), k) == (if SortKey(x) == k then [x] else []) + WithSortKey([h] + t', k)
    decreases |t'| + 1, 0
  {
    var r' := InsertFirst(t', x);
    assert ([h] + t')[1..] == t';
    assert InsertFirst([h] + t', x) == [h] + r';
    InsertFirstWithSortKey(t', x, k);
    WithSortKeyCons(h, r', k);
    WithSortKeyCons(h, t', k);
    var hk, xk := SortKey(h), SortKey(x);
    StrLessIrreflexive(xk.0);
    StrLessIrreflexive(xk.1);
    assert hk != xk;
    SwapHeads(if hk == k then [h] else [], if xk == k then [x] else [], WithSortKey(t', k));
  }

  lemma SwapHeads<T>(a: seq<T>, b: seq<T>, rest: seq<T>)
    requires a == [] || b == []
    ensures a + (b + rest) == b + (a + rest)
  {
  }

  /** The sort is stable: entries with equal sort keys keep their relative order. */
  lemma {:induction false} SortByKeyStable(s: seq<Entry>, k: (string, string))
    requires AllOrderable(s)
    ensures WithSortKey(SortByKey(s), k) == WithSortKey(s, k)
  {
    if s != [] {
      assert s == [s[0]] + s[1..];
      SortByKeyStable(s[1..], k);
      InsertFirstWithSortKey(SortByKey(s[1..]), s[0], k);
    }
  }

  /** An already ascending list is left as it is. */
  lemma {:induction false} SortByKeyOfSorted(s: seq<Entry>)
    requires AllOrderable(s) && Sorted(s)
    ensures SortByKey(s) == s
  {
    if s != [] {
      assert s == [s[0]] + s[1..];
      assert Sorted(s[1..]) by {
        forall i, j | 0 <= i < j < |s[1..]| ensures !KeyLess(SortKey(s[1..][j]), SortKey(s[1..][i])) {
          assert s[1..][j] == s[j + 1] && s[1..][i] == s[i + 1];
        }
      }
      SortByKeyOfSorted(s[1..]);
      if |s| > 1 {
        assert !KeyLess(SortKey(s[1]), SortKey(s[0]));
      }
    }
  }

  lemma KeysOfPermutation(a: seq<Entry>, b: seq<Entry>)
    requires multiset(a) == multiset(b)
    ensures Keys(a) == Keys(b)
  {
    forall m | m in a ensures m in b {
      assert m in multiset(a);
    }
    forall m | m in b ensures m in a {
      assert m in multiset(b);
    }
  }

  lemma KeysOfInsertFirst(t: seq<Entry>, x: Entry)
    requires AllOrderable(t) && Orderable(x)
    ensures Keys(InsertFirst(t, x)) == Keys(t) + {KeyOf(x)}
  {
    KeysOfPermutation(InsertFirst(t, x), t + [x]);
    KeysOfAppend(t, x);
  }

  lemma KeysOfAppend(t: seq<Entry>, x: Entry)
    ensures Keys(t + [x]) == Keys(t) + {KeyOf(x)}
  {
    forall k | k in Keys(t + [x]) ensures k in Keys(t) + {KeyOf(x)} {
      var m :| m in t + [x] && KeyOf(m) == k;
      if m != x {
        assert m in t;
      }
    }
    forall k | k in Keys(t) + {KeyOf(x)} ensures k in Keys(t + [x]) {
      if k == KeyOf(x) {
        assert x in t + [x];
      } else {
        var m :| m in t && KeyOf(m) == k;
        assert m in t + [x];
      }
    }
  }

  lemma {:induction false} InsertFirstPreservesUniqueKeys(t: seq<Entry>, x: Entry)
    requires AllOrderable(t) && Orderable(x)
    requires UniqueKeys(t) && KeyOf(x) !in Keys(t)
    ensures UniqueKeys(InsertFirst(t, x))
  {
    if t == [] {
    } else {
      var h, t' := t[0], t[1..];
      assert t == [h] + t';
      UniqueKeysCons(h, t');
      if KeyLess(SortKey(h), SortKey(x)) {
        var r' := InsertFirst(t', x);
        assert InsertFirst(t, x) == [h] + r';
        assert Keys(t) == {KeyOf(h)} + Keys(t');
        InsertFirstPreservesUniqueKeys(t', x);
        KeysOfInsertFirst(t', x);
        UniqueKeysCons(h, r');
      } else {
        UniqueKeysCons(x, t);
      }
    }
  }

  /** Sorting keeps the registry free of duplicate keys. */
  lemma {:induction false} SortByKeyPreservesUniqueKeys(s: seq<Entry>)
    requires AllOrderable(s) && UniqueKeys(s)
    ensures UniqueKeys(SortByKey(s))
  {
    if s != [] {
      assert s == [s[0]] + s[1..];
      UniqueKeysCons(s[0], s[1..]);
      SortByKeyPreservesUniqueKeys(s[1..]);
      KeysOfPermutation(SortByKey(s[1..]), s[1..]);
      InsertFirstPreservesUniqueKeys(SortByKey(s[1..]), s[0]);
    }
  }
}
