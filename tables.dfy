/**
 * Whole-table operations the pages use, on a table seen as the sequence of
 * its rows: boolean row selection (`df.loc[mask, :]`), `head(n)`,
 * `groupby(key).count()` and the `min()`/`max()` of an integer column.
 */
module Tables {
  import opened Outcomes

  // ---------------------------------------------------------------------
  // Row selection

  /** `s.loc[mask, :]` with `mask` computed row by row by `p`. */
  function Keep<T>(s: seq<T>, p: T -> bool): (r: seq<T>)
    ensures |r| <= |s|
  {
    if s == [] then [] else Keep(s[..|s| - 1], p) + (if p(s[|s| - 1]) then [s[|s| - 1]] else [])
  }

  /** `a` is `b` with some elements left out, the rest in their original order. */
  predicate IsSubsequence<T(==)>(a: seq<T>, b: seq<T>)
    decreases |b|
  {
    if a == [] then true
    else if b == [] then false
    else (a[|a| - 1] == b[|b| - 1] && IsSubsequence(a[..|a| - 1], b[..|b| - 1])) || IsSubsequence(a, b[..|b| - 1])
  }

  /** Selection keeps the selected rows in their original order. */
  lemma {:induction false} KeepIsSubsequence<T>(s: seq<T>, p: T -> bool)
    ensures IsSubsequence(Keep(s, p), s)
  {
    if s != [] {
      var r := Keep(s, p);
      KeepIsSubsequence(s[..|s| - 1], p);
      if p(s[|s| - 1]) {
        assert r[..|r| - 1] == Keep(s[..|s| - 1], p);
      } else {
        assert r == Keep(s[..|s| - 1], p);
        if r != [] { SubsequenceExtend(r, s[..|s| - 1], s[|s| - 1]); }
      }
    }
  }

  lemma {:induction false} SubsequenceExtend<T>(a: seq<T>, b: seq<T>, x: T)
    requires IsSubsequence(a, b)
    ensures IsSubsequence(a, b + [x])
  {
    if a != [] {
      assert (b + [x])[..|b|] == b;
    }
  }

  /** A row is selected exactly when it is a row of the table that satisfies `p`, as often as it occurs. */
  lemma {:induction false} KeepMultiset<T>(s: seq<T>, p: T -> bool)
    ensures forall x :: multiset(Keep(s, p))[x] == if p(x) then multiset(s)[x] else 0
  {
    if s != [] {
      KeepMultiset(s[..|s| - 1], p);
      assert s == s[..|s| - 1] + [s[|s| - 1]];
    }
  }

  lemma KeepMembers<T>(s: seq<T>, p: T -> bool)
    ensures forall x :: x in Keep(s, p) <==> x in s && p(x)
  {
    KeepMultiset(s, p);
    forall x ensures x in Keep(s, p) <==> x in s && p(x) {
      assert x in Keep(s, p) <==> multiset(Keep(s, p))[x] > 0;
      assert x in s <==> multiset(s)[x] > 0;
    }
  }

  /** When every row satisfies `p`, selection changes nothing. */
  lemma {:induction false} KeepAll<T>(s: seq<T>, p: T -> bool)
    requires forall i :: 0 <= i < |s| ==> p(s[i])
    ensures Keep(s, p) == s
  {
    if s != [] {
      KeepAll(s[..|s| - 1], p);
      assert s == s[..|s| - 1] + [s[|s| - 1]];
    }
  }

  /** When no row satisfies `p`, selection leaves nothing. */
  lemma {:induction false} KeepNone<T>(s: seq<T>, p: T -> bool)
    requires forall i :: 0 <= i < |s| ==> !p(s[i])
    ensures Keep(s, p) == []
  {
    if s != [] {
      KeepNone(s[..|s| - 1], p);
    }
  }

  /** Selecting twice is selecting once with both conditions. */
  lemma {:induction false} KeepKeep<T>(s: seq<T>, p: T -> bool, q: T -> bool, both: T -> bool)
    requires forall x :: both(x) == (p(x) && q(x))
    ensures Keep(Keep(s, p), q) == Keep(s, both)
  {
    if s != [] {
      var init, last := s[..|s| - 1], s[|s| - 1];
      KeepKeep(init, p, q, both);
      KeepAppend(Keep(init, p), if p(last) then [last] else [], q);
      if p(last) {
        assert Keep([last], q) == [] + (if q(last) then [last] else []);
      }
    }
  }

  /** Selection distributes over concatenation. */
  lemma {:induction false} KeepAppend<T>(a: seq<T>, b: seq<T>, p: T -> bool)
    ensures Keep(a + b, p) == Keep(a, p) + Keep(b, p)
    decreases |b|
  {
    if b == [] {
      assert a + b == a;
    } else {
      KeepAppend(a, b[..|b| - 1], p);
      assert (a + b)[..|a + b| - 1] == a + b[..|b| - 1];
    }
  }

  /** A table splits into the rows that satisfy `p` and the rows that do not. */
  lemma {:induction false} KeepSplit<T>(s: seq<T>, p: T -> bool, notP: T -> bool)
    requires forall x :: notP(x) == !p(x)
    ensures |Keep(s, p)| + |Keep(s, notP)| == |s|
  {
    if s != [] { KeepSplit(s[..|s| - 1], p, notP); }
  }

  /** Every selected row is a row of the table. */
  lemma {:induction false} KeepFrom<T>(s: seq<T>, p: T -> bool, i: nat)
    requires i < |Keep(s, p)|
    ensures exists k :: 0 <= k < |s| && s[k] == Keep(s, p)[i]
  {
    var init := s[..|s| - 1];
    if i < |Keep(init, p)| {
      KeepFrom(init, p, i);
      var k :| 0 <= k < |init| && init[k] == Keep(init, p)[i];
      assert s[k] == Keep(s, p)[i];
    } else {
      assert s[|s| - 1] == Keep(s, p)[i];
    }
  }

  /** If a relation holds between every earlier and later row, it still does after selection. */
  lemma {:induction false} KeepKeepsOrder<T>(s: seq<T>, p: T -> bool, before: (T, T) -> bool)
    requires forall i, j :: 0 <= i < j < |s| ==> before(s[i], s[j])
    ensures forall i, j :: 0 <= i < j < |Keep(s, p)| ==> before(Keep(s, p)[i], Keep(s, p)[j])
  {
    if s != [] {
      var init, last := s[..|s| - 1], s[|s| - 1];
      KeepKeepsOrder(init, p, before);
      var r0 := Keep(init, p);
      var r := Keep(s, p);
      if p(last) {
        assert r == r0 + [last];
        forall i, j | 0 <= i < j < |r| ensures before(r[i], r[j]) {
          assert r[i] == r0[i];
          if j < |r0| {
            assert r[j] == r0[j];
            assert before(r0[i], r0[j]);
          } else {
            KeepFrom(init, p, i);
            var k :| 0 <= k < |init| && init[k] == r0[i];
            assert s[k] == r[i] && s[|s| - 1] == r[j];
            assert before(s[k], s[|s| - 1]);
          }
        }
      } else {
        assert r == r0;
      }
    }
  }

  // ---------------------------------------------------------------------
  // head(n)

  /** `head(n)`: the first `n` rows, or all of them when there are fewer. */
  function Head<T>(s: seq<T>, n: nat): (r: seq<T>)
    ensures |r| == if |s| < n then |s| else n
    ensures r == s[..|r|]
  {
    if |s| <= n then s else s[..n]
  }

  // ---------------------------------------------------------------------
  // groupby(key).count()

  /** One row of a `groupby(key).count()` result: a key and the number of rows with it. */
  datatype Group<K> = Group(key: K, size: nat)

  function GroupKeys<K>(gs: seq<Group<K>>): (ks: seq<K>)
    ensures |ks| == |gs| && forall i :: 0 <= i < |gs| ==> ks[i] == gs[i].key
  {
    if gs == [] then [] else [gs[0].key] + GroupKeys(gs[1..])
  }

  predicate DistinctKeys<K(==)>(gs: seq<Group<K>>)
  {
    forall i, j :: 0 <= i < j < |gs| ==> gs[i].key != gs[j].key
  }

  /** The sum of the counts. */
  function Total<K>(gs: seq<Group<K>>): nat
  {
    if gs == [] then 0 else gs[0].size + Total(gs[1..])
  }

  /** Counts one more row with key `k`. */
  function Tally<K(==)>(gs: seq<Group<K>>, k: K): seq<Group<K>>
  {
    if gs == [] then [Group(k, 1)]
    else if gs[0].key == k then [Group(k, gs[0].size + 1)] + gs[1..]
    else [gs[0]] + Tally(gs[1..], k)
  }

  /** `groupby(key).count()` over the key column `keys`, groups in order of first appearance. */
  function CountBy<K(==)>(keys: seq<K>): seq<Group<K>>
  {
    if keys == [] then [] else Tally(CountBy(keys[..|keys| - 1]), keys[|keys| - 1])
  }

  lemma {:induction false} TallyKeys<K>(gs: seq<Group<K>>, k: K)
    ensures GroupKeys(Tally(gs, k)) == if k in GroupKeys(gs) then GroupKeys(gs) else GroupKeys(gs) + [k]
  {
    if gs != [] {
      TallyKeys(gs[1..], k);
      var t := Tally(gs, k);
      assert GroupKeys(gs) == [gs[0].key] + GroupKeys(gs[1..]);
      if gs[0].key != k {
        assert GroupKeys(t) == [gs[0].key] + GroupKeys(Tally(gs[1..], k));
        assert k in GroupKeys(gs) <==> k in GroupKeys(gs[1..]);
      } else {
        assert t[1..] == gs[1..];
        assert GroupKeys(t) == [k] + GroupKeys(gs[1..]);
      }
    }
  }

  lemma {:induction false} TallySizes<K>(gs: seq<Group<K>>, k: K)
    requires DistinctKeys(gs)
    ensures |Tally(gs, k)| >= |gs|
    ensures forall i :: 0 <= i < |gs| ==> Tally(gs, k)[i].size == gs[i].size + (if gs[i].key == k then 1 else 0)
    ensures |Tally(gs, k)| > |gs| ==> Tally(gs, k)[|gs|].size == 1
  {
    if gs != [] {
      TallySizes(gs[1..], k);
      var t := Tally(gs, k);
      if gs[0].key == k {
        assert t[1..] == gs[1..];
        forall i | 1 <= i < |gs| ensures gs[i].key != k { }
      } else {
        assert t[1..] == Tally(gs[1..], k);
        forall i | 1 <= i < |gs| ensures t[i].size == gs[i].size + (if gs[i].key == k then 1 else 0) {
          assert t[i] == Tally(gs[1..], k)[i - 1] && gs[i] == gs[1..][i - 1];
        }
      }
    }
  }

  lemma {:induction false} TallyTotal<K>(gs: seq<Group<K>>, k: K)
    ensures Total(Tally(gs, k)) == Total(gs) + 1
  {
    if gs != [] {
      TallyTotal(gs[1..], k);
      if gs[0].key == k { assert Tally(gs, k)[1..] == gs[1..]; }
    }
  }

  /** The sum of the counts of the groups whose key satisfies `q`. */
  function TotalWhere<K>(gs: seq<Group<K>>, q: K -> bool): nat
  {
    if gs == [] then 0 else (if q(gs[0].key) then gs[0].size else 0) + TotalWhere(gs[1..], q)
  }

  lemma {:induction false} TallyTotalWhere<K>(gs: seq<Group<K>>, k: K, q: K -> bool)
    ensures TotalWhere(Tally(gs, k), q) == TotalWhere(gs, q) + (if q(k) then 1 else 0)
  {
    if gs != [] {
      TallyTotalWhere(gs[1..], k, q);
      if gs[0].key == k { assert Tally(gs, k)[1..] == gs[1..]; }
    }
  }

  /** The groups whose key satisfies `q` count together the rows whose key satisfies it. */
  lemma {:induction false} CountByWhere<K>(keys: seq<K>, q: K -> bool)
    ensures TotalWhere(CountBy(keys), q) == |Keep(keys, q)|
  {
    if keys != [] {
      CountByWhere(keys[..|keys| - 1], q);
      TallyTotalWhere(CountBy(keys[..|keys| - 1]), keys[|keys| - 1], q);
    }
  }

  /**
   * `groupby(key).count()`: every key that occurs has exactly one group, no
   * other key has one, each group counts the rows with its key, and the
   * counts add up to the number of rows.
   */
  lemma {:induction false} CountByCorrect<K>(keys: seq<K>)
    ensures var gs := CountBy(keys);
      && DistinctKeys(gs)
      && (forall k :: k in GroupKeys(gs) <==> k in keys)
      && (forall i :: 0 <= i < |gs| ==> gs[i].size == multiset(keys)[gs[i].key] && gs[i].size > 0)
      && Total(gs) == |keys|
  {
    if keys != [] {
      var init, last := keys[..|keys| - 1], keys[|keys| - 1];
      assert keys == init + [last];
      CountByCorrect(init);
      var gs0 := CountBy(init);
      var gs := Tally(gs0, last);
      TallyKeys(gs0, last);
      TallySizes(gs0, last);
      TallyTotal(gs0, last);
      var ks0 := GroupKeys(gs0);
      forall i, j | 0 <= i < j < |gs| ensures gs[i].key != gs[j].key {
        assert GroupKeys(gs)[i] == gs[i].key && GroupKeys(gs)[j] == gs[j].key;
        if j == |gs0| {
          assert gs[i].key == ks0[i];
        } else {
          assert gs[i].key == ks0[i] == gs0[i].key && gs[j].key == ks0[j] == gs0[j].key;
        }
      }
      forall i | 0 <= i < |gs|
        ensures gs[i].size == multiset(keys)[gs[i].key] && gs[i].size > 0
      {
        if i < |gs0| {
          assert gs[i].key == GroupKeys(gs)[i] == ks0[i] == gs0[i].key;
        } else {
          assert gs[i].key == last;
          assert last !in init;
        }
      }
    }
  }

  // ---------------------------------------------------------------------
  // min() and max()

  /** `max()` of an integer column; `None` for an empty column, where pandas gives NaN. */
  function MaxOf(s: seq<int>): (r: Option<int>)
    ensures r.Some? <==> s != []
    ensures r.Some? ==> r.value in s && forall i :: 0 <= i < |s| ==> s[i] <= r.value
  {
    if s == [] then None
    else match MaxOf(s[1..])
      case None => Some(s[0])
      case Some(m) => Some(if s[0] >= m then s[0] else m)
  }

  /** `min()` of an integer column; `None` for an empty column, where pandas gives NaN. */
  function MinOf(s: seq<int>): (r: Option<int>)
    ensures r.Some? <==> s != []
    ensures r.Some? ==> r.value in s && forall i :: 0 <= i < |s| ==> r.value <= s[i]
  {
    if s == [] then None
    else match MinOf(s[1..])
      case None => Some(s[0])
      case Some(m) => Some(if s[0] <= m then s[0] else m)
  }

  /** On a non-empty column the minimum is at most the maximum. */
  lemma MinAtMostMax(s: seq<int>)
    requires s != []
    ensures MinOf(s).value <= MaxOf(s).value
  {
    assert MinOf(s).value <= s[0] <= MaxOf(s).value;
  }
}
