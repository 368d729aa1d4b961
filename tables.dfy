/**
 * Database tables as sequences of rows in insertion order, and the LINQ queries
 * the repositories run on them: `Where`, `FirstOrDefault`, `Count`, and the
 * row replacement an EF Core `Update` performs.
 */
module Tables {
  import opened Wrappers

  /** `Where(p)`: the rows satisfying `p`, in table order. */
  function Filter<T(!new)>(s: seq<T>, p: T -> bool): (r: seq<T>)
    ensures |r| <= |s|
    ensures forall k :: 0 <= k < |r| ==> p(r[k])
    ensures forall x :: x in r <==> x in s && p(x)
  {
    if s == [] then []
    else if p(s[0]) then [s[0]] + Filter(s[1..], p)
    else Filter(s[1..], p)
  }

  /** `FirstOrDefault(p)`: the first row satisfying `p`, or None when there is none. */
  function First<T>(s: seq<T>, p: T -> bool): (r: Option<T>)
    ensures r.None? <==> forall k :: 0 <= k < |s| ==> !p(s[k])
    ensures r.Some? ==> exists i :: 0 <= i < |s| && s[i] == r.value && p(s[i]) && forall j :: 0 <= j < i ==> !p(s[j])
  {
    if s == [] then None
    else if p(s[0]) then Some(s[0])
    else
      var r := First(s[1..], p);
      assert forall k :: 1 <= k < |s| ==> s[k] == s[1..][k - 1];
      r
  }

  /** Every row satisfying `p` replaced by `x`, every other row left as it is. */
  function ReplaceWhere<T>(s: seq<T>, p: T -> bool, x: T): (r: seq<T>)
    ensures |r| == |s|
    ensures forall k :: 0 <= k < |s| ==> r[k] == if p(s[k]) then x else s[k]
  {
    seq(|s|, k requires 0 <= k < |s| => if p(s[k]) then x else s[k])
  }

  /** Both predicates at once. */
  function Both<T>(p: T -> bool, q: T -> bool): T -> bool {
    x => p(x) && q(x)
  }

  lemma {:induction false} FilterFilter<T(!new)>(s: seq<T>, p: T -> bool, q: T -> bool)
    ensures Filter(Filter(s, p), q) == Filter(s, Both(p, q))
  {
    if s != [] {
      FilterFilter(s[1..], p, q);
    }
  }

  /** Two predicates that agree on the rows of a table select the same rows. */
  lemma {:induction false} FilterCongruent<T(!new)>(s: seq<T>, p: T -> bool, q: T -> bool)
    requires forall k :: 0 <= k < |s| ==> p(s[k]) == q(s[k])
    ensures Filter(s, p) == Filter(s, q)
  {
    if s != [] {
      FilterCongruent(s[1..], p, q);
    }
  }

  /** A row appended at the end is selected, after the others, exactly when it satisfies the predicate. */
  lemma {:induction false} FilterAppend<T(!new)>(s: seq<T>, x: T, p: T -> bool)
    ensures Filter(s + [x], p) == Filter(s, p) + if p(x) then [x] else []
  {
    if s == [] {
      assert [x][1..] == [];
    } else {
      assert (s + [x])[1..] == s[1..] + [x];
      FilterAppend(s[1..], x, p);
    }
  }

  /** A predicate that holds on every row selects the whole table. */
  lemma {:induction false} FilterAll<T(!new)>(s: seq<T>, p: T -> bool)
    requires forall k :: 0 <= k < |s| ==> p(s[k])
    ensures Filter(s, p) == s
  {
    if s != [] {
      FilterAll(s[1..], p);
    }
  }

  /** No two rows share a key: the primary-key constraint of a table. */
  predicate UniqueBy<T, K(==)>(s: seq<T>, key: T -> K) {
    forall i, j :: 0 <= i < j < |s| ==> key(s[i]) != key(s[j])
  }

  /** The key is not yet used by any row. */
  predicate FreshKey<T, K(==)>(s: seq<T>, key: T -> K, k: K) {
    forall i :: 0 <= i < |s| ==> key(s[i]) != k
  }

  /** Under unique keys, a row found by its key is the only row with that key. */
  lemma KeyedRow<T(!new), K>(s: seq<T>, key: T -> K, x: T, y: T)
    requires UniqueBy(s, key) && x in s && y in s && key(x) == key(y)
    ensures x == y
  {
  }

  lemma {:induction false} FilterUnique<T(!new), K>(s: seq<T>, p: T -> bool, key: T -> K)
    requires UniqueBy(s, key)
    ensures UniqueBy(Filter(s, p), key)
  {
    if s != [] {
      assert UniqueBy(s[1..], key) by {
        forall i, j | 0 <= i < j < |s[1..]| ensures key(s[1..][i]) != key(s[1..][j]) {
          assert s[1..][i] == s[i + 1] && s[1..][j] == s[j + 1];
        }
      }
      FilterUnique(s[1..], p, key);
      if p(s[0]) {
        var r := Filter(s[1..], p);
        forall j | 0 <= j < |r| ensures key(s[0]) != key(r[j]) {
          assert r[j] in s[1..];
          var m :| 0 <= m < |s[1..]| && s[1..][m] == r[j];
          assert s[m + 1] == r[j];
        }
        assert ([s[0]] + r)[0] == s[0];
        assert forall j :: 1 <= j < |r| + 1 ==> ([s[0]] + r)[j] == r[j - 1];
      }
    }
  }

  lemma AppendUnique<T, K>(s: seq<T>, key: T -> K, x: T)
    requires UniqueBy(s, key) && FreshKey(s, key, key(x))
    ensures UniqueBy(s + [x], key)
  {
    assert forall i :: 0 <= i < |s| ==> (s + [x])[i] == s[i];
  }

  /** Replacing rows by a row with the same key keeps the keys unique. */
  lemma ReplaceUnique<T, K>(s: seq<T>, p: T -> bool, x: T, key: T -> K)
    requires UniqueBy(s, key)
    requires forall k :: 0 <= k < |s| && p(s[k]) ==> key(s[k]) == key(x)
    ensures UniqueBy(ReplaceWhere(s, p, x), key)
  {
    var r := ReplaceWhere(s, p, x);
    assert forall k :: 0 <= k < |s| ==> key(r[k]) == key(s[k]);
  }

  /** A row appended to a table with no match for `p` becomes its first match. */
  lemma FirstAppend<T>(s: seq<T>, x: T, p: T -> bool)
    requires First(s, p).None? && p(x)
    ensures First(s + [x], p) == Some(x)
  {
    var t := s + [x];
    var r := First(t, p);
    assert p(t[|s|]);
    var i :| 0 <= i < |t| && t[i] == r.value && p(t[i]) && forall j :: 0 <= j < i ==> !p(t[j]);
    assert forall k :: 0 <= k < |s| ==> t[k] == s[k];
  }

  /** Appending a row that does not match leaves the first match as it was. */
  lemma FirstAppendOther<T>(s: seq<T>, x: T, p: T -> bool)
    requires !p(x)
    ensures First(s + [x], p) == First(s, p)
  {
    var t := s + [x];
    assert forall k :: 0 <= k < |s| ==> t[k] == s[k];
    if First(s, p).Some? {
      var i :| 0 <= i < |s| && s[i] == First(s, p).value && p(s[i]) && forall j :: 0 <= j < i ==> !p(s[j]);
      var m :| 0 <= m < |t| && t[m] == First(t, p).value && p(t[m]) && forall j :: 0 <= j < m ==> !p(t[j]);
      assert m == i;
    }
  }

  /** Filtering out exactly one row leaves the table without that row. */
  lemma {:induction false} FilterOne<T(!new)>(s: seq<T>, p: T -> bool, i: nat)
    requires i < |s| && !p(s[i])
    requires forall j :: 0 <= j < |s| && j != i ==> p(s[j])
    ensures Filter(s, p) == s[..i] + s[i + 1..]
  {
    if i == 0 {
      FilterAll(s[1..], p);
    } else {
      FilterOne(s[1..], p, i - 1);
      assert s[1..][..i - 1] == s[1..i];
      assert s[1..][i..] == s[i + 1..];
      assert s[..i] == [s[0]] + s[1..i];
    }
  }

  /** Under unique keys, dropping the rows with key `k` drops the one row that has it. */
  lemma DropKey<T(!new), K>(s: seq<T>, key: T -> K, p: T -> bool, i: nat)
    requires UniqueBy(s, key) && i < |s|
    requires forall x :: p(x) <==> key(x) != key(s[i])
    ensures Filter(s, p) == s[..i] + s[i + 1..]
  {
    FilterOne(s, p, i);
  }

  /** The positions of the table whose row satisfies `p`. */
  function Positions<T>(s: seq<T>, p: T -> bool): set<int> {
    set k | 0 <= k < |s| && p(s[k])
  }

  /** `Where(p).Count()` is the number of positions of the table whose row satisfies `p`. */
  lemma {:induction false} FilterCount<T(!new)>(s: seq<T>, p: T -> bool)
    ensures |Filter(s, p)| == |Positions(s, p)|
  {
    if s != [] {
      var t, x := s[..|s| - 1], s[|s| - 1];
      assert s == t + [x];
      FilterAppend(t, x, p);
      FilterCount(t, p);
      var before := Positions(t, p);
      var after := Positions(s, p);
      var last: set<int> := if p(x) then {|t|} else {};
      forall k ensures k in after <==> k in before + last {
        if 0 <= k < |t| {
          assert s[k] == t[k];
        }
      }
      assert after == before + last;
      assert before !! last;
      assert |before + last| == |before| + |last|;
    }
  }

  /** The keys of the rows of a table. */
  ghost function Keys<T, K>(s: seq<T>, key: T -> K): set<K> {
    set x | x in s :: key(x)
  }

  /** The rows whose key is not among `ids`. */
  ghost function KeyNotIn<T, K>(key: T -> K, ids: set<K>): T -> bool {
    x => key(x) !in ids
  }

  /** One more row of a sequence adds its key. */
  lemma KeysStep<T, K>(s: seq<T>, key: T -> K, i: nat)
    requires i < |s|
    ensures Keys(s[..i + 1], key) == Keys(s[..i], key) + {key(s[i])}
  {
    assert s[..i + 1] == s[..i] + [s[i]];
  }

  /** Deleting the rows with key `k` after those with keys in `ids` deletes those with keys in `ids + {k}`. */
  lemma DropKeyStep<T(!new), K>(s: seq<T>, key: T -> K, ids: set<K>, k: K, notK: T -> bool)
    requires forall x :: notK(x) <==> key(x) != k
    ensures Filter(Filter(s, KeyNotIn(key, ids)), notK) == Filter(s, KeyNotIn(key, ids + {k}))
  {
    FilterFilter(s, KeyNotIn(key, ids), notK);
    FilterCongruent(s, Both(KeyNotIn(key, ids), notK), KeyNotIn(key, ids + {k}));
  }

  /**
   * Under unique keys, deleting by key every row that `p` selects leaves the
   * rows `p` does not select.
   */
  lemma DropSelected<T(!new), K>(s: seq<T>, key: T -> K, p: T -> bool, notP: T -> bool)
    requires UniqueBy(s, key)
    requires forall x :: notP(x) <==> !p(x)
    ensures Filter(s, KeyNotIn(key, Keys(Filter(s, p), key))) == Filter(s, notP)
  {
    var selected := Filter(s, p);
    forall k | 0 <= k < |s| ensures KeyNotIn(key, Keys(selected, key))(s[k]) == notP(s[k]) {
      if key(s[k]) in Keys(selected, key) {
        var y :| y in selected && key(y) == key(s[k]);
        KeyedRow(s, key, y, s[k]);
      }
    }
    FilterCongruent(s, KeyNotIn(key, Keys(selected, key)), notP);
  }

  /** A predicate that holds on no row selects nothing. */
  lemma {:induction false} FilterNone<T(!new)>(s: seq<T>, p: T -> bool)
    requires forall k :: 0 <= k < |s| ==> !p(s[k])
    ensures Filter(s, p) == []
  {
    if s != [] {
      FilterNone(s[1..], p);
    }
  }

  /** Writing the same rows twice keeps the second write. */
  lemma ReplaceTwice<T>(s: seq<T>, p: T -> bool, x: T, y: T)
    requires p(x)
    ensures ReplaceWhere(ReplaceWhere(s, p, x), p, y) == ReplaceWhere(s, p, y)
  {
  }

  /**
   * Under unique keys, overwriting the first row `p` selects by a row that `p`
   * still selects makes that row the first one `p` selects.
   */
  lemma FirstReplaced<T, K>(s: seq<T>, p: T -> bool, q: T -> bool, key: T -> K, y: T)
    requires UniqueBy(s, key) && First(s, p).Some? && p(y)
    requires forall x :: q(x) <==> key(x) == key(First(s, p).value)
    ensures First(ReplaceWhere(s, q, y), p) == Some(y)
  {
    var r := ReplaceWhere(s, q, y);
    var i :| 0 <= i < |s| && s[i] == First(s, p).value && p(s[i]) && forall j :: 0 <= j < i ==> !p(s[j]);
    forall j | 0 <= j < i ensures !p(r[j]) {
      assert key(s[j]) != key(s[i]);
    }
    assert r[i] == y;
    var v := First(r, p);
    var i0 :| 0 <= i0 < |r| && r[i0] == v.value && p(r[i0]) && forall j :: 0 <= j < i0 ==> !p(r[j]);
    assert i0 == i;
  }
}
