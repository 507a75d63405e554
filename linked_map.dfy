/** An insertion-ordered map (`LinkedHashMap`) as a sequence of entries whose
    keys are distinct; the order of the sequence is the iteration order. */
module LinkedMap {

  /** The keys in iteration order. */
  function Keys<K, V>(m: seq<(K, V)>): (r: seq<K>)
    ensures |r| == |m| && forall i :: 0 <= i < |m| ==> r[i] == m[i].0
  {
    seq(|m|, i requires 0 <= i < |m| => m[i].0)
  }

  ghost predicate DistinctKeys<K, V>(m: seq<(K, V)>) {
    forall i, j :: 0 <= i < j < |m| ==> m[i].0 != m[j].0
  }

  /** The position of a key, or -1 when the key is absent. */
  function IndexOf<K(==), V>(m: seq<(K, V)>, k: K): (r: int)
    ensures -1 <= r < |m|
    ensures r >= 0 ==> m[r].0 == k
    ensures r == -1 <==> forall i :: 0 <= i < |m| ==> m[i].0 != k
  {
    if m == [] then -1
    else if m[0].0 == k then 0
    else
      var r := IndexOf(m[1..], k);
      if r == -1 then -1 else r + 1
  }

  /** `put(k, v)`: overwrites the value in place when the key is present,
      appends a new last entry otherwise. This and `Increment` are the
      reference behaviour of `LinkedHashMap`; `CountAll`, `DecrementAll` and
      `IncrementStep` prove the properties built on them. */
  function Put<K(==), V>(m: seq<(K, V)>, k: K, v: V): (r: seq<(K, V)>)
    requires DistinctKeys(m)
    ensures DistinctKeys(r)
    ensures IndexOf(m, k) >= 0 ==> r == m[IndexOf(m, k) := (k, v)]
    ensures IndexOf(m, k) == -1 ==> r == m + [(k, v)]
  {
    var i := IndexOf(m, k);
    if i >= 0 then m[i := (k, v)] else m + [(k, v)]
  }

  /** `compute(k, (t, count) -> count == null ? 1 : count + 1)`. */
  function Increment<K(==)>(m: seq<(K, int)>, k: K): (r: seq<(K, int)>)
    requires DistinctKeys(m)
    ensures DistinctKeys(r)
    ensures IndexOf(m, k) >= 0 ==> r == m[IndexOf(m, k) := (k, m[IndexOf(m, k)].1 + 1)]
    ensures IndexOf(m, k) == -1 ==> r == m + [(k, 1)]
  {
    var i := IndexOf(m, k);
    if i >= 0 then Put(m, k, m[i].1 + 1) else Put(m, k, 1)
  }

  /** `computeIfPresent(k, (t, count) -> count - 1)`: an absent key is left absent. */
  function DecrementIfPresent<K(==)>(m: seq<(K, int)>, k: K): (r: seq<(K, int)>)
    requires DistinctKeys(m)
    ensures DistinctKeys(r) && Keys(r) == Keys(m)
    ensures forall i :: 0 <= i < |m| ==> r[i] == if m[i].0 == k then (k, m[i].1 - 1) else m[i]
  {
    var i := IndexOf(m, k);
    if i >= 0 then Put(m, k, m[i].1 - 1) else m
  }

  /** `keys.forEach(k -> map.put(k, v))` on an empty map: one entry per key,
      in the order of the keys, each holding `v`. */
  method PutAll<K(==), V>(keys: seq<K>, v: V) returns (m: seq<(K, V)>)
    requires forall i, j :: 0 <= i < j < |keys| ==> keys[i] != keys[j]
    ensures DistinctKeys(m) && Keys(m) == keys
    ensures forall j :: 0 <= j < |m| ==> m[j].1 == v
  {
    m := [];
    var i := 0;
    while i < |keys|
      invariant 0 <= i <= |keys|
      invariant DistinctKeys(m) && Keys(m) == keys[..i]
      invariant forall j :: 0 <= j < |m| ==> m[j].1 == v
    {
      assert forall j :: 0 <= j < |m| ==> m[j].0 == keys[j] != keys[i];
      m := Put(m, keys[i], v);
      i := i + 1;
    }
    WholePrefix(keys, i);
  }

  /** `for (t : ts) map.computeIfPresent(t, (k, c) -> c - 1)`: every entry
      loses one for each occurrence of its key, and no entry is added. */
  method DecrementAll<K(==)>(m0: seq<(K, int)>, ts: seq<K>) returns (m: seq<(K, int)>)
    requires DistinctKeys(m0)
    ensures DistinctKeys(m) && Keys(m) == Keys(m0)
    ensures forall j :: 0 <= j < |m| ==> m[j].1 == m0[j].1 - multiset(ts)[m0[j].0]
  {
    m := m0;
    var i := 0;
    while i < |ts|
      invariant 0 <= i <= |ts|
      invariant DistinctKeys(m) && Keys(m) == Keys(m0)
      invariant forall j :: 0 <= j < |m| ==> m[j].1 == m0[j].1 - multiset(ts[..i])[m0[j].0]
    {
      assert ts[..i + 1] == ts[..i] + [ts[i]];
      m := DecrementIfPresent(m, ts[i]);
      i := i + 1;
    }
    WholePrefix(ts, i);
  }

  /** `for (t : ts) map.compute(t, (k, c) -> c == null ? 1 : c + 1)` on an
      empty map: one entry per distinct element, in the order of first
      occurrence, holding the number of its occurrences. */
  method CountAll<K(==)>(ts: seq<K>) returns (m: seq<(K, int)>)
    ensures DistinctKeys(m) && Keys(m) == FirstSeen(ts)
    ensures forall j :: 0 <= j < |m| ==> m[j].1 == multiset(ts)[m[j].0]
    ensures SumValues(m) == |ts|
  {
    m := [];
    var i := 0;
    while i < |ts|
      invariant 0 <= i <= |ts|
      invariant DistinctKeys(m) && Keys(m) == FirstSeen(ts[..i])
      invariant forall j :: 0 <= j < |m| ==> m[j].1 == multiset(ts[..i])[m[j].0]
      invariant SumValues(m) == i
    {
      CountStep(m, ts, i);
      m := Increment(m, ts[i]);
      i := i + 1;
    }
    WholePrefix(ts, i);
  }

  /** One turn of the counting loop: counting `ts[i]` turns the counts of the
      first i elements into the counts of the first i + 1. */
  lemma CountStep<K>(m: seq<(K, int)>, ts: seq<K>, i: int)
    requires 0 <= i < |ts|
    requires DistinctKeys(m) && Keys(m) == FirstSeen(ts[..i])
    requires forall j :: 0 <= j < |m| ==> m[j].1 == multiset(ts[..i])[m[j].0]
    requires SumValues(m) == i
    ensures var m' := Increment(m, ts[i]);
            DistinctKeys(m') && Keys(m') == FirstSeen(ts[..i + 1]) &&
            (forall j :: 0 <= j < |m'| ==> m'[j].1 == multiset(ts[..i + 1])[m'[j].0]) &&
            SumValues(m') == i + 1
  {
    assert ts[..i + 1] == ts[..i] + [ts[i]];
    IncrementStep(m, ts[..i], ts[i]);
    SumAfterIncrement(m, ts[i]);
  }

  /** The sum of the values. */
  function SumValues<K>(m: seq<(K, int)>): int {
    if m == [] then 0 else SumValues(m[..|m| - 1]) + m[|m| - 1].1
  }

  /** Raising one value by one raises the sum by one. */
  lemma {:induction false} SumAfterBump<K>(m: seq<(K, int)>, i: int, k: K)
    requires 0 <= i < |m|
    ensures SumValues(m[i := (k, m[i].1 + 1)]) == SumValues(m) + 1
    decreases |m|
  {
    var r := m[i := (k, m[i].1 + 1)];
    assert r[..|r| - 1] == if i == |m| - 1 then m[..|m| - 1] else m[..|m| - 1][i := (k, m[i].1 + 1)];
    if i < |m| - 1 {
      SumAfterBump(m[..|m| - 1], i, k);
    }
  }

  /** `Increment` raises the sum of the values by one. */
  lemma SumAfterIncrement<K>(m: seq<(K, int)>, k: K)
    requires DistinctKeys(m)
    ensures SumValues(Increment(m, k)) == SumValues(m) + 1
  {
    var i := IndexOf(m, k);
    var r := Increment(m, k);
    if i >= 0 {
      assert r == m[i := (k, m[i].1 + 1)];
      SumAfterBump(m, i, k);
    } else {
      assert r == m + [(k, 1)];
      assert r[..|m|] == m;
    }
  }

  /** The prefix of a sequence up to its length is the sequence itself. */
  lemma WholePrefix<T>(s: seq<T>, n: int)
    requires n == |s|
    ensures s[..n] == s
  {
  }

  /** The distinct elements of a sequence in the order of their first occurrence. */
  ghost function FirstSeen<T>(s: seq<T>): (r: seq<T>)
    ensures forall i :: 0 <= i < |r| ==> r[i] in s
    ensures forall i :: 0 <= i < |s| ==> s[i] in r
    ensures forall i, j :: 0 <= i < j < |r| ==> r[i] != r[j]
  {
    if s == [] then []
    else
      var p := FirstSeen(s[..|s| - 1]);
      assert s == s[..|s| - 1] + [s[|s| - 1]];
      if s[|s| - 1] in s[..|s| - 1] then p else p + [s[|s| - 1]]
  }

  /** Appending an element extends the first-seen order exactly when the
      element is new. */
  lemma FirstSeenAppend<T>(s: seq<T>, t: T)
    ensures t in s ==> FirstSeen(s + [t]) == FirstSeen(s)
    ensures t !in s ==> FirstSeen(s + [t]) == FirstSeen(s) + [t]
  {
    assert (s + [t])[..|s|] == s;
  }

  /** `compute` counting one more occurrence of `t` keeps the entries equal to
      the first-seen keys of the counted times paired with their occurrence counts. */
  lemma IncrementStep<K>(m: seq<(K, int)>, s: seq<K>, t: K)
    requires DistinctKeys(m) && Keys(m) == FirstSeen(s)
    requires forall j :: 0 <= j < |m| ==> m[j].1 == multiset(s)[m[j].0]
    ensures DistinctKeys(Increment(m, t)) && Keys(Increment(m, t)) == FirstSeen(s + [t])
    ensures forall j :: 0 <= j < |Increment(m, t)| ==>
              Increment(m, t)[j].1 == multiset(s + [t])[Increment(m, t)[j].0]
  {
    FirstSeenAppend(s, t);
    assert multiset(s + [t]) == multiset(s) + multiset{t};
    var i := IndexOf(m, t);
    if i >= 0 {
      assert Keys(m)[i] == t;
      IncrementPresent(m, multiset(s), t, i);
    } else {
      assert t !in FirstSeen(s);
      IncrementAbsent(m, multiset(s), t);
    }
  }

  /** Counting a key already present bumps its entry and keeps every other entry. */
  lemma IncrementPresent<K>(m: seq<(K, int)>, ms: multiset<K>, t: K, i: int)
    requires DistinctKeys(m) && 0 <= i < |m| && m[i].0 == t
    requires forall j :: 0 <= j < |m| ==> m[j].1 == ms[m[j].0]
    ensures Keys(Increment(m, t)) == Keys(m)
    ensures forall j :: 0 <= j < |m| ==> Increment(m, t)[j].1 == (ms + multiset{t})[Increment(m, t)[j].0]
  {
    assert IndexOf(m, t) == i;
    var r := Increment(m, t);
    assert r == m[i := (t, m[i].1 + 1)];
    forall j | 0 <= j < |m|
      ensures r[j].1 == (ms + multiset{t})[r[j].0]
    {
      if j != i {
        assert r[j] == m[j] && m[j].0 != t;
      }
    }
  }

  /** Counting a new key appends it with the count one. */
  lemma IncrementAbsent<K>(m: seq<(K, int)>, ms: multiset<K>, t: K)
    requires DistinctKeys(m) && forall j :: 0 <= j < |m| ==> m[j].0 != t
    requires forall j :: 0 <= j < |m| ==> m[j].1 == ms[m[j].0]
    requires ms[t] == 0
    ensures Keys(Increment(m, t)) == Keys(m) + [t]
    ensures forall j :: 0 <= j < |Increment(m, t)| ==> Increment(m, t)[j].1 == (ms + multiset{t})[Increment(m, t)[j].0]
  {
    var r := Increment(m, t);
    assert r == m + [(t, 1)];
    forall j | 0 <= j < |r|
      ensures r[j].1 == (ms + multiset{t})[r[j].0]
    {
      if j < |m| {
        assert r[j] == m[j] && m[j].0 != t;
      }
    }
  }
}
