// JavaScript's Map: entries are visited in the order in which their keys were first inserted.
module OrderedMap {
  import opened Common

  type OMap<K(==), V> = seq<(K, V)>

  predicate HasKey<K(==), V>(m: OMap<K, V>, k: K) {
    exists j | 0 <= j < |m| :: m[j].0 == k
  }

  ghost predicate KeysDistinct<K, V>(m: OMap<K, V>) {
    forall i, j | 0 <= i < j < |m| :: m[i].0 != m[j].0
  }

  function Get<K(==), V>(m: OMap<K, V>, k: K): (r: Option<V>)
    ensures r.Some? <==> HasKey(m, k)
    ensures r.Some? ==> exists j | 0 <= j < |m| :: m[j] == (k, r.value)
  {
    if |m| == 0 then None
    else if m[0].0 == k then Some(m[0].1)
    else
      var r := Get(m[1..], k);
      assert HasKey(m[1..], k) ==> HasKey(m, k) by {
        if HasKey(m[1..], k) {
          var j :| 0 <= j < |m[1..]| && m[1..][j].0 == k;
          assert m[j + 1].0 == k;
        }
      }
      assert HasKey(m, k) ==> HasKey(m[1..], k) by {
        if HasKey(m, k) {
          var j :| 0 <= j < |m| && m[j].0 == k;
          assert m[1..][j - 1].0 == k;
        }
      }
      assert r.Some? ==> exists j | 0 <= j < |m| :: m[j] == (k, r.value) by {
        if r.Some? {
          var j :| 0 <= j < |m[1..]| && m[1..][j] == (k, r.value);
          assert m[j + 1] == (k, r.value);
        }
      }
      r
  }

  /** `m.set(k, v)`: an existing key keeps its place. */
  function Put<K(==), V>(m: OMap<K, V>, k: K, v: V): OMap<K, V> {
    if |m| == 0 then [(k, v)]
    else if m[0].0 == k then [(k, v)] + m[1..]
    else [m[0]] + Put(m[1..], k, v)
  }

  lemma {:induction false} PutNew<K, V>(m: OMap<K, V>, k: K, v: V)
    requires !HasKey(m, k)
    ensures Put(m, k, v) == m + [(k, v)]
  {
    if |m| > 0 {
      assert m[0].0 != k;
      forall j | 0 <= j < |m[1..]|
        ensures m[1..][j].0 != k
      {
        assert m[j + 1].0 != k;
      }
      PutNew(m[1..], k, v);
      assert [m[0]] + (m[1..] + [(k, v)]) == m + [(k, v)];
    }
  }

  lemma {:induction false} PutAt<K, V>(m: OMap<K, V>, j: nat, v: V)
    requires j < |m| && KeysDistinct(m)
    ensures Put(m, m[j].0, v) == m[j := (m[j].0, v)]
  {
    if j > 0 {
      assert m[0].0 != m[j].0;
      assert m[1..][j - 1] == m[j];
      forall a, b | 0 <= a < b < |m[1..]|
        ensures m[1..][a].0 != m[1..][b].0
      {
        assert m[a + 1].0 != m[b + 1].0;
      }
      PutAt(m[1..], j - 1, v);
      assert [m[0]] + m[1..][j - 1 := (m[j].0, v)] == m[j := (m[j].0, v)];
    }
  }

  lemma {:induction false} GetAt<K, V>(m: OMap<K, V>, j: nat)
    requires j < |m| && KeysDistinct(m)
    ensures Get(m, m[j].0) == Some(m[j].1)
  {
    if j > 0 {
      assert m[0].0 != m[j].0;
      assert m[1..][j - 1] == m[j];
      forall a, b | 0 <= a < b < |m[1..]|
        ensures m[1..][a].0 != m[1..][b].0
      {
        assert m[a + 1].0 != m[b + 1].0;
      }
      GetAt(m[1..], j - 1);
    }
  }
}
