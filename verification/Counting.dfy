/** Counting which keys of a table name a value: the arithmetic behind the per-file counts and the
    reference counts of libpurple/buddyicon.c and the online counts of libpurple/buddy.c. */
module Counting {
  import opened Basics

  function Get<K, V>(m: map<K, V>, k: K): Option<V> {
    if k in m then Some(m[k]) else None
  }

  // The entry set, or removed.
  function Put<K, V>(m: map<K, V>, k: K, v: Option<V>): map<K, V> {
    if v.Some? then m[k := v.value] else m - {k}
  }

  function PutAll<K, V>(m: map<K, V>, ks: seq<K>, v: Option<V>): map<K, V> {
    if ks == [] then m else Put(PutAll(m, ks[..|ks| - 1], v), ks[|ks| - 1], v)
  }

  lemma {:induction false} PutAllGet<K, V>(m: map<K, V>, ks: seq<K>, v: Option<V>, k: K)
    ensures Get(PutAll(m, ks, v), k) == if k in ks then v else Get(m, k)
  {
    if ks != [] {
      PutAllGet(m, ks[..|ks| - 1], v, k);
      assert ks == ks[..|ks| - 1] + [ks[|ks| - 1]];
    }
  }

  // The keys that a table maps to v, and how many there are.
  ghost function Namers<K(!new), V>(m: map<K, V>, v: V): set<K> {
    set k | k in m && m[k] == v
  }

  ghost function Named<K(!new), V>(m: map<K, V>, v: V): nat {
    |Namers(m, v)|
  }

  lemma WithOne<K>(s: set<K>, k: K)
    requires k !in s
    ensures |s + {k}| == |s| + 1
  {}

  lemma NamedAfterPut<K(!new), V>(m: map<K, V>, k: K, v: Option<V>, x: V)
    ensures Named(Put(m, k, v), x) == Named(m, x) - One(Get(m, k) == Some(x)) + One(v == Some(x))
  {
    var others := set j | j in m && j != k && m[j] == x;
    WithOne(others, k);
    assert Namers(m, x) == if Get(m, k) == Some(x) then others + {k} else others;
    assert Namers(Put(m, k, v), x) == if v == Some(x) then others + {k} else others;
  }

  lemma NamedIsPositive<K(!new), V>(m: map<K, V>, x: V)
    ensures Named(m, x) > 0 <==> exists k :: k in m && m[k] == x
  {
    if Named(m, x) > 0 {
      var k :| k in Namers(m, x);
    } else if k :| k in m && m[k] == x {
      assert k in Namers(m, x);
    }
  }

  // The count kept in a table that drops zeros by forgetting the key.
  function Count<V>(counts: map<V, int>, v: V): int {
    if v in counts then counts[v] else 0
  }

  // By how much a count exceeds the number of keys that it should stand for.
  ghost function Excess<K(!new), V>(counts: map<V, int>, m: map<K, V>, v: V): int {
    Count(counts, v) - Named(m, v)
  }

  // How many of the keys `ks` are mapped to v.
  ghost function NamedAmong<K, V>(m: map<K, V>, ks: seq<K>, v: V): nat {
    if ks == [] then 0 else NamedAmong(m, ks[..|ks| - 1], v) + One(Get(m, ks[|ks| - 1]) == Some(v))
  }

  // Changing a key outside `ks` does not matter.
  lemma NamedAmongFrame<K, V>(m: map<K, V>, m': map<K, V>, ks: seq<K>, v: V)
    requires forall k :: k in ks ==> Get(m, k) == Get(m', k)
    ensures NamedAmong(m, ks, v) == NamedAmong(m', ks, v)
  {}

  lemma NamedAmongHas<K, V>(m: map<K, V>, ks: seq<K>, k: K)
    requires k in ks && k in m
    ensures NamedAmong(m, ks, m[k]) > 0
  {
    var n := |ks| - 1;
    assert ks == ks[..n] + [ks[n]];
    if ks[n] != k {
      NamedAmongHas(m, ks[..n], k);
    }
  }

  lemma NamedAmongNone<K, V>(m: map<K, V>, ks: seq<K>, v: V)
    requires forall k :: k in ks ==> k !in m
    ensures NamedAmong(m, ks, v) == 0
  {}

  // Distinct keys that include all of the table's count everything.
  lemma {:induction false} NamedAmongAll<K(!new), V>(m: map<K, V>, ks: seq<K>, v: V)
    requires Distinct(ks) && forall k :: k in m ==> k in ks
    ensures NamedAmong(m, ks, v) == Named(m, v)
    decreases |ks|
  {
    if ks == [] {
      assert Namers(m, v) == {};
    } else {
      var k := ks[|ks| - 1];
      NamedAmongAll(m - {k}, ks[..|ks| - 1], v);
      NamedAmongFrame(m - {k}, m, ks[..|ks| - 1], v);
      NamedAfterPut(m, k, None, v);
    }
  }
}
