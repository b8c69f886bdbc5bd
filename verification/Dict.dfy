/** A Python dict: entries in insertion order, assignment keeps a present key in place. */
module Dict {
  import opened Base

  type Dict<K, V> = seq<(K, V)>

  ghost predicate NoDup<K, V>(d: Dict<K, V>) {
    forall i, j :: 0 <= i < j < |d| ==> d[i].0 != d[j].0
  }

  predicate Has<K(==), V>(d: Dict<K, V>, k: K) {
    d != [] && (d[0].0 == k || Has(d[1..], k))
  }

  function Get<K(==), V>(d: Dict<K, V>, k: K): (r: Option<V>)
    ensures r.Some? <==> Has(d, k)
  {
    if d == [] then None else if d[0].0 == k then Some(d[0].1) else Get(d[1..], k)
  }

  /** `d[k] = v`. */
  function Set<K(==), V>(d: Dict<K, V>, k: K, v: V): Dict<K, V> {
    if d == [] then [(k, v)]
    else if d[0].0 == k then [(k, v)] + d[1..]
    else [d[0]] + Set(d[1..], k, v)
  }

  /** `d.pop(k, None)`. */
  function Pop<K(==), V>(d: Dict<K, V>, k: K): Dict<K, V> {
    if d == [] then []
    else if d[0].0 == k then d[1..]
    else [d[0]] + Pop(d[1..], k)
  }

  function Keys<K, V>(d: Dict<K, V>): (r: seq<K>)
    ensures |r| == |d| && forall i :: 0 <= i < |d| ==> r[i] == d[i].0
  {
    seq(|d|, i requires 0 <= i < |d| => d[i].0)
  }

  function Values<K, V>(d: Dict<K, V>): (r: seq<V>)
    ensures |r| == |d| && forall i :: 0 <= i < |d| ==> r[i] == d[i].1
  {
    seq(|d|, i requires 0 <= i < |d| => d[i].1)
  }

  lemma {:induction false} HasAt<K, V>(d: Dict<K, V>, i: nat)
    requires i < |d|
    ensures Has(d, d[i].0)
  {
    if i > 0 {
      assert d[1..][i - 1] == d[i];
      HasAt(d[1..], i - 1);
    }
  }

  lemma {:induction false} HasIndex<K, V>(d: Dict<K, V>, k: K)
    ensures Has(d, k) <==> exists i :: 0 <= i < |d| && d[i].0 == k
  {
    forall i | 0 <= i < |d| && d[i].0 == k ensures Has(d, k) {
      HasAt(d, i);
    }
    if Has(d, k) {
      var i := IndexOf(d, k);
      assert d[i].0 == k;
    }
  }

  lemma {:induction false} IndexOf<K, V>(d: Dict<K, V>, k: K) returns (i: nat)
    requires Has(d, k)
    ensures i < |d| && d[i].0 == k
  {
    if d[0].0 == k {
      i := 0;
    } else {
      i := IndexOf(d[1..], k);
      i := i + 1;
    }
  }

  lemma {:induction false} SetNew<K, V>(d: Dict<K, V>, k: K, v: V)
    requires !Has(d, k)
    ensures Set(d, k, v) == d + [(k, v)]
  {
    if d != [] {
      SetNew(d[1..], k, v);
      assert [d[0]] + (d[1..] + [(k, v)]) == d + [(k, v)];
    } else {
      assert d + [(k, v)] == [(k, v)];
    }
  }

  lemma {:induction false} PopAbsent<K, V>(d: Dict<K, V>, k: K)
    requires !Has(d, k)
    ensures Pop(d, k) == d
  {
    if d != [] {
      PopAbsent(d[1..], k);
    }
  }

  lemma {:induction false} GetSet<K, V>(d: Dict<K, V>, k: K, v: V, j: K)
    ensures Get(Set(d, k, v), j) == if j == k then Some(v) else Get(d, j)
  {
    if d != [] && d[0].0 != k {
      GetSet(d[1..], k, v, j);
    }
  }

  lemma {:induction false} GetPop<K, V>(d: Dict<K, V>, k: K, j: K)
    requires NoDup(d)
    ensures Get(Pop(d, k), j) == if j == k then None else Get(d, j)
  {
    if d != [] {
      if d[0].0 == k {
        HasIndex(d[1..], k);
      } else {
        GetPop(d[1..], k, j);
      }
    }
  }

  lemma {:induction false} SetKeys<K, V>(d: Dict<K, V>, k: K, v: V)
    requires NoDup(d)
    ensures NoDup(Set(d, k, v))
  {
    if Has(d, k) {
      SetKeepsKeys(d, k, v);
    } else {
      SetNew(d, k, v);
      HasIndex(d, k);
    }
  }

  lemma {:induction false} SetKeepsKeys<K, V>(d: Dict<K, V>, k: K, v: V)
    requires Has(d, k)
    ensures |Set(d, k, v)| == |d| && forall i :: 0 <= i < |d| ==> Set(d, k, v)[i].0 == d[i].0
  {
    if d[0].0 != k {
      SetKeepsKeys(d[1..], k, v);
    }
  }

  lemma {:induction false} PopKeys<K, V>(d: Dict<K, V>, k: K)
    requires NoDup(d)
    ensures NoDup(Pop(d, k))
    ensures forall e :: e in Pop(d, k) ==> e in d
  {
    if d != [] && d[0].0 != k {
      PopKeys(d[1..], k);
      var p := Pop(d[1..], k);
      forall j | 0 <= j < |p| ensures p[j].0 != d[0].0 {
        assert p[j] in d[1..];
      }
    }
  }
}
