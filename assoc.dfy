/** PHP's ordered arrays as association lists: a key occurs at most once, and
    the order of the pairs is the order in which keys were first written. */
module Assoc {
  import opened Php

  function Keys<K, V>(a: seq<(K, V)>): (ks: seq<K>)
    ensures |ks| == |a|
    ensures forall i :: 0 <= i < |a| ==> ks[i] == a[i].0
  {
    if |a| == 0 then [] else [a[0].0] + Keys(a[1..])
  }

  function Values<K, V>(a: seq<(K, V)>): (vs: seq<V>)
    ensures |vs| == |a|
    ensures forall i :: 0 <= i < |a| ==> vs[i] == a[i].1
  {
    if |a| == 0 then [] else [a[0].1] + Values(a[1..])
  }

  /** No key occurs twice: what every PHP array satisfies. */
  predicate Distinct<K(==), V>(a: seq<(K, V)>)
    decreases |a|
  {
    |a| == 0 || (a[0].0 !in Keys(a[1..]) && Distinct(a[1..]))
  }

  /** The same, pair by pair: no two positions hold the same key. */
  lemma {:induction false} DistinctPairs<K, V>(a: seq<(K, V)>)
    ensures Distinct(a) <==> forall i, j :: 0 <= i < j < |a| ==> a[i].0 != a[j].0
    decreases |a|
  {
    if |a| > 0 {
      var t := a[1..];
      DistinctPairs(t);
      assert forall i :: 1 <= i < |a| ==> a[i] == t[i - 1];
      if forall i, j :: 0 <= i < j < |a| ==> a[i].0 != a[j].0 {
        assert forall i, j :: 0 <= i < j < |t| ==> t[i].0 != t[j].0 by {
          forall i, j | 0 <= i < j < |t| ensures t[i].0 != t[j].0 {
            assert a[i + 1].0 != a[j + 1].0;
          }
        }
        assert a[0].0 !in Keys(t) by {
          forall i | 0 <= i < |t| ensures Keys(t)[i] != a[0].0 {
            assert a[0].0 != a[i + 1].0;
          }
        }
      }
      if Distinct(a) {
        forall i, j | 0 <= i < j < |a| ensures a[i].0 != a[j].0 {
          if i == 0 {
            assert Keys(t)[j - 1] == a[j].0;
          } else {
            assert t[i - 1].0 != t[j - 1].0;
          }
        }
      }
    }
  }

  /** $a[$k] when it exists. */
  function Get<K(==), V>(a: seq<(K, V)>, k: K): (r: Option<V>)
    ensures r.Some? <==> k in Keys(a)
    ensures r.Some? ==> exists i :: 0 <= i < |a| && a[i] == (k, r.value)
  {
    if |a| == 0 then None
    else if a[0].0 == k then Some(a[0].1)
    else Get(a[1..], k)
  }

  /** $a[$k], or null (with a notice) when the key is missing. */
  function GetOrNull(a: seq<(string, Value)>, k: string): Value
  {
    match Get(a, k)
    case Some(v) => v
    case None => Null
  }

  /** $a[$k] = $v: an existing key keeps its place and takes the new value;
      a new key is appended. */
  function Put<K(==,!new), V>(a: seq<(K, V)>, k: K, v: V): (r: seq<(K, V)>)
    ensures Get(r, k) == Some(v)
    ensures forall k' :: k' != k ==> Get(r, k') == Get(a, k')
    ensures k in Keys(a) ==> Keys(r) == Keys(a)
    ensures k !in Keys(a) ==> Keys(r) == Keys(a) + [k]
  {
    if |a| == 0 then [(k, v)]
    else
      var p := a[0];
      var rest := a[1..];
      assert a == [p] + rest;
      GetCons(p, rest);
      if p.0 == k then
        GetCons((k, v), rest);
        [(k, v)] + rest
      else
        var r := Put(rest, k, v);
        GetCons(p, r);
        AppendAssoc([p.0], Keys(rest), [k]);
        [p] + r
  }

  /** Appending a pair appends its key. */
  lemma KeysSnoc<K, V>(a: seq<(K, V)>, x: (K, V))
    ensures Keys(a + [x]) == Keys(a) + [x.0]
  {
    var l, r := Keys(a + [x]), Keys(a) + [x.0];
    forall i | 0 <= i < |l|
      ensures l[i] == r[i]
    {
      if i < |a| {
        assert (a + [x])[i] == a[i];
      }
    }
  }

  /** A pair in front of a list: its key comes first and answers for itself. */
  lemma GetCons<K, V>(p: (K, V), rest: seq<(K, V)>)
    ensures Keys([p] + rest) == [p.0] + Keys(rest)
    ensures forall k :: Get([p] + rest, k) == if p.0 == k then Some(p.1) else Get(rest, k)
  {
    assert ([p] + rest)[1..] == rest;
  }

  /** unset($a[$k]): the other pairs keep their order. */
  function Delete<K(==,!new), V>(a: seq<(K, V)>, k: K): (r: seq<(K, V)>)
    ensures k !in Keys(r)
    ensures forall k' :: k' != k ==> Get(r, k') == Get(a, k')
    ensures |r| <= |a|
  {
    if |a| == 0 then []
    else if a[0].0 == k then Delete(a[1..], k)
    else [a[0]] + Delete(a[1..], k)
  }

  lemma {:induction false} PutDistinct<K(!new), V>(a: seq<(K, V)>, k: K, v: V)
    requires Distinct(a)
    ensures Distinct(Put(a, k, v))
    decreases |a|
  {
    var r := Put(a, k, v);
    if |a| == 0 {
      assert r == [(k, v)] && r[1..] == [];
    } else if a[0].0 == k {
      assert r == [(k, v)] + a[1..] && r[1..] == a[1..];
    } else {
      var t := Put(a[1..], k, v);
      PutDistinct(a[1..], k, v);
      assert r == [a[0]] + t && r[1..] == t;
      assert a[0].0 !in Keys(t);
    }
  }

  /** unset() on a PHP array leaves a PHP array. */
  lemma DeleteDistinct<K(!new), V>(a: seq<(K, V)>, k: K)
    requires Distinct(a)
    ensures Distinct(Delete(a, k))
  {
    if k in Keys(a) {
      var i :| 0 <= i < |a| && Keys(a)[i] == k;
      DeleteAt(a, i);
      DistinctRemove(a, i);
    } else {
      assert forall i :: 0 <= i < |a| ==> Keys(a)[i] == a[i].0;
      DeleteAbsent(a, k);
    }
  }

  /** In a PHP array, deleting a key that sits at position i removes just that pair. */
  lemma {:induction false} DeleteAt<K(!new), V>(a: seq<(K, V)>, i: nat)
    requires Distinct(a) && i < |a|
    ensures Delete(a, a[i].0) == a[..i] + a[i + 1..]
  {
    var k := a[i].0;
    if i == 0 {
      assert forall j :: 0 <= j < |a[1..]| ==> Keys(a[1..])[j] == a[1..][j].0;
      DeleteAbsent(a[1..], k);
    } else {
      var t := a[1..];
      assert t[i - 1] == a[i];
      assert a[0].0 != k by {
        assert Keys(t)[i - 1] == k;
      }
      DeleteAt(t, i - 1);
      assert Delete(a, k) == [a[0]] + Delete(t, k);
      SliceAround(a, i);
    }
  }

  /** Cutting position i out of the tail and putting the head back in front. */
  lemma SliceAround<T>(a: seq<T>, i: nat)
    requires 0 < i < |a|
    ensures [a[0]] + (a[1..][..i - 1] + a[1..][i..]) == a[..i] + a[i + 1..]
  {
    assert a[1..][..i - 1] == a[1..i] && a[1..][i..] == a[i + 1..];
    assert a[..i] == [a[0]] + a[1..i];
  }

  lemma {:induction false} DeleteAbsent<K(!new), V>(a: seq<(K, V)>, k: K)
    requires forall i :: 0 <= i < |a| ==> a[i].0 != k
    ensures Delete(a, k) == a
  {
    if |a| > 0 {
      DeleteAbsent(a[1..], k);
    }
  }

  /** Looking a key up in an array extended by one pair. */
  lemma {:induction false} GetAppend<K(!new), V>(a: seq<(K, V)>, x: (K, V), k: K)
    ensures Get(a + [x], k) == if k in Keys(a) then Get(a, k) else if x.0 == k then Some(x.1) else None
  {
    if |a| > 0 {
      assert (a + [x])[1..] == a[1..] + [x];
      if a[0].0 != k {
        GetAppend(a[1..], x, k);
        assert k in Keys(a) <==> k in Keys(a[1..]) by {
          assert Keys(a) == [a[0].0] + Keys(a[1..]);
        }
      }
    } else {
      assert a + [x] == [x];
    }
  }

  /** Taking one pair out of a PHP array leaves a PHP array. */
  lemma DistinctRemove<K, V>(a: seq<(K, V)>, i: nat)
    requires Distinct(a) && i < |a|
    ensures Distinct(a[..i] + a[i + 1..])
  {
    var r := a[..i] + a[i + 1..];
    DistinctPairs(a);
    DistinctPairs(r);
    forall p, q | 0 <= p < q < |r| ensures r[p].0 != r[q].0 {
      var p' := if p < i then p else p + 1;
      var q' := if q < i then q else q + 1;
      assert r[p] == a[p'] && r[q] == a[q'];
    }
  }

  /** Looking a key up in a non-empty array, split before its last pair. */
  lemma GetSnoc<K(!new), V>(a: seq<(K, V)>, k: K)
    requires |a| > 0
    ensures var p := a[..|a| - 1]; var x := a[|a| - 1];
      && (k in Keys(a) <==> k in Keys(p) || x.0 == k)
      && Get(a, k) == if k in Keys(p) then Get(p, k) else if x.0 == k then Some(x.1) else None
  {
    var p := a[..|a| - 1];
    assert a == p + [a[|a| - 1]];
    GetAppend(p, a[|a| - 1], k);
    assert k in Keys(a) <==> k in Keys(p) || a[|a| - 1].0 == k by {
      if k in Keys(a) {
        var i :| 0 <= i < |a| && Keys(a)[i] == k;
        if i < |a| - 1 { assert Keys(p)[i] == k; }
      }
      if k in Keys(p) {
        var i :| 0 <= i < |p| && Keys(p)[i] == k;
        assert Keys(a)[i] == k;
      }
      if a[|a| - 1].0 == k { assert Keys(a)[|a| - 1] == k; }
    }
  }
}
