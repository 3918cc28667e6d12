/** Plain JavaScript objects used as dictionaries.

    An object's own string-keyed properties are enumerated (Object.keys,
    Object.entries, for...in, spread) in insertion order: assigning to an
    existing property changes its value in place, assigning to a new one
    adds it last. Both the server and the client rely on that order, so a
    dictionary is modelled as the sequence of its properties. */
module JsObject {

  datatype Option<T> = None | Some(value: T)

  /** The own properties of an object, in enumeration order. */
  type Dict<K, V> = seq<(K, V)>

  /** Object.keys(d) */
  function Keys<K, V>(d: Dict<K, V>): seq<K>
  {
    seq(|d|, i requires 0 <= i < |d| => d[i].0)
  }

  /** A real object never holds the same property twice. */
  predicate DistinctKeys<K(==), V>(d: Dict<K, V>)
  {
    forall i, j | 0 <= i < j < |d| :: d[i].0 != d[j].0
  }

  /** `d[k]`, with None standing for `undefined`. */
  function Get<K(==), V>(d: Dict<K, V>, k: K): (r: Option<V>)
    ensures r.None? <==> k !in Keys(d)
    ensures r.Some? ==> (k, r.value) in d
  {
    if d == [] then None
    else
      assert Keys(d) == [d[0].0] + Keys(d[1..]);
      if d[0].0 == k then Some(d[0].1) else Get(d[1..], k)
  }

  /** `d[k] = v`: an existing property keeps its position and takes the new
      value; a new property is added after all the others. */
  function Assign<K(==), V>(d: Dict<K, V>, k: K, v: V): (r: Dict<K, V>)
    ensures k !in Keys(d) ==> r == d + [(k, v)]
    ensures |r| == if k in Keys(d) then |d| else |d| + 1
  {
    if d == [] then [(k, v)]
    else
      assert Keys(d) == [d[0].0] + Keys(d[1..]);
      if d[0].0 == k then [(k, v)] + d[1..]
      else [d[0]] + Assign(d[1..], k, v)
  }

  /** Assigning an existing property moves no key: the keys of the result are
      the keys of d, in the same order; a new key goes last. */
  lemma {:induction false} AssignKeys<K, V>(d: Dict<K, V>, k: K, v: V)
    ensures Keys(Assign(d, k, v)) == if k in Keys(d) then Keys(d) else Keys(d) + [k]
  {
    if d != [] {
      assert Keys(d) == [d[0].0] + Keys(d[1..]);
      if d[0].0 == k {
        assert Keys(Assign(d, k, v)) == [k] + Keys(d[1..]);
      } else {
        AssignKeys(d[1..], k, v);
        assert Keys(Assign(d, k, v)) == [d[0].0] + Keys(Assign(d[1..], k, v));
      }
    }
  }

  /** After `d[k] = v`, reading k gives v, every other property reads as
      before, and no property is duplicated. */
  lemma {:induction false} AssignGet<K(!new), V>(d: Dict<K, V>, k: K, v: V)
    ensures Get(Assign(d, k, v), k) == Some(v)
    ensures forall k' | k' != k :: Get(Assign(d, k, v), k') == Get(d, k')
    ensures DistinctKeys(d) ==> DistinctKeys(Assign(d, k, v))
  {
    if d != [] {
      assert Keys(d) == [d[0].0] + Keys(d[1..]);
      if d[0].0 == k {
        var r := [(k, v)] + d[1..];
        assert r[1..] == d[1..];
        assert Keys(r) == [k] + Keys(d[1..]);
        if DistinctKeys(d) {
          forall i, j | 0 <= i < j < |r| ensures r[i].0 != r[j].0 {
            assert r[j] == d[j];
            if i > 0 { assert r[i] == d[i]; }
          }
        }
      } else {
        AssignGet(d[1..], k, v);
        AssignStep(d, k, v, Assign(d[1..], k, v));
      }
    }
  }

  /** The step of Assign that passes over a first property other than k. */
  lemma AssignStep<K(!new), V>(d: Dict<K, V>, k: K, v: V, tail: Dict<K, V>)
    requires d != [] && d[0].0 != k
    requires Get(tail, k) == Some(v)
    requires forall k' | k' != k :: Get(tail, k') == Get(d[1..], k')
    requires DistinctKeys(d[1..]) ==> DistinctKeys(tail)
    ensures Get([d[0]] + tail, k) == Some(v)
    ensures forall k' | k' != k :: Get([d[0]] + tail, k') == Get(d, k')
    ensures DistinctKeys(d) ==> DistinctKeys([d[0]] + tail)
  {
    var r := [d[0]] + tail;
    assert r[1..] == tail;
    assert Keys(d) == [d[0].0] + Keys(d[1..]);
    if DistinctKeys(d) {
      assert DistinctKeys(d[1..]);
      assert d[0].0 !in Keys(d[1..]) by {
        forall i | 0 <= i < |d[1..]| ensures Keys(d[1..])[i] != d[0].0 {
          assert d[1..][i] == d[i + 1];
        }
      }
      forall k' | k' in Keys(tail) ensures k' != d[0].0 {
        if k' == k {
        } else {
          assert Get(tail, k').Some?;
        }
      }
      forall i, j | 0 <= i < j < |r| ensures r[i].0 != r[j].0 {
        if i == 0 {
          assert r[j].0 == Keys(tail)[j - 1];
          assert Keys(tail)[j - 1] in Keys(tail);
        } else {
          assert r[i] == tail[i - 1] && r[j] == tail[j - 1];
        }
      }
    }
  }

  /** Looking a key up in `a + b` finds it in `a` first. */
  lemma {:induction false} GetAppend<K, V>(a: Dict<K, V>, b: Dict<K, V>, k: K)
    ensures Keys(a + b) == Keys(a) + Keys(b)
    ensures Get(a + b, k) == if k in Keys(a) then Get(a, k) else Get(b, k)
  {
    if a != [] {
      assert (a + b)[0] == a[0];
      assert (a + b)[1..] == a[1..] + b;
      GetAppend(a[1..], b, k);
      assert Keys(a) == [a[0].0] + Keys(a[1..]);
      assert Keys(a + b) == [a[0].0] + Keys(a[1..] + b);
      if a[0].0 == k {
        assert Keys(a)[0] == k;
      }
    } else {
      assert a + b == b;
    }
  }

  /** In an object, the property at position i is the one `Get` finds. */
  lemma {:induction false} GetAt<K, V>(d: Dict<K, V>, i: nat)
    requires DistinctKeys(d) && i < |d|
    ensures Get(d, d[i].0) == Some(d[i].1)
  {
    if i > 0 {
      assert DistinctKeys(d[1..]);
      GetAt(d[1..], i - 1);
    }
  }

  /** After `d[k] = v` every property is the new one or an old one. */
  lemma {:induction false} AssignEntries<K, V>(d: Dict<K, V>, k: K, v: V)
    ensures forall e | e in Assign(d, k, v) :: e == (k, v) || e in d
  {
    if d != [] && d[0].0 != k {
      AssignEntries(d[1..], k, v);
    }
  }

  /** Assigning the same property twice leaves only the second value. */
  lemma {:induction false} AssignOverwrite<K, V>(d: Dict<K, V>, k: K, v1: V, v2: V)
    ensures Assign(Assign(d, k, v1), k, v2) == Assign(d, k, v2)
  {
    if d == [] {
    } else if d[0].0 == k {
      assert ([(k, v1)] + d[1..])[1..] == d[1..];
    } else {
      var tail := Assign(d[1..], k, v1);
      assert ([d[0]] + tail)[1..] == tail;
      AssignOverwrite(d[1..], k, v1, v2);
    }
  }

  /** Assigning a property the value it already has changes nothing. */
  lemma {:induction false} AssignCurrent<K, V>(d: Dict<K, V>, k: K, v: V)
    requires Get(d, k) == Some(v)
    ensures Assign(d, k, v) == d
  {
    if d[0].0 != k {
      AssignCurrent(d[1..], k, v);
    }
    assert d == [d[0]] + d[1..];
  }

  /** Growing a prefix of an object by one property. */
  lemma GetPrefix<K, V>(d: Dict<K, V>, i: nat, k: K)
    requires DistinctKeys(d) && i < |d|
    ensures Get(d[..i + 1], k) == if k == d[i].0 then Some(d[i].1) else Get(d[..i], k)
  {
    assert d[..i + 1] == d[..i] + [d[i]];
    GetAppend(d[..i], [d[i]], k);
    if k == d[i].0 {
      assert k !in Keys(d[..i]);
    }
  }
}
