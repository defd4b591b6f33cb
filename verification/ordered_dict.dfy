/**
 * An insertion-ordered dictionary, as Python's `collections.OrderedDict`
 * behaves: a sequence of (key, value) entries in iteration order.
 *
 * Assigning a key that is present overwrites its value where it stands;
 * assigning a new key appends an entry at the end; popping a key removes
 * its entry and leaves the others in order.
 */
module OrderedDict {

  type Dict<K, V> = seq<(K, V)>

  /** The keys of `d` in iteration order. */
  function Keys<K, V>(d: Dict<K, V>): (ks: seq<K>)
    ensures |ks| == |d|
    ensures forall i {:trigger ks[i]} :: 0 <= i < |d| ==> ks[i] == d[i].0
  {
    if d == [] then [] else [d[0].0] + Keys(d[1..])
  }

  /** No key occurs twice: the invariant every dictionary keeps. */
  ghost predicate Distinct<K, V>(d: Dict<K, V>)
  {
    forall i, j :: 0 <= i < j < |d| ==> d[i].0 != d[j].0
  }

  /** Position of the entry for `k`: the first entry whose key is `k`. */
  function IndexOf<K(==), V>(d: Dict<K, V>, k: K): (i: nat)
    requires k in Keys(d)
    ensures i < |d| && d[i].0 == k
  {
    if d[0].0 == k then 0 else 1 + IndexOf(d[1..], k)
  }

  /** `d[k]`: the value stored under a present key. */
  function Get<K(==), V>(d: Dict<K, V>, k: K): V
    requires k in Keys(d)
  {
    d[IndexOf(d, k)].1
  }

  /** `d[k] = v`: overwrite in place, or append a new entry at the end. */
  function Assign<K(==), V>(d: Dict<K, V>, k: K, v: V): Dict<K, V>
  {
    if d == [] then [(k, v)]
    else if d[0].0 == k then [(k, v)] + d[1..]
    else [d[0]] + Assign(d[1..], k, v)
  }

  /** `d.pop(k, None)`, result discarded: remove the entry for `k` if there is one. */
  function Pop<K(==), V>(d: Dict<K, V>, k: K): Dict<K, V>
  {
    if d == [] then []
    else if d[0].0 == k then d[1..]
    else [d[0]] + Pop(d[1..], k)
  }

  /** Assignment overwrites the entry for a present key where it stands and appends a new key. */
  lemma {:induction false} AssignAt<K, V>(d: Dict<K, V>, k: K, v: V)
    ensures k in Keys(d) ==> Assign(d, k, v) == d[IndexOf(d, k) := (k, v)]
    ensures k !in Keys(d) ==> Assign(d, k, v) == d + [(k, v)]
  {
    if d != [] && d[0].0 != k {
      var t := d[1..];
      AssignAt(t, k, v);
      assert Keys(d) == [d[0].0] + Keys(t);
      if k in Keys(t) {
        var i := IndexOf(t, k);
        calc {
          Assign(d, k, v);
          [d[0]] + t[i := (k, v)];
          ([d[0]] + t)[i + 1 := (k, v)];
          { assert [d[0]] + t == d; }
          d[i + 1 := (k, v)];
        }
      } else {
        calc {
          Assign(d, k, v);
          [d[0]] + (t + [(k, v)]);
          ([d[0]] + t) + [(k, v)];
          { assert [d[0]] + t == d; }
          d + [(k, v)];
        }
      }
    }
  }

  /** Popping a present key removes exactly its entry; popping an absent key changes nothing. */
  lemma {:induction false} PopAt<K, V>(d: Dict<K, V>, k: K)
    ensures k in Keys(d) ==> Pop(d, k) == d[..IndexOf(d, k)] + d[IndexOf(d, k) + 1..]
    ensures k !in Keys(d) ==> Pop(d, k) == d
  {
    if d == [] {
    } else if d[0].0 == k {
      assert IndexOf(d, k) == 0;
      assert d[..0] + d[1..] == d[1..];
    } else {
      var t := d[1..];
      PopAt(t, k);
      KeysCons(d);
      if k in Keys(t) {
        var i := IndexOf(t, k);
        assert IndexOf(d, k) == i + 1;
        Splice(d, i + 1);
      } else {
        assert [d[0]] + t == d;
      }
    }
  }

  lemma KeysCons<K, V>(d: Dict<K, V>)
    requires d != []
    ensures Keys(d) == [d[0].0] + Keys(d[1..])
  {
  }

  /** Cutting position `i` out of `s` is cutting position `i - 1` out of its tail, after its head. */
  lemma Splice<T>(s: seq<T>, i: nat)
    requires 0 < i < |s|
    ensures [s[0]] + (s[1..][..i - 1] + s[1..][i..]) == s[..i] + s[i + 1..]
  {
    assert s[1..][..i - 1] == s[1..i];
    assert s[1..][i..] == s[i + 1..];
    assert [s[0]] + s[1..i] == s[..i];
  }

  /** Equal key sequences locate every key at the same position. */
  lemma {:induction false} SameKeysSameIndex<K, V>(d: Dict<K, V>, e: Dict<K, V>, k: K)
    requires Keys(d) == Keys(e) && k in Keys(d)
    ensures IndexOf(d, k) == IndexOf(e, k)
  {
    KeysCons(d);
    KeysCons(e);
    assert d[0].0 == Keys(d)[0] == Keys(e)[0] == e[0].0;
    if d[0].0 != k {
      assert Keys(d[1..]) == Keys(d)[1..] == Keys(e)[1..] == Keys(e[1..]);
      SameKeysSameIndex(d[1..], e[1..], k);
    }
  }

  /** Lookups in a dictionary with distinct keys find the only entry. */
  lemma GetAt<K, V>(d: Dict<K, V>, i: nat)
    requires Distinct(d) && i < |d|
    ensures d[i].0 in Keys(d) && IndexOf(d, d[i].0) == i && Get(d, d[i].0) == d[i].1
  {
    assert Keys(d)[i] == d[i].0;
  }

  /**
   * What assignment means: keys stay distinct; the key order is unchanged
   * when `k` was present and gains `k` at the end otherwise; `k` now maps
   * to `v`; every other key keeps its value.
   */
  lemma AssignSemantics<K, V>(d: Dict<K, V>, k: K, v: V)
    requires Distinct(d)
    ensures Distinct(Assign(d, k, v))
    ensures Keys(Assign(d, k, v)) == if k in Keys(d) then Keys(d) else Keys(d) + [k]
    ensures k in Keys(Assign(d, k, v)) && Get(Assign(d, k, v), k) == v
    ensures forall k' :: k' != k && k' in Keys(d) ==> Get(Assign(d, k, v), k') == Get(d, k')
  {
    AssignAt(d, k, v);
    if k in Keys(d) {
      AssignPresent(d, k, v);
    } else {
      AssignAbsent(d, k, v);
    }
  }

  lemma AssignPresent<K, V>(d: Dict<K, V>, k: K, v: V)
    requires Distinct(d) && k in Keys(d)
    ensures var r := d[IndexOf(d, k) := (k, v)];
      && Distinct(r) && Keys(r) == Keys(d) && k in Keys(r) && Get(r, k) == v
      && forall k' :: k' != k && k' in Keys(d) ==> Get(r, k') == Get(d, k')
  {
    var i := IndexOf(d, k);
    var r := d[i := (k, v)];
    assert Keys(r) == Keys(d) by {
      forall j | 0 <= j < |d| ensures Keys(r)[j] == Keys(d)[j] {
        assert r[j].0 == d[j].0;
      }
    }
    GetAt(r, i);
    forall k' | k' != k && k' in Keys(d) ensures Get(r, k') == Get(d, k') {
      SameKeysSameIndex(d, r, k');
    }
  }

  lemma AssignAbsent<K, V>(d: Dict<K, V>, k: K, v: V)
    requires Distinct(d) && k !in Keys(d)
    ensures var r := d + [(k, v)];
      && Distinct(r) && Keys(r) == Keys(d) + [k] && k in Keys(r) && Get(r, k) == v
      && forall k' :: k' != k && k' in Keys(d) ==> Get(r, k') == Get(d, k')
  {
    var r := d + [(k, v)];
    assert Keys(r) == Keys(d) + [k] by {
      forall j | 0 <= j < |r| ensures Keys(r)[j] == (Keys(d) + [k])[j] {
        assert r[j].0 == (Keys(d) + [k])[j];
      }
    }
    forall i, j | 0 <= i < j < |r| ensures r[i].0 != r[j].0 {
      if j == |d| { assert Keys(d)[i] == r[i].0; }
    }
    GetAt(r, |d|);
    forall k' | k' != k && k' in Keys(d) ensures Get(r, k') == Get(d, k') {
      var j := IndexOf(d, k');
      GetAt(d, j);
      GetAt(r, j);
    }
  }

  /**
   * What popping means: keys stay distinct; `k` is gone; the remaining keys
   * keep their relative order; every other key keeps its value.
   */
  lemma PopSemantics<K, V>(d: Dict<K, V>, k: K)
    requires Distinct(d)
    ensures Distinct(Pop(d, k))
    ensures k in Keys(d) ==>
      Keys(Pop(d, k)) == Keys(d)[..IndexOf(d, k)] + Keys(d)[IndexOf(d, k) + 1..]
    ensures k !in Keys(d) ==> Pop(d, k) == d
    ensures k !in Keys(Pop(d, k))
    ensures forall k' :: k' != k ==> (k' in Keys(Pop(d, k)) <==> k' in Keys(d))
    ensures forall k' :: k' != k && k' in Keys(d) ==> Get(Pop(d, k), k') == Get(d, k')
  {
    PopAt(d, k);
    if k in Keys(d) {
      PopPresent(d, k);
    }
  }

  lemma PopPresent<K, V>(d: Dict<K, V>, k: K)
    requires Distinct(d) && k in Keys(d)
    ensures var i := IndexOf(d, k); var r := d[..i] + d[i + 1..];
      && Distinct(r) && Keys(r) == Keys(d)[..i] + Keys(d)[i + 1..] && k !in Keys(r)
      && (forall k' :: k' != k ==> (k' in Keys(r) <==> k' in Keys(d)))
      && forall k' :: k' != k && k' in Keys(d) ==> Get(r, k') == Get(d, k')
  {
    var i := IndexOf(d, k);
    var r := d[..i] + d[i + 1..];
    SpliceKeys(d, i);
    SpliceDistinct(d, i);
    forall k' | k' in Keys(r) ensures k' in Keys(d) && k' != k {
      var j := IndexOf(r, k');
      SpliceIndex(d, i, j);
      assert Keys(d)[Skip(i, j)] == k';
    }
    forall k' | k' != k && k' in Keys(d)
      ensures k' in Keys(r) && Get(r, k') == Get(d, k')
    {
      SpliceGet(d, i, IndexOf(d, k'));
    }
  }

  /** Cutting an entry out cuts its key out of the key sequence. */
  lemma SpliceKeys<K, V>(d: Dict<K, V>, i: nat)
    requires i < |d|
    ensures Keys(d[..i] + d[i + 1..]) == Keys(d)[..i] + Keys(d)[i + 1..]
  {
    var r := d[..i] + d[i + 1..];
    forall j | 0 <= j < |r| ensures Keys(r)[j] == (Keys(d)[..i] + Keys(d)[i + 1..])[j] {
      SpliceIndex(d, i, j);
      SpliceIndex(Keys(d), i, j);
    }
  }

  lemma SpliceDistinct<K, V>(d: Dict<K, V>, i: nat)
    requires Distinct(d) && i < |d|
    ensures Distinct(d[..i] + d[i + 1..])
  {
    var r := d[..i] + d[i + 1..];
    forall a, b | 0 <= a < b < |r| ensures r[a].0 != r[b].0 {
      SpliceIndex(d, i, a);
      SpliceIndex(d, i, b);
    }
  }

  /** Every other entry survives the cut, and lookups still find it. */
  lemma SpliceGet<K, V>(d: Dict<K, V>, i: nat, j: nat)
    requires Distinct(d) && i < |d| && j < |d| && j != i
    ensures var r := d[..i] + d[i + 1..];
      d[j].0 in Keys(d) && d[j].0 in Keys(r) && Get(r, d[j].0) == Get(d, d[j].0)
  {
    var r := d[..i] + d[i + 1..];
    GetAt(d, j);
    var j' := if j < i then j else j - 1;
    SpliceIndex(d, i, j');
    SpliceDistinct(d, i);
    GetAt(r, j');
  }

  /** The position in `s` of element `j` once position `i` is cut out. */
  function Skip(i: nat, j: nat): nat
  {
    if j < i then j else j + 1
  }

  lemma SpliceIndex<T>(s: seq<T>, i: nat, j: nat)
    requires i < |s| && j < |s| - 1
    ensures (s[..i] + s[i + 1..])[j] == s[Skip(i, j)]
  {
  }
}
