/**
 * A replica of the replicated dictionary: an object owning one mutable log
 * of operations. Local edits append to the log without any validation;
 * `Data` replays the log into an ordered dictionary; `Merge` builds a new
 * replica whose log interleaves two others by timestamp.
 *
 * Timestamps come from a wall clock in crdt.py; here every editing
 * method takes the timestamp as a parameter.
 */
module Crdt {
  import opened OrderedDict
  import opened Log
  import opened MergeOrder

  class CRDT<K(==), V> {
    /** Every operation performed on (or merged into) this replica, in order. */
    var log: seq<Operation<K, V>>

    /** A new replica with an empty log. */
    constructor()
      ensures log == []
    {
      log := [];
    }

    /**
     * Push `op` onto the log, accepted as it is: no kind, key or timestamp
     * check. The replayed dictionary is then the old outcome with `op`
     * applied.
     */
    method Append(op: Operation<K, V>)
      modifies this
      ensures log == old(log) + [op]
      ensures Replay(log) == Then(old(Replay(log)), op)
    {
      ReplaySnoc(log, op);
      log := log + [op];
    }

    /** Record an ADD of `key` with `value`; afterwards `key` maps to `value` unless replay already failed. */
    method Add(ts: int, key: K, value: V)
      modifies this
      ensures log == old(log) + [Operation.Add(ts, key, value)]
      ensures log[|log| - 1].Op() == ADD
      ensures old(Replay(log)).Ok? ==>
        Replay(log).Ok? && key in Keys(Replay(log).value) && Get(Replay(log).value, key) == value
    {
      if Replay(log).Ok? { AddThenReplay(log, ts, key, value); }
      Append(Operation.Add(ts, key, value));
    }

    /**
     * Record a REMOVE of `key`, storing no value. It is recorded even when
     * `key` is absent, and it never makes replay fail.
     */
    method Remove(ts: int, key: K)
      modifies this
      ensures log == old(log) + [Operation.Remove(ts, key)]
      ensures log[|log| - 1].Op() == REMOVE
      ensures old(Replay(log)).Ok? ==> Replay(log).Ok? && key !in Keys(Replay(log).value)
    {
      if Replay(log).Ok? { RemoveThenReplay(log, ts, key); }
      Append(Operation.Remove(ts, key));
    }

    /**
     * Record an UPDATE renaming `key` to `newKey`. It is recorded even when
     * `key` is absent, in which case replay now fails with `KeyError(key)`,
     * unless replay had already failed (the earlier failure then stands).
     */
    method Update(ts: int, key: K, newKey: K)
      modifies this
      ensures log == old(log) + [Operation.Update(ts, key, newKey)]
      ensures log[|log| - 1].Op() == UPDATE
      ensures old(Replay(log)).Ok? && key !in Keys(old(Replay(log)).value) ==>
        Replay(log) == Err(KeyError(key))
      ensures old(Replay(log)).Ok? && key in Keys(old(Replay(log)).value) ==>
        && Replay(log).Ok?
        && newKey in Keys(Replay(log).value)
        && Get(Replay(log).value, newKey) == Get(old(Replay(log)).value, key)
    {
      if Replay(log).Ok? { UpdateThenReplay(log, ts, key, newKey); }
      Append(Operation.Update(ts, key, newKey));
    }

    /**
     * `data()`: replay the log into a fresh ordered dictionary, one
     * operation at a time; an UPDATE of an absent key stops the replay with
     * `KeyError`.
     */
    method Data() returns (r: Outcome<K, V>)
      ensures r == Replay(log)
    {
      var res: Dict<K, V> := [];
      for i := 0 to |log|
        invariant Fold(res, log[i..]) == Replay(log)
      {
        assert log[i..][0] == log[i] && log[i..][1..] == log[i + 1..];
        match log[i] {
          case Add(_, k, v) =>
            res := Assign(res, k, v);
          case Remove(_, k) =>
            res := Pop(res, k);
          case Update(_, k, nk) =>
            if k !in Keys(res) {
              return Err(KeyError(k));
            }
            var moved := Get(res, k);
            res := Pop(res, k);
            res := Assign(res, nk, moved);
        }
      }
      assert log[|log|..] == [];
      return Ok(res);
    }
  }

  /** Moving the next operation from what remains to what is done keeps their concatenation. */
  lemma PushStep<T>(done: seq<T>, x: T, rest: seq<T>)
    ensures (done + [x]) + rest == done + ([x] + rest)
  {
  }

  lemma CopyStep<T>(done: seq<T>, s: seq<T>, n: nat)
    requires n < |s|
    ensures (done + [s[n]]) + s[n + 1..] == done + s[n..]
  {
    assert s[n..] == [s[n]] + s[n + 1..];
  }

  /**
   * `merge(crdt, other)`: a new replica whose log takes the two logs'
   * operations in timestamp order, `crdt`'s first on equal timestamps, then
   * the remainder of whichever log is not exhausted. Neither input changes.
   */
  method Merge<K(==), V>(crdt: CRDT<K, V>, other: CRDT<K, V>) returns (res: CRDT<K, V>)
    ensures fresh(res)
    ensures res.log == MergeLogs(crdt.log, other.log)
    ensures crdt.log == old(crdt.log) && other.log == old(other.log)
  {
    ghost var a, b := crdt.log, other.log;
    var i, j := 0, 0;
    res := new CRDT();
    while i < |crdt.log| && j < |other.log|
      invariant 0 <= i <= |a| && 0 <= j <= |b|
      invariant fresh(res)
      invariant res.log + MergeLogs(a[i..], b[j..]) == MergeLogs(a, b)
      decreases |a| - i + |b| - j
    {
      if crdt.log[i].ts <= other.log[j].ts {
        MergeTakesLeft(a, b, i, j);
        PushStep(res.log, a[i], MergeLogs(a[i + 1..], b[j..]));
        res.Append(crdt.log[i]);
        i := i + 1;
        continue;
      }
      MergeTakesRight(a, b, i, j);
      PushStep(res.log, b[j], MergeLogs(a[i..], b[j + 1..]));
      res.Append(other.log[j]);
      j := j + 1;
    }

    if i < |crdt.log| {
      assert MergeLogs(a[i..], b[j..]) == a[i..];
      for n := i to |crdt.log|
        invariant fresh(res)
        invariant res.log + a[n..] == MergeLogs(a, b)
      {
        CopyStep(res.log, a, n);
        res.Append(crdt.log[n]);
      }
    } else {
      assert MergeLogs(a[i..], b[j..]) == b[j..];
      for n := j to |other.log|
        invariant fresh(res)
        invariant res.log + b[n..] == MergeLogs(a, b)
      {
        CopyStep(res.log, b, n);
        res.Append(other.log[n]);
      }
    }
  }

  /**
   * Two replicas that add disjoint halves of a dictionary, the second one
   * later, merge into a replica whose data is the whole dictionary.
   */
  lemma MergedAddsReplay<K, V>(a: seq<Operation<K, V>>, b: seq<Operation<K, V>>, d1: Dict<K, V>, d2: Dict<K, V>)
    requires Distinct(d1 + d2) && AddsOf(a, d1) && AddsOf(b, d2)
    requires forall i, j :: 0 <= i < |a| && 0 <= j < |b| ==> a[i].ts <= b[j].ts
    ensures Replay(MergeLogs(a, b)) == Ok(d1 + d2)
  {
    MergeOfLaterLog(a, b);
    assert AddsOf(a + b, d1 + d2) by {
      forall i | 0 <= i < |a + b|
        ensures (a + b)[i].Add? && (a + b)[i].key == (d1 + d2)[i].0 && (a + b)[i].value == (d1 + d2)[i].1
      {
        if i >= |a| { assert (a + b)[i] == b[i - |a|] && (d1 + d2)[i] == d2[i - |a|]; }
      }
    }
    ReplayAdds(a + b, d1 + d2);
  }

  /**
   * Re-adding the keys of `d`, in the same order, with new values: after
   * the first `k` re-adds, the first `k` entries hold the new values and the
   * rest the old ones; at the end the dictionary is the new one.
   */
  lemma {:induction false} ReaddsOverwrite<K, V>(d: Dict<K, V>, ops: seq<Operation<K, V>>, e: Dict<K, V>, k: nat)
    requires Distinct(d) && Keys(d) == Keys(e) && AddsOf(ops, e) && k <= |e|
    ensures Fold(e[..k] + d[k..], ops[k..]) == Ok(e)
    decreases |e| - k
  {
    var cur := e[..k] + d[k..];
    if k == |e| {
      assert cur == e;
      assert ops[k..] == [];
    } else {
      assert Keys(cur) == Keys(d) by {
        forall i | 0 <= i < |d| ensures Keys(cur)[i] == Keys(d)[i] {
          assert Keys(e)[i] == e[i].0;
        }
      }
      assert e[k].0 == d[k].0 by { assert Keys(e)[k] == Keys(d)[k]; }
      GetAt(d, k);
      SameKeysSameIndex(cur, d, e[k].0);
      AssignAt(cur, e[k].0, e[k].1);
      assert cur[k := e[k]] == e[..k + 1] + d[k + 1..];
      assert ops[k..][0] == ops[k] && ops[k..][1..] == ops[k + 1..];
      ReaddsOverwrite(d, ops, e, k + 1);
    }
  }

  /**
   * A replica that later re-adds every key of another replica's data, in
   * the same order and with new values, wins the merge: the merged data is
   * its dictionary.
   */
  lemma MergedReaddsReplay<K, V>(a: seq<Operation<K, V>>, b: seq<Operation<K, V>>, d1: Dict<K, V>, d2: Dict<K, V>)
    requires Distinct(d1) && AddsOf(a, d1) && AddsOf(b, d2) && Keys(d1) == Keys(d2)
    requires forall i, j :: 0 <= i < |a| && 0 <= j < |b| ==> a[i].ts <= b[j].ts
    ensures Replay(MergeLogs(a, b)) == Ok(d2)
  {
    MergeOfLaterLog(a, b);
    ReplayAdds(a, d1);
    FoldConcat([], a, b);
    ReaddsOverwrite(d1, b, d2, 0);
    assert d2[..0] + d1[0..] == d1 && b[0..] == b;
  }

  /**
   * The merge interleaves without reconciling: one replica removes a key
   * while another later renames it, each log replays on its own, and yet
   * the merged log fails with `KeyError` because the rename now follows
   * the remove.
   */
  lemma RemoveThenRenameBreaksReplay()
    ensures var a := [Operation<char, int>.Add(1, 'a', 1), Operation.Remove(2, 'a')];
            var b := [Operation<char, int>.Add(1, 'a', 1), Operation.Update(3, 'a', 'b')];
      && Replay(a) == Ok([])
      && Replay(b) == Ok([('b', 1)])
      && MergeLogs(a, b) == [a[0], b[0], a[1], b[1]]
      && Replay(MergeLogs(a, b)) == Err(KeyError('a'))
  {
    var a := [Operation<char, int>.Add(1, 'a', 1), Operation.Remove(2, 'a')];
    var b := [Operation<char, int>.Add(1, 'a', 1), Operation.Update(3, 'a', 'b')];
    assert MergeLogs(a, b) == [a[0]] + MergeLogs(a[1..], b);
    assert MergeLogs(a[1..], b) == [b[0]] + MergeLogs(a[1..], b[1..]);
    assert MergeLogs(a[1..], b[1..]) == [a[1]] + MergeLogs(a[2..], b[1..]);
    var m := MergeLogs(a, b);
    var one: Dict<char, int> := [('a', 1)];
    assert Keys(one) == ['a'] && IndexOf(one, 'a') == 0;
    assert Assign([], 'a', 1) == one && Assign(one, 'a', 1) == one && Pop(one, 'a') == [];
    assert Assign([], 'b', 1) == [('b', 1)];
    assert Fold([], b) == Fold(one, b[1..]) == Fold([('b', 1)], b[2..]);
    assert Fold([], m) == Fold(one, m[1..]) == Fold(one, m[2..]) == Fold([], m[3..]);
  }
}
