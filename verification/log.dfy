/**
 * The operations a replica records and the replay that turns its log into
 * the current dictionary (`CRDT.data`).
 *
 * Replaying starts from an empty ordered dictionary and applies each
 * operation in log order: ADD assigns the key, REMOVE pops it if present
 * and does nothing otherwise, UPDATE pops the key and assigns its value
 * under the new key, failing with `KeyError` when the key is absent. The
 * first failure ends the replay.
 */
module Log {
  import opened OrderedDict

  /** Kind codes carried in an operation's `op` field. */
  const ADD: int := 0
  const REMOVE: int := 1
  const UPDATE: int := 3

  /**
   * An immutable log entry. The payload depends on the kind: ADD carries the
   * value, REMOVE none, UPDATE the new key name.
   */
  datatype Operation<K, V> =
    | Add(ts: int, key: K, value: V)
    | Remove(ts: int, key: K)
    | Update(ts: int, key: K, newKey: K)
  {
    /** The kind code stored in the record. */
    function Op(): (code: int)
      ensures code in {ADD, REMOVE, UPDATE}
      ensures code == ADD <==> this.Add?
      ensures code == REMOVE <==> this.Remove?
      ensures code == UPDATE <==> this.Update?
    {
      match this
      case Add(_, _, _) => ADD
      case Remove(_, _) => REMOVE
      case Update(_, _, _) => UPDATE
    }
  }

  datatype Result<T, E> = Ok(value: T) | Err(error: E)

  /** The exception replay raises: a `KeyError` naming the missing key. */
  datatype KeyError<K> = KeyError(key: K)

  type Outcome<K, V> = Result<Dict<K, V>, KeyError<K>>

  /** One iteration of the replay loop. */
  function Apply<K(==), V>(d: Dict<K, V>, op: Operation<K, V>): (r: Outcome<K, V>)
    ensures r.Err? <==> op.Update? && op.key !in Keys(d)
    ensures r.Err? ==> r.error == KeyError(op.key)
  {
    match op
    case Add(_, k, v) => Ok(Assign(d, k, v))
    case Remove(_, k) => Ok(Pop(d, k))
    case Update(_, k, nk) =>
      if k in Keys(d) then Ok(Assign(Pop(d, k), nk, Get(d, k))) else Err(KeyError(k))
  }

  /** Applying an operation to the outcome so far; a failure stays a failure. */
  function Then<K(==), V>(r: Outcome<K, V>, op: Operation<K, V>): Outcome<K, V>
  {
    match r
    case Err(e) => Err(e)
    case Ok(d) => Apply(d, op)
  }

  /** Left fold of `ops` over `d`, stopping at the first failure. */
  function Fold<K(==), V>(d: Dict<K, V>, ops: seq<Operation<K, V>>): Outcome<K, V>
    decreases |ops|
  {
    if ops == [] then Ok(d)
    else
      match Apply(d, ops[0])
      case Err(e) => Err(e)
      case Ok(d') => Fold(d', ops[1..])
  }

  /** `data()`: the log folded over an empty ordered dictionary. */
  function Replay<K(==), V>(log: seq<Operation<K, V>>): Outcome<K, V>
  {
    Fold([], log)
  }

  /** Every operation keeps the dictionary's keys distinct. */
  lemma ApplyKeepsDistinct<K, V>(d: Dict<K, V>, op: Operation<K, V>)
    requires Distinct(d)
    ensures Apply(d, op).Ok? ==> Distinct(Apply(d, op).value)
  {
    match op
    case Add(_, k, v) => AssignSemantics(d, k, v);
    case Remove(_, k) => PopSemantics(d, k);
    case Update(_, k, nk) =>
      if k in Keys(d) {
        PopSemantics(d, k);
        AssignSemantics(Pop(d, k), nk, Get(d, k));
      }
  }

  /** A successful replay yields a dictionary whose keys are distinct. */
  lemma {:induction false} FoldKeepsDistinct<K, V>(d: Dict<K, V>, ops: seq<Operation<K, V>>)
    requires Distinct(d)
    ensures Fold(d, ops).Ok? ==> Distinct(Fold(d, ops).value)
    decreases |ops|
  {
    if ops != [] {
      ApplyKeepsDistinct(d, ops[0]);
      if Apply(d, ops[0]).Ok? {
        FoldKeepsDistinct(Apply(d, ops[0]).value, ops[1..]);
      }
    }
  }

  lemma ReplayDistinct<K, V>(log: seq<Operation<K, V>>)
    ensures Replay(log).Ok? ==> Distinct(Replay(log).value)
  {
    FoldKeepsDistinct([], log);
  }

  /** Folding a concatenation folds the first part, then the second. */
  lemma {:induction false} FoldConcat<K, V>(d: Dict<K, V>, ops: seq<Operation<K, V>>, more: seq<Operation<K, V>>)
    ensures Fold(d, ops + more) == match Fold(d, ops) case Err(e) => Err(e) case Ok(d') => Fold(d', more)
    decreases |ops|
  {
    if ops == [] {
      assert ops + more == more;
    } else {
      assert (ops + more)[0] == ops[0];
      assert (ops + more)[1..] == ops[1..] + more;
      if Apply(d, ops[0]).Ok? {
        FoldConcat(Apply(d, ops[0]).value, ops[1..], more);
      }
    }
  }

  /** Replaying a log with one more operation applies it to the earlier outcome. */
  lemma ReplaySnoc<K, V>(log: seq<Operation<K, V>>, op: Operation<K, V>)
    ensures Replay(log + [op]) == Then(Replay(log), op)
  {
    FoldConcat([], log, [op]);
  }

  /** Once replay has failed, later operations do not change the failure. */
  lemma ErrorSticks<K, V>(log: seq<Operation<K, V>>, more: seq<Operation<K, V>>)
    requires Replay(log).Err?
    ensures Replay(log + more) == Replay(log)
  {
    FoldConcat([], log, more);
  }

  /**
   * ADD: the key now maps to the value. A key that was present keeps its
   * position (the key order is unchanged); a new key comes last. No other
   * key changes.
   */
  lemma AddThenReplay<K, V>(log: seq<Operation<K, V>>, ts: int, k: K, v: V)
    requires Replay(log).Ok?
    ensures var d, r := Replay(log).value, Replay(log + [Add(ts, k, v)]);
      && r.Ok?
      && Keys(r.value) == (if k in Keys(d) then Keys(d) else Keys(d) + [k])
      && Get(r.value, k) == v
      && forall k' :: k' != k && k' in Keys(d) ==> Get(r.value, k') == Get(d, k')
  {
    ReplaySnoc(log, Add(ts, k, v));
    ReplayDistinct(log);
    AssignSemantics(Replay(log).value, k, v);
  }

  /**
   * REMOVE never fails. Of an absent key it changes nothing; of a present
   * key it deletes that entry and leaves the other keys in order with their
   * values.
   */
  lemma RemoveThenReplay<K, V>(log: seq<Operation<K, V>>, ts: int, k: K)
    requires Replay(log).Ok?
    ensures var d, r := Replay(log).value, Replay(log + [Remove(ts, k)]);
      && r.Ok?
      && (k !in Keys(d) ==> r.value == d)
      && (k in Keys(d) ==> Keys(r.value) == Keys(d)[..IndexOf(d, k)] + Keys(d)[IndexOf(d, k) + 1..])
      && k !in Keys(r.value)
      && forall k' :: k' != k && k' in Keys(d) ==> Get(r.value, k') == Get(d, k')
  {
    ReplaySnoc(log, Remove(ts, k));
    ReplayDistinct(log);
    PopSemantics(Replay(log).value, k);
  }

  /**
   * UPDATE of an absent key fails with `KeyError`. Of a present key it
   * deletes the old entry and assigns its value under the new key: the new
   * key keeps its position if it is another key already present (and is
   * overwritten); otherwise it comes last, including when a key is renamed
   * to itself. No other key changes.
   */
  lemma UpdateThenReplay<K, V>(log: seq<Operation<K, V>>, ts: int, k: K, nk: K)
    requires Replay(log).Ok?
    ensures var d, r := Replay(log).value, Replay(log + [Update(ts, k, nk)]);
      && (k !in Keys(d) ==> r == Err(KeyError(k)))
      && (k in Keys(d) ==>
           var rest := Keys(d)[..IndexOf(d, k)] + Keys(d)[IndexOf(d, k) + 1..];
           && r.Ok?
           && Keys(r.value) == (if nk in rest then rest else rest + [nk])
           && Get(r.value, nk) == Get(d, k)
           && (nk != k ==> k !in Keys(r.value))
           && forall k' :: k' != k && k' != nk && k' in Keys(d) ==> Get(r.value, k') == Get(d, k'))
  {
    var d := Replay(log).value;
    ReplaySnoc(log, Update(ts, k, nk));
    ReplayDistinct(log);
    if k in Keys(d) {
      PopSemantics(d, k);
      AssignSemantics(Pop(d, k), nk, Get(d, k));
    }
  }

  /** `log` adds the entries of `d` one by one, in order, at any timestamps. */
  ghost predicate AddsOf<K, V>(log: seq<Operation<K, V>>, d: Dict<K, V>)
  {
    && |log| == |d|
    && forall i :: 0 <= i < |log| ==> log[i].Add? && log[i].key == d[i].0 && log[i].value == d[i].1
  }

  /** Adding the entries of a dictionary in its order rebuilds that dictionary. */
  lemma {:induction false} ReplayAdds<K, V>(log: seq<Operation<K, V>>, d: Dict<K, V>)
    requires Distinct(d) && AddsOf(log, d)
    ensures Replay(log) == Ok(d)
    decreases |log|
  {
    if log != [] {
      var n := |log| - 1;
      assert AddsOf(log[..n], d[..n]);
      ReplayAdds(log[..n], d[..n]);
      assert log == log[..n] + [log[n]];
      ReplaySnoc(log[..n], log[n]);
      forall j | 0 <= j < n ensures Keys(d[..n])[j] != d[n].0 {
        assert d[..n][j] == d[j];
      }
      AssignAt(d[..n], d[n].0, d[n].1);
      assert d[..n] + [d[n]] == d;
    }
  }

  /** Adding one key several times leaves a single entry holding the last value. */
  lemma {:induction false} RepeatedAddsKeepLast<K, V>(log: seq<Operation<K, V>>, k: K)
    requires log != []
    requires forall i :: 0 <= i < |log| ==> log[i].Add? && log[i].key == k
    ensures Replay(log) == Ok([(k, log[|log| - 1].value)])
    decreases |log|
  {
    var n := |log| - 1;
    assert log == log[..n] + [log[n]];
    ReplaySnoc(log[..n], log[n]);
    if n > 0 {
      RepeatedAddsKeepLast(log[..n], k);
      assert Assign([(k, log[n - 1].value)], k, log[n].value) == [(k, log[n].value)];
    }
  }
}
