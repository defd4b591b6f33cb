/**
 * The order in which `merge` interleaves two logs: a two-way merge by
 * timestamp, as in merge sort, taking the left log's operation first when
 * the timestamps are equal, then the rest of whichever log is left over.
 */
module MergeOrder {
  import opened Log

  /** The merged log of `a` (left) and `b` (right). */
  function MergeLogs<K, V>(a: seq<Operation<K, V>>, b: seq<Operation<K, V>>): (m: seq<Operation<K, V>>)
    ensures |m| == |a| + |b|
    decreases |a| + |b|
  {
    if a == [] then b
    else if b == [] then a
    else if a[0].ts <= b[0].ts then [a[0]] + MergeLogs(a[1..], b)
    else [b[0]] + MergeLogs(a, b[1..])
  }

  /** The merged log is a permutation of the two logs together: nothing is lost or duplicated. */
  lemma {:induction false} MergePermutes<K, V>(a: seq<Operation<K, V>>, b: seq<Operation<K, V>>)
    ensures multiset(MergeLogs(a, b)) == multiset(a + b)
    decreases |a| + |b|
  {
    if a != [] && b != [] {
      if a[0].ts <= b[0].ts {
        MergePermutes(a[1..], b);
        assert a + b == [a[0]] + (a[1..] + b);
      } else {
        MergePermutes(a, b[1..]);
        assert a == [a[0]] + a[1..] && b == [b[0]] + b[1..];
        assert multiset(a + b) == multiset(a) + multiset([b[0]]) + multiset(b[1..]);
      }
    } else if a == [] {
      assert a + b == b;
    } else {
      assert a + b == a;
    }
  }

  /** One step of the merge loop, taking from the left log. */
  lemma MergeTakesLeft<K, V>(a: seq<Operation<K, V>>, b: seq<Operation<K, V>>, i: nat, j: nat)
    requires i < |a| && j < |b| && a[i].ts <= b[j].ts
    ensures MergeLogs(a[i..], b[j..]) == [a[i]] + MergeLogs(a[i + 1..], b[j..])
  {
    assert a[i..][1..] == a[i + 1..];
  }

  /** One step of the merge loop, taking from the right log. */
  lemma MergeTakesRight<K, V>(a: seq<Operation<K, V>>, b: seq<Operation<K, V>>, i: nat, j: nat)
    requires i < |a| && j < |b| && b[j].ts < a[i].ts
    ensures MergeLogs(a[i..], b[j..]) == [b[j]] + MergeLogs(a[i..], b[j + 1..])
  {
    assert b[j..][1..] == b[j + 1..];
  }

  /** Timestamps never decrease along the log. */
  ghost predicate Sorted<K, V>(s: seq<Operation<K, V>>)
  {
    forall i, j :: 0 <= i < j < |s| ==> s[i].ts <= s[j].ts
  }

  /** Where the `i`-th operation of the left log lands in the merged log. */
  function PosLeft<K, V>(a: seq<Operation<K, V>>, b: seq<Operation<K, V>>, i: nat): nat
    requires i < |a|
    decreases |a| + |b|
  {
    if b == [] then i
    else if a[0].ts <= b[0].ts then (if i == 0 then 0 else 1 + PosLeft(a[1..], b, i - 1))
    else 1 + PosLeft(a, b[1..], i)
  }

  /** Where the `j`-th operation of the right log lands in the merged log. */
  function PosRight<K, V>(a: seq<Operation<K, V>>, b: seq<Operation<K, V>>, j: nat): nat
    requires j < |b|
    decreases |a| + |b|
  {
    if a == [] then j
    else if a[0].ts <= b[0].ts then 1 + PosRight(a[1..], b, j)
    else (if j == 0 then 0 else 1 + PosRight(a, b[1..], j - 1))
  }

  /** Every operation of the left log appears in the merged log, at its position. */
  lemma {:induction false} LeftLands<K, V>(a: seq<Operation<K, V>>, b: seq<Operation<K, V>>, i: nat)
    requires i < |a|
    ensures PosLeft(a, b, i) < |a| + |b| && MergeLogs(a, b)[PosLeft(a, b, i)] == a[i]
    decreases |a| + |b|
  {
    if b != [] {
      if a[0].ts <= b[0].ts {
        assert MergeLogs(a, b) == [a[0]] + MergeLogs(a[1..], b);
        if i > 0 {
          LeftLands(a[1..], b, i - 1);
          assert PosLeft(a, b, i) == 1 + PosLeft(a[1..], b, i - 1);
          assert a[1..][i - 1] == a[i];
        }
      } else {
        assert MergeLogs(a, b) == [b[0]] + MergeLogs(a, b[1..]);
        LeftLands(a, b[1..], i);
        assert PosLeft(a, b, i) == 1 + PosLeft(a, b[1..], i);
      }
    }
  }

  /** Every operation of the right log appears in the merged log, at its position. */
  lemma {:induction false} RightLands<K, V>(a: seq<Operation<K, V>>, b: seq<Operation<K, V>>, j: nat)
    requires j < |b|
    ensures PosRight(a, b, j) < |a| + |b| && MergeLogs(a, b)[PosRight(a, b, j)] == b[j]
    decreases |a| + |b|
  {
    if a != [] {
      if a[0].ts <= b[0].ts {
        RightLands(a[1..], b, j);
      } else if j > 0 {
        RightLands(a, b[1..], j - 1);
      }
    }
  }

  /** The left log's operations keep their relative order. */
  lemma {:induction false} LeftOrderKept<K, V>(a: seq<Operation<K, V>>, b: seq<Operation<K, V>>, i: nat, i': nat)
    requires i < i' < |a|
    ensures PosLeft(a, b, i) < PosLeft(a, b, i')
    decreases |a| + |b|
  {
    if b != [] {
      if a[0].ts <= b[0].ts {
        if i > 0 { LeftOrderKept(a[1..], b, i - 1, i' - 1); }
      } else {
        LeftOrderKept(a, b[1..], i, i');
      }
    }
  }

  /** The right log's operations keep their relative order. */
  lemma {:induction false} RightOrderKept<K, V>(a: seq<Operation<K, V>>, b: seq<Operation<K, V>>, j: nat, j': nat)
    requires j < j' < |b|
    ensures PosRight(a, b, j) < PosRight(a, b, j')
    decreases |a| + |b|
  {
    if a != [] {
      if a[0].ts <= b[0].ts {
        RightOrderKept(a[1..], b, j, j');
      } else if j > 0 {
        RightOrderKept(a, b[1..], j - 1, j' - 1);
      }
    }
  }

  /** No position holds an operation of both logs. */
  lemma {:induction false} PositionsDisjoint<K, V>(a: seq<Operation<K, V>>, b: seq<Operation<K, V>>, i: nat, j: nat)
    requires i < |a| && j < |b|
    ensures PosLeft(a, b, i) != PosRight(a, b, j)
    decreases |a| + |b|
  {
    if a[0].ts <= b[0].ts {
      if i > 0 { PositionsDisjoint(a[1..], b, i - 1, j); }
    } else {
      if j > 0 { PositionsDisjoint(a, b[1..], i, j - 1); }
    }
  }

  /** Position `p` of the merged log is where an operation of the left or the right log lands. */
  ghost predicate Filled<K, V>(a: seq<Operation<K, V>>, b: seq<Operation<K, V>>, p: nat)
  {
    || (exists i :: 0 <= i < |a| && PosLeft(a, b, i) == p)
    || (exists j :: 0 <= j < |b| && PosRight(a, b, j) == p)
  }

  /** Every position of the merged log holds an operation of one of the two logs. */
  lemma {:induction false} PositionFilled<K, V>(a: seq<Operation<K, V>>, b: seq<Operation<K, V>>, p: nat)
    requires p < |a| + |b|
    ensures Filled(a, b, p)
    decreases |a| + |b|
  {
    if a == [] {
      assert PosRight(a, b, p) == p;
    } else if b == [] {
      assert PosLeft(a, b, p) == p;
    } else if a[0].ts <= b[0].ts {
      if p == 0 {
        assert PosLeft(a, b, 0) == 0;
      } else {
        PositionFilled(a[1..], b, p - 1);
        if i :| 0 <= i < |a| - 1 && PosLeft(a[1..], b, i) == p - 1 {
          assert PosLeft(a, b, i + 1) == p;
        } else {
          var j :| 0 <= j < |b| && PosRight(a[1..], b, j) == p - 1;
          assert PosRight(a, b, j) == p;
        }
      }
    } else {
      if p == 0 {
        assert PosRight(a, b, 0) == 0;
      } else {
        PositionFilled(a, b[1..], p - 1);
        if i :| 0 <= i < |a| && PosLeft(a, b[1..], i) == p - 1 {
          assert PosLeft(a, b, i) == p;
        } else {
          var j :| 0 <= j < |b| - 1 && PosRight(a, b[1..], j) == p - 1;
          assert PosRight(a, b, j + 1) == p;
        }
      }
    }
  }

  /**
   * The merged log is an interleaving of the two logs: each operation of
   * each log lands at its own position, the two logs share no position,
   * every position is taken by one of them, and each log's operations keep
   * their relative order.
   */
  lemma MergeInterleaves<K, V>(a: seq<Operation<K, V>>, b: seq<Operation<K, V>>)
    ensures |MergeLogs(a, b)| == |a| + |b|
    ensures forall i :: 0 <= i < |a| ==>
      PosLeft(a, b, i) < |a| + |b| && MergeLogs(a, b)[PosLeft(a, b, i)] == a[i]
    ensures forall j :: 0 <= j < |b| ==>
      PosRight(a, b, j) < |a| + |b| && MergeLogs(a, b)[PosRight(a, b, j)] == b[j]
    ensures forall i, i' :: 0 <= i < i' < |a| ==> PosLeft(a, b, i) < PosLeft(a, b, i')
    ensures forall j, j' :: 0 <= j < j' < |b| ==> PosRight(a, b, j) < PosRight(a, b, j')
    ensures forall i, j :: 0 <= i < |a| && 0 <= j < |b| ==> PosLeft(a, b, i) != PosRight(a, b, j)
    ensures forall p: nat :: p < |a| + |b| ==> Filled(a, b, p)
  {
    forall i | 0 <= i < |a| ensures PosLeft(a, b, i) < |a| + |b| && MergeLogs(a, b)[PosLeft(a, b, i)] == a[i] {
      LeftLands(a, b, i);
    }
    forall j | 0 <= j < |b| ensures PosRight(a, b, j) < |a| + |b| && MergeLogs(a, b)[PosRight(a, b, j)] == b[j] {
      RightLands(a, b, j);
    }
    forall i, i' | 0 <= i < i' < |a| ensures PosLeft(a, b, i) < PosLeft(a, b, i') {
      LeftOrderKept(a, b, i, i');
    }
    forall j, j' | 0 <= j < j' < |b| ensures PosRight(a, b, j) < PosRight(a, b, j') {
      RightOrderKept(a, b, j, j');
    }
    forall i, j | 0 <= i < |a| && 0 <= j < |b| ensures PosLeft(a, b, i) != PosRight(a, b, j) {
      PositionsDisjoint(a, b, i, j);
    }
    forall p: nat | p < |a| + |b| ensures Filled(a, b, p) {
      PositionFilled(a, b, p);
    }
  }

  /**
   * Between the two logs, order is decided by timestamp alone, the left log
   * winning ties: when both logs are sorted, the left log's `i`-th operation
   * precedes the right log's `j`-th exactly when its timestamp is not later.
   */
  lemma {:induction false} LeftWinsTies<K, V>(a: seq<Operation<K, V>>, b: seq<Operation<K, V>>, i: nat, j: nat)
    requires Sorted(a) && Sorted(b)
    requires i < |a| && j < |b|
    ensures PosLeft(a, b, i) < PosRight(a, b, j) <==> a[i].ts <= b[j].ts
    decreases |a| + |b|
  {
    if a[0].ts <= b[0].ts {
      if i > 0 {
        LeftWinsTies(a[1..], b, i - 1, j);
      } else if j > 0 {
        assert b[0].ts <= b[j].ts;
      }
    } else {
      if j > 0 {
        LeftWinsTies(a, b[1..], i, j - 1);
      } else if i > 0 {
        assert a[0].ts <= a[i].ts;
      }
    }
  }

  /** No operation of either log is earlier than `t`. */
  ghost predicate NotBefore<K, V>(s: seq<Operation<K, V>>, t: int)
  {
    forall i :: 0 <= i < |s| ==> t <= s[i].ts
  }

  lemma MergeNotBefore<K, V>(a: seq<Operation<K, V>>, b: seq<Operation<K, V>>, t: int)
    requires NotBefore(a, t) && NotBefore(b, t)
    ensures NotBefore(MergeLogs(a, b), t)
  {
    var m := MergeLogs(a, b);
    MergePermutes(a, b);
    forall p | 0 <= p < |m| ensures t <= m[p].ts {
      assert m[p] in multiset(a + b);
      assert m[p] in a + b;
      var q :| 0 <= q < |a + b| && (a + b)[q] == m[p];
      if q >= |a| { assert (a + b)[q] == b[q - |a|]; }
    }
  }

  /** Putting an operation before a sorted log of no earlier operations keeps it sorted. */
  lemma ConsSorted<K, V>(h: Operation<K, V>, s: seq<Operation<K, V>>)
    requires Sorted(s) && NotBefore(s, h.ts)
    ensures Sorted([h] + s)
  {
    var m := [h] + s;
    forall p, q | 0 <= p < q < |m| ensures m[p].ts <= m[q].ts {
      assert m[q] == s[q - 1];
      if p > 0 { assert m[p] == s[p - 1]; }
    }
  }

  /** Merging two sorted logs gives a sorted log. */
  lemma {:induction false} MergeSorted<K, V>(a: seq<Operation<K, V>>, b: seq<Operation<K, V>>)
    requires Sorted(a) && Sorted(b)
    ensures Sorted(MergeLogs(a, b))
    decreases |a| + |b|
  {
    if a != [] && b != [] {
      if a[0].ts <= b[0].ts {
        MergeSorted(a[1..], b);
        MergeNotBefore(a[1..], b, a[0].ts);
        ConsSorted(a[0], MergeLogs(a[1..], b));
      } else {
        MergeSorted(a, b[1..]);
        MergeNotBefore(a, b[1..], b[0].ts);
        ConsSorted(b[0], MergeLogs(a, b[1..]));
      }
    }
  }

  /**
   * When no operation of the right log is earlier than any of the left log,
   * the merge is the left log followed by the right one, sorted or not.
   */
  lemma {:induction false} MergeOfLaterLog<K, V>(a: seq<Operation<K, V>>, b: seq<Operation<K, V>>)
    requires forall i, j :: 0 <= i < |a| && 0 <= j < |b| ==> a[i].ts <= b[j].ts
    ensures MergeLogs(a, b) == a + b
    decreases |a|
  {
    if a != [] && b != [] {
      MergeOfLaterLog(a[1..], b);
      assert [a[0]] + (a[1..] + b) == a + b;
    } else if a == [] {
      assert a + b == b;
    } else {
      assert a + b == a;
    }
  }

  /**
   * When every operation of the right log is strictly earlier than all of
   * the left log, the merge is the right log followed by the left one.
   */
  lemma {:induction false} MergeOfEarlierLog<K, V>(a: seq<Operation<K, V>>, b: seq<Operation<K, V>>)
    requires forall i, j :: 0 <= i < |a| && 0 <= j < |b| ==> b[j].ts < a[i].ts
    ensures MergeLogs(a, b) == b + a
    decreases |b|
  {
    if a != [] && b != [] {
      MergeOfEarlierLog(a, b[1..]);
      assert [b[0]] + (b[1..] + a) == b + a;
    } else if a == [] {
      assert b + a == b;
    } else {
      assert b + a == a;
    }
  }
}
