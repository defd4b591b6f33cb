# A log-based replicated dictionary, modelled in Dafny

The system is a replicated dictionary (a CRDT) whose whole state is a log of
timestamped operations. A replica records three kinds of operation: ADD a
key with a value, REMOVE a key, and UPDATE, which renames a key. Recording an
operation only appends it to the log. The dictionary itself is computed on
demand by `data()`, which replays the log into an insertion-ordered
dictionary. `merge(a, b)` builds a new replica whose log interleaves the two
logs by timestamp, as the merge step of merge sort does, and takes `a`'s
operation first when two timestamps are equal.

The model has four modules:

- `OrderedDict` (`ordered_dict.dfy`): Python's `OrderedDict`, as a sequence
  of (key, value) pairs. Assigning a present key overwrites it where it
  stands. Assigning a new key appends it at the end. Popping a key removes
  its entry.
- `Log` (`log.dfy`): the `Operation` record, one case per kind, with its kind
  codes (ADD = 0, REMOVE = 1, UPDATE = 3). It also holds the replay: `Apply`
  is one iteration of the `data()` loop, `Fold` the left fold, `Replay` the
  fold over an empty dictionary. A failed UPDATE gives `Err(KeyError(key))`
  instead of raising.
- `MergeOrder` (`merge_order.dfy`): `MergeLogs`, the merged log as a function
  of the two input logs. `PosLeft` and `PosRight` give where each input
  operation lands in it. The lemmas prove the interleaving, ordering and
  tie-break properties.
- `Crdt` (`crdt.dfy`): the class `CRDT`, whose one field `log` its methods
  update in place. `Data` runs the replay loop and is proved equal to
  `Replay(log)`. The method `Merge` runs the two-cursor loop and the
  tail-copy loop, and is proved equal to `MergeLogs`. The lemmas here link
  merging and replay.

The code does less than its docstring (crdt.py:44, "Validate and append")
and its tests suggest, and the model follows the code:

- `append` checks nothing: not the kind, not the key, not the timestamp.
- The dictionary is recomputed by every `data()` call rather than kept up to
  date.
- A REMOVE of an absent key is a silent no-op during replay.
- An UPDATE of an absent key makes the whole `data()` call fail with
  `KeyError`.
- `merge` is a plain interleave. It does not track renamed or removed keys
  across the two logs and does not resolve conflicts (last-writer-wins).
  `RemoveThenRenameBreaksReplay` shows the result: two logs that each replay
  cleanly can merge into a log whose replay fails.

## Model

| member | source | states |
|---|---|---|
| `OrderedDict.AssignAt` | crdt.py:57 | `d[k] = v` replaces the entry of a present key at its own index and appends `(k, v)` for a new key |
| `OrderedDict.PopAt` | crdt.py:59 | popping a present key removes exactly the entry at its index; popping an absent key leaves the dictionary as it was |
| `OrderedDict.AssignSemantics` | crdt.py:57 | after `d[k] = v` keys stay distinct, the key order is unchanged if `k` was present and gains `k` at the end otherwise, `k` maps to `v`, and every other key keeps its value |
| `OrderedDict.PopSemantics` | crdt.py:59 | after `pop(k)` keys stay distinct, `k` is absent, the other keys keep their relative order and their values, and an absent `k` changes nothing |
| `Log.Operation.Op` | crdt.py:5-10 | each operation carries exactly one of the kind codes ADD = 0, REMOVE = 1, UPDATE = 3, matching its kind |
| `Log.Apply` | crdt.py:56-63 | one replay step fails exactly when it is an UPDATE of a key absent from the dictionary, and then with `KeyError` naming that key; ADD and REMOVE never fail |
| `Log.ApplyKeepsDistinct` | crdt.py:56-63 | every successful replay step keeps the dictionary's keys distinct |
| `Log.FoldKeepsDistinct` | crdt.py:53-65 | folding any operations over a dictionary with distinct keys yields, when it succeeds, a dictionary with distinct keys |
| `Log.ReplayDistinct` | crdt.py:53-65 | a successful `data()` result never holds a key twice |
| `Log.FoldConcat` | crdt.py:55-63 | folding a concatenation of logs folds the first part and then continues from its result; a failure in the first part is final |
| `Log.ReplaySnoc` | crdt.py:42-65 | replaying a log with one more operation at the end applies that operation to the earlier outcome |
| `Log.ErrorSticks` | crdt.py:60-62 | once replay fails with `KeyError`, operations appended later do not change the failure |
| `Log.AddThenReplay` | crdt.py:56-57 | after an appended ADD the key maps to the value, keeps its position if present or comes last if new, and no other key changes |
| `Log.RemoveThenReplay` | crdt.py:58-59 | an appended REMOVE never fails; of an absent key it changes nothing; of a present key it deletes it and keeps the other keys in order with their values |
| `Log.UpdateThenReplay` | crdt.py:60-63 | an appended UPDATE of an absent key fails with `KeyError`; of a present key the old key is gone, the new key holds the old value, and the new key keeps its position if it is another key already present; otherwise it comes last, including when a key is renamed to itself |
| `Log.ReplayAdds` | tests/test_normal_operations.py:34-41 | adding the entries of a dictionary one by one, at any timestamps, replays to exactly that dictionary, in its order |
| `Log.RepeatedAddsKeepLast` | tests/test_normal_operations.py:67-76 | repeated ADDs of one key replay to a single entry holding the last value |
| `MergeOrder.MergeLogs` | crdt.py:67-91 | the merged log is exactly as long as both input logs together |
| `MergeOrder.MergePermutes` | crdt.py:72-89 | the merged log is a permutation of the two logs concatenated: no operation is lost or duplicated |
| `MergeOrder.LeftLands` | crdt.py:75-89 | the `i`-th operation of the left log is found in the merged log at `PosLeft(i)` |
| `MergeOrder.RightLands` | crdt.py:75-89 | the `j`-th operation of the right log is found in the merged log at `PosRight(j)` |
| `MergeOrder.LeftOrderKept` | crdt.py:75-89 | the left log's operations keep their relative order in the merged log |
| `MergeOrder.RightOrderKept` | crdt.py:75-89 | the right log's operations keep their relative order in the merged log |
| `MergeOrder.PositionsDisjoint` | crdt.py:75-89 | no position of the merged log is claimed by both a left and a right operation |
| `MergeOrder.PositionFilled` | crdt.py:75-89 | every position of the merged log holds an operation of the left or the right log |
| `MergeOrder.MergeInterleaves` | crdt.py:72-89 | the merged log is an interleaving of the two logs: same length, every operation placed once, no position shared, none left empty, each log's order kept |
| `MergeOrder.LeftWinsTies` | crdt.py:75-82 | for sorted logs, a left operation precedes a right one exactly when its timestamp is not later, so on equal timestamps the left log's operation comes first |
| `MergeOrder.MergeSorted` | crdt.py:72-89 | merging two logs sorted by timestamp gives a log sorted by timestamp |
| `MergeOrder.MergeOfLaterLog` | crdt.py:75-89 | when no right operation is earlier than any left one, the merged log is the left log followed by the right log |
| `MergeOrder.MergeOfEarlierLog` | crdt.py:75-89 | when every right operation is strictly earlier than all left ones, the merged log is the right log followed by the left log |
| `Crdt.CRDT.constructor` | crdt.py:16-18 | a new replica starts with an empty log |
| `Crdt.CRDT.Append` | crdt.py:42-47 | the operation is appended unchecked as the last entry, earlier entries are unchanged, and the replayed outcome is the old one with the operation applied |
| `Crdt.CRDT.Add` | crdt.py:20-25 | appends one ADD operation (code 0) with the given timestamp, key and value; afterwards the key maps to the value unless replay had already failed |
| `Crdt.CRDT.Remove` | crdt.py:27-33 | appends one REMOVE operation (code 1) even for an absent key; it never makes a successful replay fail, and afterwards the key is absent |
| `Crdt.CRDT.Update` | crdt.py:35-40 | appends one UPDATE operation (code 3) carrying the new key even for an absent key; unless replay had already failed, replay then fails with `KeyError` exactly when the key was absent, and otherwise the new key holds the old key's value |
| `Crdt.CRDT.Data` | crdt.py:49-65 | the replay loop returns exactly the left fold of the log over an empty ordered dictionary, including its `KeyError` failure |
| `Crdt.Merge` | crdt.py:67-91 | returns a new replica whose log is `MergeLogs` of the two logs, and neither input's log changes |
| `Crdt.MergedAddsReplay` | tests/test_normal_operations.py:78-91 | two replicas adding disjoint halves of a dictionary, the second one later, merge into a replica whose data is the whole dictionary |
| `Crdt.ReaddsOverwrite` | crdt.py:56-57 | re-adding a dictionary's keys in order with new values overwrites the entries one by one in place and ends at the new dictionary |
| `Crdt.MergedReaddsReplay` | tests/test_normal_operations.py:93-106 | a replica that later re-adds the same keys with new values wins the merge: the merged data is its dictionary |
| `Crdt.RemoveThenRenameBreaksReplay` | crdt.py:67-91 | there are two logs, one removing a key and the other renaming it later, that each replay cleanly but whose merge fails with `KeyError` |

## Left out

- The clock: `add`, `remove` and `update` read the wall clock as a floating-point timestamp. Here the timestamp is an `int` parameter of each method, and only its order matters.
- Dynamic typing: in crdt.py, keys may be any hashable objects and an ADD's value any object at all, and an UPDATE's `value` field is used as a key. The model has one key type `K` and one value type `V`, and an `Update` operation carries its new key in a field of type `K`.
- Records built by hand and passed to `append` with a kind code other than 0, 1 or 3 cannot be expressed in the model. `data()` would skip such records.
- A REMOVE stores `value=None`. In the model a `Remove` operation simply has no value field.
- Exceptions: the `KeyError` raised by `data()` is returned as `Err(KeyError(key))`.
- The ordered dictionary returned by `data()` is a fresh mutable object. In the model it is a value.
- The test fixtures and the `slice_dict` helper in `tests/__init__.py` are not part of this model.
- Behaviour that the repository's tests expect but the code does not implement is not modelled: validation in `append`, a `KeyError` on a second local remove, and conflict resolution in `merge` that drops duplicate removes or lets a later rename win. Some of those tests are also broken as written: they read `merged.data` without calling it, or iterate over a replica.
