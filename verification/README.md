# matchtop ranking engine, modelled in Dafny

matchtop reads text lines, extracts one field from each with a regular expression, and
keeps a live ranking of the field values seen in the last W extracted values. This
project models the ranking engine in `src/main.rs`:

- the **window**, a bounded FIFO of the last W values (`BoundedVecDeque`), as `seq<string>`
  with a capacity (`window.dfy`, module `Window`);
- the **counter**, value to in-window count (`MapToCount`), as `map<string, nat>`, and the
  **rank index**, count to the bucket of values with that count (`MapToStrings`), as
  `map<nat, set<string>>` (`ranking.dfy`, module `Ranking`);
- `update_count_enterwin` and `update_count_exitwin` as the pure functions `Enter` and
  `Exit` (`Ranking`). They are modelled on arbitrary tables, branch for branch. The three
  panics of `update_count_exitwin` become `Fault` values:
  - `EntryNotFound`: no counter entry;
  - `BucketNotFound`: the `assert!` on the bucket;
  - `CountUnderflow`: the `usize` decrement of a stored zero.
- the per-line glue in `main` as `Step`: push, then exit the evicted value, then enter the
  new one. `Run` processes a whole stream of extraction results (`protocol.dfy`, module
  `Protocol`). An extraction result is an `Option<string>`, and `None` (no match, or no
  capture) changes nothing.

The central invariant is `Ranking.Valid`:
- every counted value has a positive count and is in the bucket for that count;
- every bucket member is counted with that bucket's count;
- no bucket is empty.

`Protocol.Inv` adds three more facts:
- each value's count equals its number of occurrences in the window;
- the counts sum to the window length;
- the window never exceeds its capacity.

From a fresh engine, every input stream is processed without any fault. The window is
always the last W extracted values.

## Model

| member | source | states |
|---|---|---|
| Window.Push | src/main.rs:30-32 | the window never exceeds its capacity; a value is evicted exactly when the window was full, and it is the old head; evicted prefix followed by the new contents equals old contents followed by the pushed value (nothing lost or reordered) |
| Ranking.Detach | src/main.rs:47-50 | removing a value from bucket k touches only that membership, deletes bucket k when it held nothing else, and creates no empty bucket |
| Ranking.Attach | src/main.rs:74-75 | adding a value to bucket k creates the bucket if missing and adds exactly that membership |
| Ranking.Enter | src/main.rs:62-76 | the value's count becomes its old count plus one (one for an absent value); other counts are unchanged; the value leaves bucket[old] and joins bucket[old+1]; other values' memberships are unchanged; bucket[old] is deleted when the value was its only member; no empty bucket is created |
| Ranking.Exit | src/main.rs:34-60 | fails with EntryNotFound exactly when the value is untracked, and with BucketNotFound when its count has no bucket; on success the count drops by one, the entry is deleted when it reaches zero, the value moves to bucket[count-1] or to no bucket, other values are untouched, and no empty bucket is created |
| Ranking.EmptyValid | src/main.rs:81-82 | the empty counter and the empty rank index satisfy the synchronisation invariant |
| Ranking.ExactlyOneBucket | src/main.rs:13-14 | under the invariant a value is in bucket k if and only if it is counted with count k |
| Ranking.RankDeterminedByCounts | src/main.rs:13-14 | under the invariant two engines with the same counter have the same rank index |
| Ranking.EnterPreservesValid | src/main.rs:62-76 | enter preserves the synchronisation invariant |
| Ranking.ExitPreservesValid | src/main.rs:34-60 | under the invariant exit succeeds if and only if the value is tracked, and then preserves the invariant |
| Ranking.ExitEnterCounts | src/main.rs:34-76 | on the counter, exit after enter restores the original counts whenever no zero count is stored for the value |
| Ranking.EnterExitCounts | src/main.rs:34-76 | on the counter, enter after a successful exit restores the original counts |
| Ranking.ExitUndoesEnter | src/main.rs:34-76 | under the invariant, exit after enter of the same value gives back exactly the original counter and rank index |
| Ranking.EnterUndoesExit | src/main.rs:34-76 | under the invariant, enter after exit of a tracked value gives back exactly the original counter and rank index |
| Ranking.EnterLookup | src/main.rs:63-73 | enter raises the entering value's count by one, counting an absent value as zero, and leaves every other count alone |
| Ranking.ExitLookup | src/main.rs:52-59 | a successful exit lowers the exiting value's count by one and leaves every other count alone |
| Ranking.EnterTotal | src/main.rs:62-76 | enter adds exactly one to the sum of all counts |
| Ranking.ExitTotal | src/main.rs:34-60 | a successful exit takes exactly one from the sum of all counts |
| Protocol.Init | src/main.rs:80-82 | a fresh engine has an empty window of the configured capacity |
| Protocol.InitInv | src/main.rs:80-82 | a fresh engine satisfies the engine invariant |
| Protocol.Evict | src/main.rs:102-104 | when the push evicted nothing, no exit is applied |
| Protocol.Step | src/main.rs:98-106 | a failed extraction changes nothing; the new window is the last W values of the old window plus the new value; the only possible fault is the evicted head failing to exit |
| Protocol.Run | src/main.rs:96-109 | processing a stream keeps the capacity and keeps the window within it |
| Protocol.EvictPreservesValid | src/main.rs:102-104 | under the engine invariant the evicted value is always tracked, so its exit succeeds, keeps the indices valid, and lowers its count and the sum by one |
| Protocol.EnterAfterEvict | src/main.rs:102-105 | exit of the evicted value followed by enter of the new one leaves valid indices whose counts are the occurrence counts of the new window and sum to its length |
| Protocol.StepPreservesInv | src/main.rs:101-106 | from a state satisfying the engine invariant a step never faults and keeps the invariant |
| Protocol.EvictedReentryUnchanged | src/main.rs:102-105 | under the engine invariant, when the value pushed equals the head it evicts, the step leaves the counter and rank index exactly as they were |
| Protocol.EvictLeavesRoom | src/main.rs:102-105 | under the engine invariant, after the evicted value exits and before the new value enters, the counts sum to the new window's length minus one, hence to less than W |
| Protocol.RunFromInit | src/main.rs:96-109 | from a fresh engine every input stream is processed without fault; the invariant holds and the window is the last W extracted values |
| Protocol.Conservation | src/main.rs:80-105 | from a fresh engine the counts sum to min(W, number of values extracted so far) |
| Protocol.CountIsOccurrences | src/main.rs:80-105 | from a fresh engine each value's count is its number of occurrences among the last W extracted values |
| Protocol.CountsBounded | src/main.rs:73 | under the engine invariant no count exceeds the window capacity, so the `usize` increment cannot overflow |
| Protocol.SingletonWindow | src/main.rs:101-105 | under the engine invariant a window holding only v gives counter {v: 1} and rank index {1: {v}} |
| Protocol.CapacityOne | src/main.rs:101-105 | with W = 1, after any step the counter is {v: 1} and the rank index is {1: {v}} for the value just entered |
| Protocol.WindowACA | src/main.rs:101-105 | under the engine invariant a window A, C, A gives counter {A: 2, C: 1} and rank index {1: {C}, 2: {A}} |
| Protocol.Scenario | src/main.rs:101-105 | with W = 3 and values A, B, A, C, A the window ends as A, C, A with counter {A: 2, C: 1} and rank index {1: {C}, 2: {A}} |

## Notes on the code

- `update_count_exitwin` has one more failure than the documented "exit of an untracked
  value": it decrements a `usize`, so a stored count of zero cannot be decremented (see
  `Ranking.Exit` under "## Left out").
- `update_count_enterwin` first inserts a zero entry through `or_default`. It then tries to
  remove the value from bucket 0, if that bucket exists. The model does the same for
  arbitrary tables. Under `Valid` there is never a bucket 0.
- Neither update checks that the value really was in the bucket it removes it from. The
  removal is a no-op when the value is absent, and the model does the same.

## Left out

- Ranking.Exit: follows a debug build at src/main.rs:53, where decrementing a stored count
  of zero panics; it returns `CountUnderflow`. A release build would instead wrap to
  `usize::MAX` and file the value under bucket `usize::MAX`; the model does not promise
  that behaviour. Under `Valid` no zero count is stored, so neither case is reachable
  (`Protocol.StepPreservesInv`).
- Reading lines from standard input and the `while let` loop (src/main.rs:96-97): I/O.
  The input is a `seq<Option<string>>` of extraction results.
- Regular-expression compilation and matching, and the startup panic for a pattern
  without a capture group (src/main.rs:91-94, 98-101): this is an external library. Each
  line's extraction is an `Option<string>`.
- The report clock, the interval check, and printing the rank index in ascending count
  order (src/main.rs:88-89, 110-115): time and output formatting. The model keeps the
  rank index as a map. The ascending order of the `BTreeMap` only matters when printing.
- Command-line parsing and the banner lines (src/main.rs:16-28, 79, 84-86): configuration.
- A window of capacity 0: the behaviour of `BoundedVecDeque` at that size belongs to an
  external crate, so `Window.Push`, `Protocol.Init`, `Protocol.Step` and `Protocol.Run`
  require capacity at least 1.
- Hashing and iteration order of `HashMap` and `HashSet`: they are modelled as
  mathematical maps and sets.
- Replay determinism: every operation is a pure function, so feeding the same stream to
  two fresh engines gives equal results by construction. No separate lemma states it.
