/**
 The dual index behind the ranking: a counter from each value to its number of
 occurrences in the window, and a rank index from each count to the bucket of values
 that hold it. `Enter` and `Exit` are the two updates that keep them in step.
 */
module Ranking {
  import opened Wrappers

  type Counter = map<string, nat>
  type RankIndex = map<nat, set<string>>

  /** The two synchronised maps of the engine. */
  datatype Tables = Tables(counts: Counter, rank: RankIndex)

  /** The internal faults `Exit` stops with instead of continuing on a desynchronised index. */
  datatype Fault =
    | EntryNotFound    // the value has no counter entry
    | BucketNotFound   // the rank index has no bucket for the value's count
    | CountUnderflow   // the stored count is already zero

  const Empty: Tables := Tables(map[], map[])

  /** The count of `v`, reading an absent entry as zero. */
  function Lookup(counts: Counter, v: string): nat
  {
    if v in counts then counts[v] else 0
  }

  /** Whether `v` is a member of bucket `k` of the rank index. */
  predicate InBucket(rank: RankIndex, k: nat, v: string)
  {
    k in rank && v in rank[k]
  }

  /** Takes `v` out of bucket `k`, deleting the bucket if that leaves it empty. */
  function Detach(rank: RankIndex, k: nat, v: string): (r: RankIndex)
    ensures forall j, u :: InBucket(r, j, u) <==> InBucket(rank, j, u) && !(j == k && u == v)
    ensures k in rank && rank[k] <= {v} ==> k !in r
    ensures forall j :: j in r && r[j] == {} ==> j in rank && rank[j] == {}
    ensures r.Keys <= rank.Keys
  {
    if k in rank then
      var b := rank[k] - {v};
      if b == {} then
        assert rank[k] <= {v};
        rank - {k}
      else
        rank[k := b]
    else
      rank
  }

  /** Puts `v` into bucket `k`, creating the bucket if it does not exist. */
  function Attach(rank: RankIndex, k: nat, v: string): (r: RankIndex)
    ensures forall j, u :: InBucket(r, j, u) <==> InBucket(rank, j, u) || (j == k && u == v)
    ensures forall j :: j in r && r[j] == {} ==> j in rank && rank[j] == {}
    ensures r.Keys == rank.Keys + {k}
  {
    rank[k := (if k in rank then rank[k] else {}) + {v}]
  }

  /**
   A value enters the window: its count goes up by one (from zero when it was absent)
   and it moves from the bucket of its old count to the bucket of its new one.
   */
  function Enter(t: Tables, v: string): (r: Tables)
    ensures r.counts.Keys == t.counts.Keys + {v}
    ensures r.counts[v] == Lookup(t.counts, v) + 1
    ensures forall u :: u in t.counts && u != v ==> r.counts[u] == t.counts[u]
    ensures forall k, u :: u != v ==> (InBucket(r.rank, k, u) <==> InBucket(t.rank, k, u))
    ensures forall k :: InBucket(r.rank, k, v) <==>
              k == Lookup(t.counts, v) + 1 || (k != Lookup(t.counts, v) && InBucket(t.rank, k, v))
    ensures var c := Lookup(t.counts, v); c in t.rank && t.rank[c] <= {v} ==> c !in r.rank
    ensures forall k :: k in r.rank && r.rank[k] == {} ==> k in t.rank && t.rank[k] == {}
  {
    var c := Lookup(t.counts, v);
    Tables(t.counts[v := c + 1], Attach(Detach(t.rank, c, v), c + 1, v))
  }

  /**
   A value leaves the window: its count goes down by one and it moves to the bucket of
   its new count, or, when the count reaches zero, its counter entry is deleted and it
   joins no bucket. Exiting an untracked value, or one whose bucket is missing, is a fault.
   */
  function Exit(t: Tables, v: string): (r: Result<Tables, Fault>)
    ensures v !in t.counts ==> r == Err(EntryNotFound)
    ensures v in t.counts && t.counts[v] !in t.rank ==> r == Err(BucketNotFound)
    ensures v in t.counts && t.counts[v] in t.rank && t.counts[v] == 0 ==> r == Err(CountUnderflow)
    ensures r.Ok? <==> v in t.counts && t.counts[v] in t.rank && t.counts[v] > 0
    ensures r.Ok? ==>
              && r.value.counts.Keys == (if t.counts[v] == 1 then t.counts.Keys - {v} else t.counts.Keys)
              && Lookup(r.value.counts, v) == t.counts[v] - 1
              && (forall u :: u in t.counts && u != v ==> r.value.counts[u] == t.counts[u])
    ensures r.Ok? ==> forall k, u :: u != v ==> (InBucket(r.value.rank, k, u) <==> InBucket(t.rank, k, u))
    ensures r.Ok? ==> forall k :: InBucket(r.value.rank, k, v) <==>
              (k == t.counts[v] - 1 && k != 0) || (k != t.counts[v] && InBucket(t.rank, k, v))
    ensures r.Ok? && t.rank[t.counts[v]] <= {v} ==> t.counts[v] !in r.value.rank
    ensures r.Ok? ==> forall k :: k in r.value.rank && r.value.rank[k] == {} ==> k in t.rank && t.rank[k] == {}
  {
    if v !in t.counts then Err(EntryNotFound)
    else
      var c := t.counts[v];
      if c !in t.rank then Err(BucketNotFound)
      else if c == 0 then Err(CountUnderflow)
      else
        var rank := Detach(t.rank, c, v);
        if c - 1 != 0 then Ok(Tables(t.counts[v := c - 1], Attach(rank, c - 1, v)))
        else Ok(Tables(t.counts - {v}, rank))
  }

  /**
   The synchronisation invariant: every counted value has a positive count and sits in
   the bucket for that count, every bucket member is counted with that bucket's count,
   and no bucket is empty.
   */
  ghost predicate Valid(t: Tables)
  {
    && (forall v :: v in t.counts ==> t.counts[v] > 0 && InBucket(t.rank, t.counts[v], v))
    && (forall k, v :: InBucket(t.rank, k, v) ==> v in t.counts && t.counts[v] == k)
    && (forall k :: k in t.rank ==> t.rank[k] != {})
  }

  lemma EmptyValid()
    ensures Valid(Empty)
  {
  }

  /** Under the invariant a value sits in exactly one bucket, the one for its count. */
  lemma ExactlyOneBucket(t: Tables, v: string, k: nat)
    requires Valid(t)
    ensures InBucket(t.rank, k, v) <==> v in t.counts && k == t.counts[v]
  {
  }

  /** Under the invariant the rank index is a function of the counter. */
  lemma RankDeterminedByCounts(t1: Tables, t2: Tables)
    requires Valid(t1) && Valid(t2) && t1.counts == t2.counts
    ensures t1.rank == t2.rank
  {
    forall k | k in t1.rank
      ensures k in t2.rank && t1.rank[k] == t2.rank[k]
    {
      var v :| v in t1.rank[k];
      assert InBucket(t1.rank, k, v);
      assert InBucket(t2.rank, k, v);
      assert t1.rank[k] == t2.rank[k] by {
        forall u ensures u in t1.rank[k] <==> u in t2.rank[k] {
          assert InBucket(t1.rank, k, u) <==> InBucket(t2.rank, k, u);
        }
      }
    }
    forall k | k in t2.rank
      ensures k in t1.rank
    {
      var v :| v in t2.rank[k];
      assert InBucket(t2.rank, k, v);
      assert InBucket(t1.rank, k, v);
    }
  }

  lemma EnterPreservesValid(t: Tables, v: string)
    requires Valid(t)
    ensures Valid(Enter(t, v))
  {
  }

  /** Under the invariant, exit succeeds exactly for tracked values and keeps the invariant. */
  lemma ExitPreservesValid(t: Tables, v: string)
    requires Valid(t)
    ensures Exit(t, v).Ok? <==> v in t.counts
    ensures Exit(t, v).Ok? ==> Valid(Exit(t, v).value)
  {
    if v in t.counts {
      assert InBucket(t.rank, t.counts[v], v);
    }
  }

  /**
   On the counter alone, exit undoes enter whatever the state of the rank index, as long
   as the counter holds no zero count for the value.
   */
  lemma ExitEnterCounts(t: Tables, v: string)
    requires v in t.counts ==> t.counts[v] > 0
    ensures Exit(Enter(t, v), v).Ok?
    ensures Exit(Enter(t, v), v).value.counts == t.counts
  {
    var x := Exit(Enter(t, v), v).value;
    assert x.counts.Keys == t.counts.Keys;
  }

  /** On the counter alone, enter undoes a successful exit. */
  lemma EnterExitCounts(t: Tables, v: string)
    requires Exit(t, v).Ok?
    ensures Enter(Exit(t, v).value, v).counts == t.counts
  {
    var e := Enter(Exit(t, v).value, v);
    assert e.counts.Keys == t.counts.Keys;
  }

  /** Exit undoes enter. */
  lemma ExitUndoesEnter(t: Tables, v: string)
    requires Valid(t)
    ensures Exit(Enter(t, v), v) == Ok(t)
  {
    ExitEnterCounts(t, v);
    EnterPreservesValid(t, v);
    ExitPreservesValid(Enter(t, v), v);
    RankDeterminedByCounts(Exit(Enter(t, v), v).value, t);
  }

  /** Enter undoes a successful exit. */
  lemma EnterUndoesExit(t: Tables, v: string)
    requires Valid(t) && v in t.counts
    ensures Exit(t, v).Ok? && Enter(Exit(t, v).value, v) == t
  {
    ExitPreservesValid(t, v);
    EnterExitCounts(t, v);
    EnterPreservesValid(Exit(t, v).value, v);
    RankDeterminedByCounts(Enter(Exit(t, v).value, v), t);
  }

  /** Enter raises the count of the entering value by one and no other count. */
  lemma EnterLookup(t: Tables, v: string, u: string)
    ensures Lookup(Enter(t, v).counts, u) == Lookup(t.counts, u) + (if u == v then 1 else 0)
  {
  }

  /** A successful exit lowers the count of the exiting value by one and no other count. */
  lemma ExitLookup(t: Tables, v: string, u: string)
    requires Exit(t, v).Ok?
    ensures Lookup(Exit(t, v).value.counts, u) == Lookup(t.counts, u) - (if u == v then 1 else 0)
  {
  }

  /** Some key of a non-empty map, fixed once so that `Total` and its lemmas agree on it. */
  ghost function Pick<K>(m: map<K, nat>): (k: K)
    requires m != map[]
    ensures k in m
  {
    var k :| k in m; k
  }

  /** The sum of all counts. */
  ghost function Total<K>(m: map<K, nat>): nat
    decreases |m|
  {
    if m == map[] then 0
    else
      var k := Pick(m);
      m[k] + Total(m - {k})
  }

  /** The sum does not depend on which key is taken out first. */
  lemma {:induction false} TotalRemove<K>(m: map<K, nat>, k: K)
    requires k in m
    ensures Total(m) == m[k] + Total(m - {k})
    decreases |m|
  {
    var j := Pick(m);
    if j != k {
      assert |m - {j}| < |m| by { assert m - {j} != m; assert (m - {j}).Keys < m.Keys; }
      TotalRemove(m - {j}, k);
      assert |m - {k}| < |m| by { assert (m - {k}).Keys < m.Keys; }
      TotalRemove(m - {k}, j);
      assert m - {j} - {k} == m - {k} - {j};
    }
  }

  /** Overwriting one entry changes the sum by the difference. */
  lemma TotalUpdate<K>(m: map<K, nat>, k: K, x: nat)
    ensures Total(m[k := x]) == Total(m - {k}) + x
  {
    TotalRemove(m[k := x], k);
    assert m[k := x] - {k} == m - {k};
  }

  /** Enter adds exactly one to the sum of counts. */
  lemma EnterTotal(t: Tables, v: string)
    ensures Total(Enter(t, v).counts) == Total(t.counts) + 1
  {
    var c := Lookup(t.counts, v);
    TotalUpdate(t.counts, v, c + 1);
    if v in t.counts {
      TotalRemove(t.counts, v);
    } else {
      assert t.counts - {v} == t.counts;
    }
  }

  /** A successful exit takes exactly one from the sum of counts. */
  lemma ExitTotal(t: Tables, v: string)
    requires Exit(t, v).Ok?
    ensures Total(Exit(t, v).value.counts) + 1 == Total(t.counts)
  {
    var c := t.counts[v];
    TotalRemove(t.counts, v);
    if c != 1 {
      TotalUpdate(t.counts, v, c - 1);
    }
  }
}
