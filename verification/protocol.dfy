/**
 The per-line update protocol: each successfully extracted value is pushed into the
 window, the value it evicts (if any) exits the counter and rank index, and only then
 does the new value enter. A line whose extraction failed changes nothing.
 */
module Protocol {
  import opened Wrappers
  import opened Window
  import opened Ranking

  /** The whole engine: the trailing window with its capacity, and the two indices. */
  datatype State = State(window: seq<string>, capacity: nat, tables: Tables)

  /** The shape every state keeps: a positive capacity the window never exceeds. */
  predicate WellFormed(s: State)
  {
    1 <= s.capacity && |s.window| <= s.capacity
  }

  /** A fresh engine: an empty window of the given capacity and empty indices. */
  function Init(capacity: nat): (s: State)
    requires 1 <= capacity
    ensures WellFormed(s) && s.window == [] && s.capacity == capacity
  {
    State([], capacity, Empty)
  }

  /** The last `n` elements of `xs`, or all of them when there are fewer. */
  function LastN<T>(xs: seq<T>, n: nat): (r: seq<T>)
    ensures |r| == if |xs| <= n then |xs| else n
    ensures xs == xs[..|xs| - |r|] + r
  {
    if |xs| <= n then xs else xs[|xs| - n..]
  }

  /** The values that extraction produced, in input order, skipping the misses. */
  function Values(xs: seq<Option<string>>): seq<string>
  {
    if xs == [] then []
    else
      var last := xs[|xs| - 1];
      Values(xs[..|xs| - 1]) + (if last.Some? then [last.value] else [])
  }

  /** Applies the exit of the value a push evicted, if it evicted one. */
  function Evict(t: Tables, p: Pushed<string>): (r: Result<Tables, Fault>)
    ensures p.evicted.None? ==> r == Ok(t)
  {
    if p.evicted.Some? then Exit(t, p.evicted.value) else Ok(t)
  }

  /** Processes one input line whose extraction gave `x`. */
  function Step(s: State, x: Option<string>): (r: Result<State, Fault>)
    requires WellFormed(s)
    ensures x.None? ==> r == Ok(s)
    ensures r.Ok? ==> WellFormed(r.value) && r.value.capacity == s.capacity
    ensures r.Ok? && x.Some? ==> r.value.window == LastN(s.window + [x.value], s.capacity)
    // the only way a line can fail is that the evicted head cannot exit
    ensures r.Err? ==> x.Some? && |s.window| == s.capacity && Exit(s.tables, s.window[0]).Err?
  {
    match x
    case None => Ok(s)
    case Some(v) =>
      var p := Push(s.window, s.capacity, v);
      match Evict(s.tables, p)
      case Err(e) => Err(e)
      case Ok(t) => Ok(State(p.items, s.capacity, Enter(t, v)))
  }

  /** Processes the lines of `xs` in order, stopping at the first fault. */
  function Run(s: State, xs: seq<Option<string>>): (r: Result<State, Fault>)
    requires WellFormed(s)
    ensures r.Ok? ==> WellFormed(r.value) && r.value.capacity == s.capacity
    decreases |xs|
  {
    if xs == [] then Ok(s)
    else
      match Run(s, xs[..|xs| - 1])
      case Err(e) => Err(e)
      case Ok(s') => Step(s', xs[|xs| - 1])
  }

  /** Each value's count is its number of occurrences in the window. */
  ghost predicate Mirrors(window: seq<string>, counts: Counter)
  {
    forall v :: Lookup(counts, v) == multiset(window)[v]
  }

  /**
   The engine invariant: the indices are synchronised, each value's count is its number
   of occurrences in the window, and the counts sum to the window's length.
   */
  ghost predicate Inv(s: State)
  {
    && WellFormed(s)
    && Valid(s.tables)
    && Mirrors(s.window, s.tables.counts)
    && Total(s.tables.counts) == |s.window|
  }

  lemma InitInv(capacity: nat)
    requires 1 <= capacity
    ensures Inv(Init(capacity))
  {
    EmptyValid();
  }

  /** The evicted value is always tracked, so its exit succeeds and keeps the indices valid. */
  lemma EvictPreservesValid(s: State, p: Pushed<string>, v: string)
    requires Inv(s) && p == Push(s.window, s.capacity, v)
    ensures Evict(s.tables, p).Ok?
    ensures var t := Evict(s.tables, p).value;
            && Valid(t)
            && Total(t.counts) + |Evicted(p)| == Total(s.tables.counts)
            && forall u :: Lookup(t.counts, u) + multiset(Evicted(p))[u] == Lookup(s.tables.counts, u)
  {
    if p.evicted.Some? {
      var e := p.evicted.value;
      assert e in multiset(s.window);
      assert Lookup(s.tables.counts, e) > 0;
      ExitPreservesValid(s.tables, e);
      ExitTotal(s.tables, e);
      forall u ensures Lookup(Exit(s.tables, e).value.counts, u) + multiset([e])[u] == Lookup(s.tables.counts, u) {
        ExitLookup(s.tables, e, u);
      }
    }
  }

  /**
   Between the exit and the enter of a step, the counts sum to one less than the new
   window's length, so the indices never account for more than `capacity - 1` entries
   before the new value is counted.
   */
  lemma EvictLeavesRoom(s: State, p: Pushed<string>, v: string)
    requires Inv(s) && p == Push(s.window, s.capacity, v)
    ensures Evict(s.tables, p).Ok?
    ensures Total(Evict(s.tables, p).value.counts) + 1 == |p.items|
    ensures Total(Evict(s.tables, p).value.counts) < s.capacity
  {
    EvictPreservesValid(s, p, v);
    assert |p.items| + |Evicted(p)| == |s.window| + 1;
  }

  /** The value entering after the eviction leaves the indices valid and matching the new window. */
  lemma EnterAfterEvict(s: State, p: Pushed<string>, v: string)
    requires Inv(s) && p == Push(s.window, s.capacity, v)
    ensures Evict(s.tables, p).Ok?
    ensures var t := Enter(Evict(s.tables, p).value, v);
            Valid(t) && Total(t.counts) == |p.items| && Mirrors(p.items, t.counts)
  {
    EvictPreservesValid(s, p, v);
    var t1 := Evict(s.tables, p).value;
    EnterPreservesValid(t1, v);
    EnterTotal(t1, v);
    var t2 := Enter(t1, v);
    assert |p.items| + |Evicted(p)| == |s.window| + 1;
    forall u ensures Lookup(t2.counts, u) == multiset(p.items)[u] {
      EnterLookup(t1, v, u);
      assert multiset(p.items)[u] + multiset(Evicted(p))[u] == multiset(s.window)[u] + multiset{v}[u];
    }
  }

  /** A step from a state satisfying the invariant never faults and keeps the invariant. */
  lemma StepPreservesInv(s: State, x: Option<string>)
    requires Inv(s)
    ensures Step(s, x).Ok? && Inv(Step(s, x).value)
  {
    if x.Some? {
      var p := Push(s.window, s.capacity, x.value);
      EnterAfterEvict(s, p, x.value);
    }
  }

  /** A value that re-enters as it is evicted leaves the indices exactly as they were. */
  lemma EvictedReentryUnchanged(s: State, v: string)
    requires Inv(s) && |s.window| == s.capacity && s.window[0] == v
    ensures Step(s, Some(v)).Ok? && Step(s, Some(v)).value.tables == s.tables
  {
    assert v in multiset(s.window);
    assert Lookup(s.tables.counts, v) > 0;
    EnterUndoesExit(s.tables, v);
  }

  /** Pushing into the last `n` values keeps the last `n` values of the longer stream. */
  lemma LastNSnoc<T>(xs: seq<T>, n: nat, v: T)
    requires 1 <= n
    ensures LastN(LastN(xs, n) + [v], n) == LastN(xs + [v], n)
  {
    if n < |xs| {
      assert LastN(xs, n) + [v] == (xs + [v])[|xs| - n..];
      assert LastN(xs + [v], n) == (xs + [v])[|xs| + 1 - n..];
    }
  }

  /**
   From a fresh engine, any input is processed without fault; the window holds the last
   `capacity` extracted values and the invariant holds.
   */
  lemma {:induction false} RunFromInit(capacity: nat, xs: seq<Option<string>>)
    requires 1 <= capacity
    ensures Run(Init(capacity), xs).Ok?
    ensures Inv(Run(Init(capacity), xs).value)
    ensures Run(Init(capacity), xs).value.window == LastN(Values(xs), capacity)
    decreases |xs|
  {
    if xs == [] {
      InitInv(capacity);
    } else {
      var init := xs[..|xs| - 1];
      var x := xs[|xs| - 1];
      RunFromInit(capacity, init);
      var s := Run(Init(capacity), init).value;
      assert Run(Init(capacity), xs) == Step(s, x);
      StepPreservesInv(s, x);
      if x.Some? {
        LastNSnoc(Values(init), capacity, x.value);
      }
    }
  }

  /** Conservation: the counts sum to min(capacity, number of values extracted so far). */
  lemma Conservation(capacity: nat, xs: seq<Option<string>>)
    requires 1 <= capacity
    ensures Run(Init(capacity), xs).Ok?
    ensures Total(Run(Init(capacity), xs).value.tables.counts) == if |Values(xs)| <= capacity then |Values(xs)| else capacity
  {
    RunFromInit(capacity, xs);
  }

  /** Each value's count is the number of times it occurs among the last `capacity` extracted values. */
  lemma CountIsOccurrences(capacity: nat, xs: seq<Option<string>>, v: string)
    requires 1 <= capacity
    ensures Run(Init(capacity), xs).Ok?
    ensures Lookup(Run(Init(capacity), xs).value.tables.counts, v) == multiset(LastN(Values(xs), capacity))[v]
  {
    RunFromInit(capacity, xs);
  }

  /** A value never occurs more often in a sequence than the sequence is long. */
  lemma {:induction false} OccurrencesAtMostLength(w: seq<string>, v: string)
    ensures multiset(w)[v] <= |w|
  {
    if w != [] {
      OccurrencesAtMostLength(w[..|w| - 1], v);
      assert w == w[..|w| - 1] + [w[|w| - 1]];
    }
  }

  /** No count ever exceeds the window capacity. */
  lemma CountsBounded(s: State, v: string)
    requires Inv(s)
    ensures Lookup(s.tables.counts, v) <= s.capacity
  {
    OccurrencesAtMostLength(s.window, v);
  }

  /** Under the invariant, a window holding the single value `v` has tables {v: 1} and {1: {v}}. */
  lemma SingletonWindow(s: State, v: string)
    requires Inv(s) && s.window == [v]
    ensures s.tables == Tables(map[v := 1], map[1 := {v}])
  {
    var expected := Tables(map[v := 1], map[1 := {v}]);
    forall u | u in s.tables.counts ensures u == v {
      assert Lookup(s.tables.counts, u) == multiset([v])[u];
    }
    assert Lookup(s.tables.counts, v) == 1;
    assert s.tables.counts == expected.counts;
    RankDeterminedByCounts(s.tables, expected);
  }

  /** With a window of one, the indices after a step are exactly {v: 1} and {1: {v}}. */
  lemma CapacityOne(s: State, v: string)
    requires Inv(s) && s.capacity == 1
    ensures Step(s, Some(v)).Ok?
    ensures Step(s, Some(v)).value.tables == Tables(map[v := 1], map[1 := {v}])
  {
    StepPreservesInv(s, Some(v));
    var s' := Step(s, Some(v)).value;
    assert s'.window == [v];
    SingletonWindow(s', v);
  }

  /** Under the invariant, a window A, C, A has tables {A: 2, C: 1} and {1: {C}, 2: {A}}. */
  lemma WindowACA(s: State)
    requires Inv(s) && s.window == ["A", "C", "A"]
    ensures s.tables == Tables(map["A" := 2, "C" := 1], map[1 := {"C"}, 2 := {"A"}])
  {
    var expected := Tables(map["A" := 2, "C" := 1], map[1 := {"C"}, 2 := {"A"}]);
    assert multiset(s.window) == multiset{"A", "A", "C"};
    forall u | u in s.tables.counts ensures u in expected.counts {
      assert Lookup(s.tables.counts, u) == multiset(s.window)[u];
    }
    assert Lookup(s.tables.counts, "A") == 2;
    assert Lookup(s.tables.counts, "C") == 1;
    assert s.tables.counts == expected.counts;
    RankDeterminedByCounts(s.tables, expected);
  }

  /** Window 3, values A, B, A, C, A: A counts twice, C once, B is gone. */
  lemma Scenario()
    ensures var r := Run(Init(3), [Some("A"), Some("B"), Some("A"), Some("C"), Some("A")]);
            r.Ok? && r.value.window == ["A", "C", "A"] &&
            r.value.tables == Tables(map["A" := 2, "C" := 1], map[1 := {"C"}, 2 := {"A"}])
  {
    var xs := [Some("A"), Some("B"), Some("A"), Some("C"), Some("A")];
    assert Values(xs[..0]) == [];
    assert Values(xs[..1]) == ["A"] by { assert xs[..1][..0] == xs[..0]; }
    assert Values(xs[..2]) == ["A", "B"] by { assert xs[..2][..1] == xs[..1]; }
    assert Values(xs[..3]) == ["A", "B", "A"] by { assert xs[..3][..2] == xs[..2]; }
    assert Values(xs[..4]) == ["A", "B", "A", "C"] by { assert xs[..4][..3] == xs[..3]; }
    assert Values(xs) == ["A", "B", "A", "C", "A"] by { assert xs[..4] == xs[..|xs| - 1]; }
    RunFromInit(3, xs);
    var s := Run(Init(3), xs).value;
    assert s.window == ["A", "C", "A"];
    WindowACA(s);
  }
}
