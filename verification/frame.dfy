/** The order of one frame of the main loop of nucleon_simulation.py
    (lines 174-188): for each nucleon `i` in turn, count its neighbours,
    let it interact with every other nucleon `j` in list order, then move
    it.  What one step does to the state is a parameter here (`step`); the
    physics is filled in by `Simulation.Apply`. */
module Frame {

  /** What happens to nucleon `i`'s neighbour count, to the pair `(i, j)`,
      or to nucleon `i`'s position, at one point of a frame. */
  datatype Event = CountNeighbors(i: nat) | Interact(i: nat, j: nat) | Step(i: nat)

  /** `e` names nucleons among the first `n`. */
  predicate InRange(e: Event, n: nat) {
    match e
    case CountNeighbors(i) => i < n
    case Interact(i, j) => i < n && j < n
    case Step(i) => i < n
  }

  /** The state after the events `es`, one after the other. */
  function Run<S>(step: (S, Event) -> S, s: S, es: seq<Event>): S
    decreases |es|
  {
    if es == [] then s else Run(step, step(s, es[0]), es[1..])
  }

  /** Running `xs + ys` is running `xs`, then `ys`. */
  lemma {:induction false} RunConcat<S>(step: (S, Event) -> S, s: S, xs: seq<Event>, ys: seq<Event>)
    ensures Run(step, s, xs + ys) == Run(step, Run(step, s, xs), ys)
    decreases |xs|
  {
    if xs == [] {
      assert xs + ys == ys;
    } else {
      assert (xs + ys)[1..] == xs[1..] + ys;
      RunConcat(step, step(s, xs[0]), xs[1..], ys);
    }
  }

  /** The pairs `(i, j)`, `j` from `from` up, skipping `j == i`. */
  function Pairs(n: nat, i: nat, from: nat): seq<Event>
    requires from <= n
    decreases n - from
  {
    if from == n then []
    else if from == i then Pairs(n, i, from + 1)
    else [Interact(i, from)] + Pairs(n, i, from + 1)
  }

  /** Nucleon `i`'s part of a frame: count its neighbours, interact with
      every other nucleon in order, then move. */
  function Block(n: nat, i: nat): seq<Event>
    requires i < n
  {
    [CountNeighbors(i)] + Pairs(n, i, 0) + [Step(i)]
  }

  /** The blocks of nucleons `from` to `n - 1`. */
  function Blocks(n: nat, from: nat): seq<Event>
    requires from <= n
    decreases n - from
  {
    if from == n then [] else Block(n, from) + Blocks(n, from + 1)
  }

  /** The order in which one frame touches the nucleons. */
  function Schedule(n: nat): seq<Event> {
    Blocks(n, 0)
  }

  /** Where `e` belongs in the frame from nucleon `from` on. */
  predicate Scheduled(e: Event, n: nat, from: nat) {
    match e
    case CountNeighbors(i) => from <= i < n
    case Interact(i, j) => from <= i < n && j < n && i != j
    case Step(i) => from <= i < n
  }

  /** `e` is one of the pairs `(i, j)` with `from <= j < n` and `j != i`. */
  predicate PairFrom(e: Event, n: nat, i: nat, from: nat) {
    e.Interact? && e.i == i && from <= e.j < n && e.j != i
  }

  /** `Pairs` lists each of its pairs exactly once and nothing else. */
  lemma {:induction false} PairsCount(n: nat, i: nat, from: nat, e: Event)
    requires from <= n
    ensures multiset(Pairs(n, i, from))[e] == if PairFrom(e, n, i, from) then 1 else 0
    decreases n - from
  {
    if from < n {
      PairsCount(n, i, from + 1, e);
      PairsStep(n, i, from, e);
      PairFromStep(n, i, from, e, multiset(Pairs(n, i, from))[e], multiset(Pairs(n, i, from + 1))[e]);
    }
  }

  /** One unfolding of `Pairs`, counted. */
  lemma PairsStep(n: nat, i: nat, from: nat, e: Event)
    requires from < n
    ensures multiset(Pairs(n, i, from))[e]
      == (if from != i && e == Interact(i, from) then 1 else 0) + multiset(Pairs(n, i, from + 1))[e]
  {
    if from != i {
      ConsCount(Interact(i, from), Pairs(n, i, from + 1), e);
    }
  }

  lemma ConsCount(x: Event, t: seq<Event>, e: Event)
    ensures multiset([x] + t)[e] == (if x == e then 1 else 0) + multiset(t)[e]
  {
    assert multiset([x] + t) == multiset([x]) + multiset(t);
  }

  /** The pairs from `from` are `(i, from)`, unless `from == i`, and the
      pairs from `from + 1`. */
  lemma PairFromStep(n: nat, i: nat, from: nat, e: Event, c: nat, c1: nat)
    requires from < n
    requires c == (if from != i && e == Interact(i, from) then 1 else 0) + c1
    requires c1 == if PairFrom(e, n, i, from + 1) then 1 else 0
    ensures c == if PairFrom(e, n, i, from) then 1 else 0
  {
  }

  lemma {:induction false} PairsLength(n: nat, i: nat, from: nat)
    requires from <= n
    ensures |Pairs(n, i, from)| == n - from - (if from <= i < n then 1 else 0)
    decreases n - from
  {
    if from < n {
      PairsLength(n, i, from + 1);
    }
  }

  lemma BlockCount(n: nat, i: nat, e: Event)
    requires i < n
    ensures multiset(Block(n, i))[e] == (if Scheduled(e, n, i) && e.i == i then 1 else 0)
  {
    PairsCount(n, i, 0, e);
  }

  /** Each ordered pair of distinct nucleons interacts exactly once per
      frame, each nucleon counts its neighbours once and moves once, and
      nothing else happens. */
  lemma {:induction false} ScheduleOnce(n: nat, from: nat, e: Event)
    requires from <= n
    ensures multiset(Blocks(n, from))[e] == (if Scheduled(e, n, from) then 1 else 0)
    decreases n - from
  {
    if from < n {
      ScheduleOnce(n, from + 1, e);
      BlockCount(n, from, e);
      assert multiset(Blocks(n, from)) == multiset(Block(n, from)) + multiset(Blocks(n, from + 1));
    }
  }

  lemma {:induction false} BlocksLength(n: nat, from: nat)
    requires from <= n
    ensures |Blocks(n, from)| == (n - from) * (n + 1)
    decreases n - from
  {
    if from < n {
      BlocksLength(n, from + 1);
      PairsLength(n, from, 0);
      Distribute(n - from, n + 1);
    }
  }

  /** `m` blocks of `k` are one block and `m - 1` more. */
  lemma Distribute(m: nat, k: nat)
    requires m > 0
    ensures m * k == k + (m - 1) * k
  {
  }

  /** A block: the neighbour count, the `n - 1` interactions of `i`, and the
      move, immediately after the last interaction. */
  lemma BlockShape(n: nat, i: nat, r: nat)
    requires i < n && r <= n
    ensures |Block(n, i)| == n + 1
    ensures r == 0 ==> Block(n, i)[r] == CountNeighbors(i)
    ensures r == n ==> Block(n, i)[r] == Step(i)
    ensures 0 < r < n ==> Block(n, i)[r].Interact? && Block(n, i)[r].i == i
  {
    PairsLength(n, i, 0);
    if 0 < r < n {
      assert Block(n, i)[r] == Pairs(n, i, 0)[r - 1];
      PairsShape(n, i, 0, r - 1);
    }
  }

  /** Every event of `Pairs(n, i, from)` is an interaction of `i`. */
  lemma {:induction false} PairsShape(n: nat, i: nat, from: nat, k: nat)
    requires from <= n
    ensures k < |Pairs(n, i, from)| ==> Pairs(n, i, from)[k].Interact? && Pairs(n, i, from)[k].i == i
    decreases n - from
  {
    if from < n {
      if from == i {
        PairsShape(n, i, from + 1, k);
      } else if k > 0 {
        PairsShape(n, i, from + 1, k - 1);
      }
    }
  }

  /** Where the `m`-th block starts: after `m` blocks of `n + 1`. */
  function Offset(m: nat, n: nat): nat {
    if m == 0 then 0 else (n + 1) + Offset(m - 1, n)
  }

  lemma {:induction false} OffsetIsProduct(m: nat, n: nat)
    ensures Offset(m, n) == m * (n + 1)
  {
    if m > 0 {
      OffsetIsProduct(m - 1, n);
      Distribute(m, n + 1);
    }
  }

  /** The `m`-th block from `from` starts at position `Offset(m, n)`. */
  lemma {:induction false} BlocksIndex(n: nat, from: nat, m: nat, r: nat)
    requires from + m < n && r <= n
    ensures |Block(n, from + m)| == n + 1
    ensures Offset(m, n) + r < |Blocks(n, from)|
    ensures Blocks(n, from)[Offset(m, n) + r] == Block(n, from + m)[r]
    decreases m
  {
    BlockShape(n, from + m, r);
    BlockShape(n, from, r);
    BlocksUnfold(n, from);
    if m == 0 {
      ConcatIndex(Block(n, from), Blocks(n, from + 1), r);
    } else {
      BlocksIndex(n, from + 1, m - 1, r);
      ConcatIndex(Block(n, from), Blocks(n, from + 1), Offset(m, n) + r);
    }
  }

  lemma BlocksUnfold(n: nat, from: nat)
    requires from < n
    ensures Blocks(n, from) == Block(n, from) + Blocks(n, from + 1)
  {
  }

  /** Indexing into a concatenation. */
  lemma ConcatIndex(a: seq<Event>, b: seq<Event>, k: nat)
    requires k < |a| + |b|
    ensures |a + b| == |a| + |b|
    ensures k < |a| ==> (a + b)[k] == a[k]
    ensures |a| <= k ==> (a + b)[k] == b[k - |a|]
  {
  }

  /** In the frame, nucleon `i`'s events are positions `i * (n + 1)` to
      `i * (n + 1) + n`: its neighbour count, its interactions, its move. */
  lemma SchedulePlacement(n: nat, i: nat, r: nat)
    requires i < n && r <= n
    ensures |Schedule(n)| == n * (n + 1)
    ensures i * (n + 1) + r < |Schedule(n)|
    ensures r == 0 ==> Schedule(n)[i * (n + 1) + r] == CountNeighbors(i)
    ensures r == n ==> Schedule(n)[i * (n + 1) + r] == Step(i)
    ensures 0 < r < n ==> Schedule(n)[i * (n + 1) + r].Interact? && Schedule(n)[i * (n + 1) + r].i == i
  {
    BlocksLength(n, 0);
    BlocksIndex(n, 0, i, r);
    OffsetIsProduct(i, n);
    BlockShape(n, i, r);
  }

  /** The inner `for j` loop for nucleon `i`, from `j` on, over `n` nucleons. */
  function InnerLoop<S>(step: (S, Event) -> S, s: S, n: nat, i: nat, j: nat): S
    requires j <= n
    decreases n - j
  {
    if j == n then s
    else if i == j then InnerLoop(step, s, n, i, j + 1)
    else InnerLoop(step, step(s, Interact(i, j)), n, i, j + 1)
  }

  /** The outer `for i` loop, from nucleon `i` on. */
  function OuterLoop<S>(step: (S, Event) -> S, s: S, n: nat, i: nat): S
    requires i <= n
    decreases n - i
  {
    if i == n then s
    else
      var counted := step(s, CountNeighbors(i));
      var pushed := InnerLoop(step, counted, n, i, 0);
      OuterLoop(step, step(pushed, Step(i)), n, i + 1)
  }

  lemma {:induction false} InnerLoopRuns<S>(step: (S, Event) -> S, s: S, n: nat, i: nat, j: nat)
    requires j <= n
    ensures InnerLoop(step, s, n, i, j) == Run(step, s, Pairs(n, i, j))
    decreases n - j
  {
    if j < n {
      if i == j {
        InnerLoopRuns(step, s, n, i, j + 1);
      } else {
        InnerLoopRuns(step, step(s, Interact(i, j)), n, i, j + 1);
        assert Pairs(n, i, j)[1..] == Pairs(n, i, j + 1);
      }
    }
  }

  lemma {:induction false} OuterLoopRuns<S>(step: (S, Event) -> S, s: S, n: nat, i: nat)
    requires i <= n
    ensures OuterLoop(step, s, n, i) == Run(step, s, Blocks(n, i))
    decreases n - i
  {
    if i < n {
      var counted := step(s, CountNeighbors(i));
      InnerLoopRuns(step, counted, n, i, 0);
      var pushed := Run(step, counted, Pairs(n, i, 0));
      var moved := step(pushed, Step(i));
      OuterLoopRuns(step, moved, n, i + 1);
      RunConcat(step, s, [CountNeighbors(i)], Pairs(n, i, 0));
      RunConcat(step, s, [CountNeighbors(i)] + Pairs(n, i, 0), [Step(i)]);
      RunConcat(step, s, Block(n, i), Blocks(n, i + 1));
      assert Run(step, counted, []) == counted;
      assert Run(step, moved, []) == moved;
    }
  }

  /** The nested loops carry out exactly the schedule. */
  lemma LoopsFollowSchedule<S>(step: (S, Event) -> S, s: S, n: nat)
    ensures OuterLoop(step, s, n, 0) == Run(step, s, Schedule(n))
  {
    OuterLoopRuns(step, s, n, 0);
  }
}
