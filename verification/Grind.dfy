/** `grind_nonce`: strided worker threads over one stop flag and one result cell,
    as interleaved atomic steps. */
module Grind {
  import opened Prelude
  import opened Bytes

  /** Where a worker stands in its loop: before the flag is loaded, before its
      nonce is hashed, before the result is written under the mutex, before the
      flag is stored, or returned. */
  datatype Point = LoadFlag | Check | WriteFound | StoreFlag | Returned

  datatype Worker = Worker(at: Point, nonce: nat)

  datatype State = State(workers: seq<Worker>, stop: bool, found: Option<nat>)

  /** All workers before their first step; worker `t` starts at nonce `t`. */
  function Start(threads: nat): (s: State)
    ensures |s.workers| == threads
  {
    State(seq(threads, t requires 0 <= t < threads => Worker(LoadFlag, t)), false, None)
  }

  /** One atomic step of worker `t`. `seen` is what a load of the flag returns. */
  function Step(meets: nat -> bool, s: State, t: nat, seen: bool): (s': State)
    requires t < |s.workers| && s.workers[t].at != Returned
    ensures |s'.workers| == |s.workers|
  {
    var w := s.workers[t];
    match w.at
    case LoadFlag => s.(workers := s.workers[t := w.(at := if seen then Returned else Check)])
    case Check =>
      if meets(w.nonce) then s.(workers := s.workers[t := w.(at := WriteFound)])
      else if w.nonce + |s.workers| < U32_LIMIT
      then s.(workers := s.workers[t := Worker(LoadFlag, w.nonce + |s.workers|)])
      else s.(workers := s.workers[t := w.(at := Returned)])
    case WriteFound => s.(workers := s.workers[t := w.(at := StoreFlag)], found := Some(w.nonce))
    case StoreFlag => s.(workers := s.workers[t := w.(at := Returned)], stop := true)
    case Returned => s
  }

  /** The scheduler may run any worker that has not returned. A relaxed load may
      miss a store that has happened, but cannot see one that has not. */
  predicate CanStep(s: State, t: int, seen: bool) {
    0 <= t < |s.workers| && s.workers[t].at != Returned && (seen ==> s.stop)
  }

  /** Every nonce of worker `t` below `limit` has been hashed and fails. */
  ghost predicate Exhausted(meets: nat -> bool, threads: nat, t: nat, limit: nat)
    requires threads > 0
  {
    forall n: nat :: n < limit && n < U32_LIMIT && n % threads == t ==> !meets(n)
  }

  ghost predicate WorkerInv(meets: nat -> bool, s: State, t: nat)
    requires t < |s.workers|
  {
    var w := s.workers[t];
    && w.nonce < U32_LIMIT && w.nonce % |s.workers| == t
    && Exhausted(meets, |s.workers|, t, w.nonce)
    && (w.at == WriteFound ==> meets(w.nonce))
    && (w.at == StoreFlag ==> s.found.Some?)
    && (w.at == Returned && s.found.None? ==> Exhausted(meets, |s.workers|, t, U32_LIMIT))
  }

  ghost predicate Inv(meets: nat -> bool, s: State) {
    && 0 < |s.workers| < U32_LIMIT
    && (forall t: nat :: t < |s.workers| ==> WorkerInv(meets, s, t))
    && (s.stop ==> s.found.Some?)
    && (s.found.Some? ==> s.found.value < U32_LIMIT && meets(s.found.value))
  }

  lemma Next(n: nat, t: nat, m: nat, threads: nat)
    requires 0 < threads && m % threads == t && n % threads == t && m <= n < m + threads
    ensures n == m
  {
    var a, b := m / threads, n / threads;
    assert m == a * threads + t && n == b * threads + t;
    assert n - m == b * threads - a * threads;
    if b > a { Gap(b, a, threads); } else if b < a { Gap(a, b, threads); }
  }

  lemma Gap(b: int, a: int, d: nat)
    requires b > a && d > 0
    ensures b * d - a * d >= d
  {
    assert b * d - a * d == (b - a) * d;
    assert (b - a) * d >= d by { Positive(b - a - 1, d); }
  }

  lemma Positive(k: nat, d: nat)
    ensures (k + 1) * d >= d
  {
  }

  lemma AddStride(m: nat, threads: nat)
    requires threads > 0
    ensures (m + threads) % threads == m % threads
  {
    var q, r := m / threads, m % threads;
    assert (q + 1) * threads == q * threads + threads;
    DivUnique(m + threads, threads, q + 1, r);
  }

  lemma SmallRemainder(n: nat, threads: nat)
    requires n < threads
    ensures n % threads == n
  {
    DivUnique(n, threads, 0, n);
  }

  /** Moving on one stride leaves no nonce of the worker behind. */
  lemma ExhaustedStep(meets: nat -> bool, threads: nat, t: nat, nonce: nat)
    requires threads > 0 && nonce % threads == t
    requires Exhausted(meets, threads, t, nonce) && !meets(nonce)
    ensures Exhausted(meets, threads, t, nonce + threads)
  {
    forall n: nat | n < nonce + threads && n < U32_LIMIT && n % threads == t ensures !meets(n) {
      if n >= nonce { Next(n, t, nonce, threads); }
    }
  }

  lemma NothingBelow(meets: nat -> bool, threads: nat, t: nat)
    requires t < threads
    ensures Exhausted(meets, threads, t, t)
  {
    forall n: nat | n < t ensures n % threads != t {
      SmallRemainder(n, threads);
    }
  }

  lemma StartInv(meets: nat -> bool, threads: nat)
    requires 0 < threads < U32_LIMIT
    ensures Inv(meets, Start(threads))
  {
    forall t: nat | t < threads ensures WorkerInv(meets, Start(threads), t) {
      SmallRemainder(t, threads);
      NothingBelow(meets, threads, t);
    }
  }

  /** Every step of every worker keeps the invariant, whatever the load returned. */
  lemma StepInv(meets: nat -> bool, s: State, t: nat, seen: bool)
    requires Inv(meets, s) && CanStep(s, t, seen)
    ensures Inv(meets, Step(meets, s, t, seen))
  {
    var s' := Step(meets, s, t, seen);
    var w, threads := s.workers[t], |s.workers|;
    assert WorkerInv(meets, s, t);
    if w.at == Check && !meets(w.nonce) {
      ExhaustedStep(meets, threads, t, w.nonce);
      AddStride(w.nonce, threads);
    }
    assert WorkerInv(meets, s', t);
    forall u: nat | u < threads ensures WorkerInv(meets, s', u) {
      assert WorkerInv(meets, s, u);
      if u != t { assert s'.workers[u] == s.workers[u]; }
    }
  }

  /** Steps a worker can still take: four for each nonce left in its stride. */
  function Left(w: Worker): nat {
    if w.at == Returned || w.nonce >= U32_LIMIT then 0
    else
      4 * (U32_LIMIT - w.nonce) + (match w.at case LoadFlag => 3 case Check => 2 case WriteFound => 1 case _ => 0)
  }

  function TotalLeft(workers: seq<Worker>): nat {
    if workers == [] then 0 else Left(workers[0]) + TotalLeft(workers[1..])
  }

  lemma {:induction false} TotalUpdate(workers: seq<Worker>, t: nat, w: Worker)
    requires t < |workers|
    ensures TotalLeft(workers[t := w]) == TotalLeft(workers) - Left(workers[t]) + Left(w)
  {
    if t == 0 {
      assert workers[t := w][1..] == workers[1..];
    } else {
      TotalUpdate(workers[1..], t - 1, w);
      assert workers[t := w][1..] == workers[1..][t - 1 := w];
    }
  }

  /** Each step leaves fewer steps to take, so every run ends. */
  lemma StepDecreases(meets: nat -> bool, s: State, t: nat, seen: bool)
    requires Inv(meets, s) && CanStep(s, t, seen)
    ensures TotalLeft(Step(meets, s, t, seen).workers) < TotalLeft(s.workers)
  {
    assert WorkerInv(meets, s, t);
    TotalUpdate(s.workers, t, Step(meets, s, t, seen).workers[t]);
  }

  /** Once all threads are joined the result cell answers the search. */
  lemma JoinedResult(meets: nat -> bool, s: State)
    requires Inv(meets, s) && forall t: nat :: t < |s.workers| ==> s.workers[t].at == Returned
    ensures s.found.Some? ==> s.found.value < U32_LIMIT && meets(s.found.value)
    ensures s.found.None? ==> forall n: nat :: n < U32_LIMIT ==> !meets(n)
  {
    if s.found.None? {
      forall n: nat | n < U32_LIMIT ensures !meets(n) {
        var t := n % |s.workers|;
        assert WorkerInv(meets, s, t);
      }
    }
  }

  /** A run: a start, then steps of runnable workers in any order. */
  ghost predicate IsRun(meets: nat -> bool, threads: nat, run: seq<State>, who: seq<nat>, seen: seq<bool>) {
    && |run| == |who| + 1 == |seen| + 1
    && run[0] == Start(threads)
    && forall i :: 0 <= i < |who| ==>
         CanStep(run[i], who[i], seen[i]) && run[i + 1] == Step(meets, run[i], who[i], seen[i])
  }

  /** Along every run the invariant holds and each step uses up budget, so no
      run of any interleaving is longer than the budget of the start. */
  lemma {:induction false} EveryRunIsSafeAndBounded(meets: nat -> bool, threads: nat, run: seq<State>, who: seq<nat>, seen: seq<bool>, k: nat)
    requires 0 < threads < U32_LIMIT && IsRun(meets, threads, run, who, seen) && k < |run|
    ensures Inv(meets, run[k])
    ensures TotalLeft(run[k].workers) + k <= TotalLeft(Start(threads).workers)
  {
    if k == 0 {
      StartInv(meets, threads);
    } else {
      EveryRunIsSafeAndBounded(meets, threads, run, who, seen, k - 1);
      StepInv(meets, run[k - 1], who[k - 1], seen[k - 1]);
      StepDecreases(meets, run[k - 1], who[k - 1], seen[k - 1]);
    }
  }

  // ---- the stop flag

  /** The flag is set only for a result, and a result is followed by the flag. */
  ghost predicate FlagInv(s: State) {
    && (s.stop ==> s.found.Some?)
    && (s.found.Some? ==> s.stop || exists t: nat :: t < |s.workers| && s.workers[t].at == StoreFlag)
  }

  lemma FlagStep(meets: nat -> bool, s: State, t: nat, seen: bool)
    requires Inv(meets, s) && FlagInv(s) && CanStep(s, t, seen)
    ensures FlagInv(Step(meets, s, t, seen))
  {
    var s' := Step(meets, s, t, seen);
    assert WorkerInv(meets, s, t);
    if s.workers[t].at == WriteFound {
      assert s'.workers[t].at == StoreFlag;
    } else if s.found.Some? && !s.stop && s.workers[t].at != StoreFlag {
      var u: nat :| u < |s.workers| && s.workers[u].at == StoreFlag;
      assert s'.workers[u].at == StoreFlag;
    }
  }

  /** In every run, once all threads are joined the flag is set exactly when
      there is a result. */
  lemma {:induction false} FlagTellsResult(meets: nat -> bool, threads: nat, run: seq<State>, who: seq<nat>, seen: seq<bool>, k: nat)
    requires 0 < threads < U32_LIMIT && IsRun(meets, threads, run, who, seen) && k < |run|
    ensures FlagInv(run[k])
    ensures (forall t: nat :: t < |run[k].workers| ==> run[k].workers[t].at == Returned) ==> (run[k].stop <==> run[k].found.Some?)
  {
    if k > 0 {
      FlagTellsResult(meets, threads, run, who, seen, k - 1);
      EveryRunIsSafeAndBounded(meets, threads, run, who, seen, k - 1);
      FlagStep(meets, run[k - 1], who[k - 1], seen[k - 1]);
    }
  }

  /** A worker that sees the flag set tries no further nonce in the run. */
  lemma {:induction false} SeenIsLast(meets: nat -> bool, threads: nat, run: seq<State>, who: seq<nat>, seen: seq<bool>, i: nat, k: nat)
    requires IsRun(meets, threads, run, who, seen) && i < k < |run|
    requires run[i].workers[who[i]].at == LoadFlag && seen[i]
    ensures who[i] < |run[k].workers| && run[k].workers[who[i]] == Worker(Returned, run[i].workers[who[i]].nonce)
    decreases k
  {
    if k > i + 1 {
      SeenIsLast(meets, threads, run, who, seen, i, k - 1);
      assert CanStep(run[k - 1], who[k - 1], seen[k - 1]);
    } else {
      assert CanStep(run[i], who[i], seen[i]);
    }
  }

  /** As long as a worker has not returned, some worker can take a step. */
  lemma NeverStuck(s: State, t: nat)
    requires t < |s.workers| && s.workers[t].at != Returned
    ensures CanStep(s, t, false) && !AllReturned(s)
  {
  }

  /** The nonces worker `t` tries if nobody stops it. */
  ghost predicate InStride(threads: nat, t: nat, n: nat) {
    exists k: nat :: n == t + k * threads
  }

  /** Each nonce is tried by one worker and by no other. */
  lemma StridesPartition(threads: nat, n: nat)
    requires threads > 0
    ensures n % threads < threads && InStride(threads, n % threads, n)
    ensures forall t: nat :: t < threads && InStride(threads, t, n) ==> t == n % threads
  {
    assert n == n % threads + (n / threads) * threads;
    forall t: nat | t < threads && InStride(threads, t, n) ensures t == n % threads {
      var k: nat :| n == t + k * threads;
      StrideRemainder(t, k, threads);
    }
  }

  lemma {:induction false} StrideRemainder(t: nat, k: nat, threads: nat)
    requires t < threads
    ensures (t + k * threads) % threads == t
  {
    if k > 0 {
      StrideRemainder(t, k - 1, threads);
      assert t + k * threads == t + (k - 1) * threads + threads;
      AddStride(t + (k - 1) * threads, threads);
    }
  }

  predicate AllReturned(s: State) {
    forall t: nat :: t < |s.workers| ==> s.workers[t].at == Returned
  }

  /** The threaded search under a scheduler that picks steps arbitrarily. */
  method Search(meets: nat -> bool, threads: nat) returns (found: Option<nat>)
    requires 0 < threads < U32_LIMIT
    ensures found.Some? ==> found.value < U32_LIMIT && meets(found.value)
    ensures found.None? ==> forall n: nat :: n < U32_LIMIT ==> !meets(n)
  {
    var s := Start(threads);
    StartInv(meets, threads);
    while !AllReturned(s)
      invariant Inv(meets, s)
      decreases TotalLeft(s.workers)
    {
      var t: nat :| t < |s.workers| && s.workers[t].at != Returned;
      var seen: bool :| seen ==> s.stop;
      StepInv(meets, s, t, seen);
      StepDecreases(meets, s, t, seen);
      s := Step(meets, s, t, seen);
    }
    JoinedResult(meets, s);
    found := s.found;
  }

  const MAX_THREADS: nat := 8

  /** One worker per processor, one when their number is unknown, eight at most. */
  function Threads(parallelism: Option<nat>): (r: nat)
    requires parallelism.Some? ==> parallelism.value > 0
    ensures 1 <= r <= 8
    ensures parallelism.None? ==> r == 1
    ensures parallelism.Some? ==> r <= parallelism.value && (r == parallelism.value || r == 8)
  {
    var available := if parallelism.Some? then parallelism.value else 1;
    if available < MAX_THREADS then available else MAX_THREADS
  }

  /** `grind_nonce`: the machine's parallelism when known, else one, capped at eight. */
  method GrindNonce(meets: nat -> bool, parallelism: Option<nat>) returns (found: Option<nat>)
    requires parallelism.Some? ==> parallelism.value > 0
    ensures found.Some? ==> found.value < U32_LIMIT && meets(found.value)
    ensures found.None? ==> forall n: nat :: n < U32_LIMIT ==> !meets(n)
  {
    found := Search(meets, Threads(parallelism));
  }
}
