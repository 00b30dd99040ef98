/** A pool of workers that share one cursor over the targets to lint. */
module LintPool {
  import opened Bytes

  /** Each worker runs undisturbed from one `await` to the next. */
  datatype Worker = Unstarted | Linting(index: nat) | Finished

  predicate Busy(workers: seq<Worker>, w: nat, index: nat)
    requires w < |workers|
  {
    workers[w] == Linting(index)
  }

  /** Every index handed out is with exactly one worker, or has its own target's result. */
  ghost predicate Shared<T, R>(targets: seq<T>, lint: T -> R, workers: seq<Worker>, next: nat, results: map<nat, R>) {
    && (forall w :: 0 <= w < |workers| && workers[w].Linting? ==>
          workers[w].index < |targets| && workers[w].index < next && workers[w].index !in results)
    && (forall w, v :: 0 <= w < v < |workers| && workers[w].Linting? ==> workers[w] != workers[v])
    && (forall i :: i in results ==> i < |targets| && i < next && results[i] == lint(targets[i]))
    && (forall i :: 0 <= i < next && i < |targets| && i !in results ==>
          exists w :: 0 <= w < |workers| && Busy(workers, w, i))
    && (forall w :: 0 <= w < |workers| && workers[w].Finished? ==> next > |targets|)
  }

  function InFlight(workers: seq<Worker>): nat {
    if workers == [] then 0 else InFlight(workers[1..]) + if workers[0].Linting? then 1 else 0
  }

  function Active(workers: seq<Worker>): nat {
    if workers == [] then 0 else Active(workers[1..]) + if workers[0].Finished? then 0 else 1
  }

  lemma {:induction false} CountsBounded(workers: seq<Worker>)
    ensures InFlight(workers) <= Active(workers) <= |workers|
  {
    if workers != [] {
      CountsBounded(workers[1..]);
    }
  }

  lemma {:induction false} OneFinishes(workers: seq<Worker>, w: nat)
    requires w < |workers| && !workers[w].Finished?
    ensures Active(workers[w := Finished]) == Active(workers) - 1
    decreases w
  {
    if w == 0 {
      assert workers[0 := Finished][1..] == workers[1..];
    } else {
      assert workers[w := Finished][1..] == workers[1..][w - 1 := Finished];
      OneFinishes(workers[1..], w - 1);
    }
  }

  /** The results so far, once a worker has handed in the lint it was at. */
  function HandedIn<T, R>(targets: seq<T>, lint: T -> R, worker: Worker, results: map<nat, R>): map<nat, R>
    requires worker.Linting? ==> worker.index < |targets|
  {
    if worker.Linting? then results[worker.index := lint(targets[worker.index])] else results
  }

  /** A worker hands in its result and takes the next index, or finds none left. */
  lemma TurnKeepsShared<T, R>(targets: seq<T>, lint: T -> R, workers: seq<Worker>, next: nat, results: map<nat, R>, w: nat)
    requires Shared(targets, lint, workers, next, results) && w < |workers| && !workers[w].Finished?
    ensures var worker := if next < |targets| then Linting(next) else Finished;
            Shared(targets, lint, workers[w := worker], next + 1, HandedIn(targets, lint, workers[w], results))
    ensures workers[w].Linting? ==> workers[w].index < |targets|
  {
    var worker := if next < |targets| then Linting(next) else Finished;
    var later, handed := workers[w := worker], HandedIn(targets, lint, workers[w], results);
    forall i | 0 <= i < next + 1 && i < |targets| && i !in handed
      ensures exists v :: 0 <= v < |later| && Busy(later, v, i)
    {
      if i == next {
        assert Busy(later, w, i);
      } else {
        var v :| 0 <= v < |workers| && Busy(workers, v, i);
        assert Busy(later, v, i);
      }
    }
  }

  /**
   * Whichever worker the event loop resumes next, each target is linted exactly once, no more than
   * `concurrency` lints are in flight, and every target gets its own result; only a pool without
   * workers misses one.
   */
  method RunAll<T, R>(targets: seq<T>, lint: T -> R, concurrency: nat)
    returns (outcome: Result<seq<R>, nat>, ghost linted: seq<nat>, ghost most: nat)
    ensures outcome.Ok? <==> concurrency > 0 || targets == []
    ensures outcome.Ok? ==> outcome.value == seq(|targets|, i requires 0 <= i < |targets| => lint(targets[i]))
    ensures concurrency > 0 ==> linted == Indices(|targets|)
    ensures most <= concurrency
  {
    var next: nat, results: map<nat, R>, workers := 0, map[], seq(concurrency, _ => Unstarted);
    linted, most := [], 0;
    assert Shared(targets, lint, workers, next, results);
    hide Shared, InFlight, Active, HandedIn;
    while exists w :: 0 <= w < |workers| && !workers[w].Finished?
      invariant |workers| == concurrency && Shared(targets, lint, workers, next, results)
      invariant linted == Indices(if next < |targets| then next else |targets|)
      invariant most <= concurrency && (concurrency == 0 ==> results == map[])
      decreases if next < |targets| then |targets| - next else 0, Active(workers)
    {
      var w: nat :| w < |workers| && !workers[w].Finished?;
      TurnKeepsShared(targets, lint, workers, next, results, w);
      HandedInIs(targets, lint, workers[w], results);
      if workers[w].Linting? {
        results := results[workers[w].index := lint(targets[workers[w].index])];
      }
      var index := next;
      next := next + 1;
      if index < |targets| {
        workers := workers[w := Linting(index)];
        linted := linted + [index];
      } else {
        OneFinishes(workers, w);
        workers := workers[w := Finished];
      }
      CountsBounded(workers);
      most := if InFlight(workers) > most then InFlight(workers) else most;
    }
    if concurrency > 0 {
      AllHandedIn(targets, lint, workers, next, results);
    }
    assert concurrency == 0 && targets != [] ==> 0 !in results;
    outcome := Gather(targets, lint, results);
  }

  function Indices(n: nat): seq<nat> {
    seq(n, i => i)
  }

  lemma HandedInIs<T, R>(targets: seq<T>, lint: T -> R, worker: Worker, results: map<nat, R>)
    requires worker.Linting? ==> worker.index < |targets|
    ensures HandedIn(targets, lint, worker, results) ==
            if worker.Linting? then results[worker.index := lint(targets[worker.index])] else results
  {
  }

  /** The map holds the result of every target. */
  ghost predicate Complete<T, R>(targets: seq<T>, lint: T -> R, results: map<nat, R>) {
    forall i :: 0 <= i < |targets| ==> i in results && results[i] == lint(targets[i])
  }

  lemma AllHandedIn<T, R>(targets: seq<T>, lint: T -> R, workers: seq<Worker>, next: nat, results: map<nat, R>)
    requires Shared(targets, lint, workers, next, results) && |workers| > 0
    requires forall w :: 0 <= w < |workers| ==> workers[w].Finished?
    ensures next > |targets| && Complete(targets, lint, results)
  {
    assert workers[0].Finished?;
  }

  /** The results in the order of the targets, or the first target without one. */
  method Gather<T, R>(targets: seq<T>, lint: T -> R, results: map<nat, R>) returns (outcome: Result<seq<R>, nat>)
    requires Complete(targets, lint, results) || results == map[]
    ensures outcome.Ok? <==> Complete(targets, lint, results)
    ensures outcome.Ok? ==> outcome.value == seq(|targets|, i requires 0 <= i < |targets| => lint(targets[i]))
  {
    var values := [];
    for i := 0 to |targets|
      invariant forall j :: 0 <= j < i ==> j in results
      invariant values == seq(i, j requires 0 <= j < i => lint(targets[j]))
    {
      if i !in results {
        return Err(i);
      }
      values := values + [results[i]];
    }
    outcome := Ok(values);
  }
}
