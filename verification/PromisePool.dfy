/** promisePoolMap (lib/promiseMap.js). */
module PromisePool {
  // Workers claim indexes from one shared counter and are resumed in any order. A step runs one worker from an await
  // to its next await.

  import opened Wrappers

  /** How the callback's promise for an item settles. */
  datatype Settled<V, E> = Fulfilled(value: V) | Rejected(error: E)

  /** Awaiting the callback for an index, yielding to the event loop, done, or stopped by its own error. */
  datatype Worker = Running(index: nat) | Yielding | Finished | Stopped

  datatype Pool<V, E> = Pool(nextIndex: nat, completedCount: nat, results: seq<Option<V>>,
                             errors: seq<(nat, E)>, workers: seq<Worker>, calls: seq<nat>)

  datatype Config = Config(concurrency: nat, throwErrors: bool, yieldEvery: nat)

  // ---------------------------------------------------------------- the worker's code

  /** The head of the while loop: claim the next index and call the callback, or leave. */
  function ClaimNext<V, E>(p: Pool<V, E>, w: nat): Pool<V, E>
    requires w < |p.workers|
  {
    if p.nextIndex < |p.results| then
      p.(workers := p.workers[w := Running(p.nextIndex)], nextIndex := p.nextIndex + 1,
         calls := p.calls + [p.nextIndex])
    else p.(workers := p.workers[w := Finished])
  }

  /** `completedCount % yieldEvery === 0`; a zero `yieldEvery` gives NaN. */
  predicate Yields(completedCount: nat, yieldEvery: nat) {
    yieldEvery > 0 && completedCount % yieldEvery == 0
  }

  predicate CanResume<V, E>(p: Pool<V, E>, w: nat) {
    w < |p.workers| && (p.workers[w].Running? || p.workers[w].Yielding?)
  }

  /** Record what the callback for `index` came to. */
  function Record<V, E>(p: Pool<V, E>, index: nat, outcome: Settled<V, E>): Pool<V, E>
    requires index < |p.results|
  {
    match outcome
    case Fulfilled(v) => p.(results := p.results[index := Some(v)], completedCount := p.completedCount + 1)
    case Rejected(e) => p.(errors := p.errors + [(index, e)])
  }

  /** A worker goes on: from its callback's settling, or from the event loop. */
  function Resume<V, E>(p: Pool<V, E>, w: nat, items: seq<Settled<V, E>>, c: Config): Pool<V, E>
    requires CanResume(p, w) && |items| == |p.results|
    requires p.workers[w].Running? ==> p.workers[w].index < |items|
  {
    match p.workers[w]
    case Running(i) =>
      var r := Record(p, i, items[i]);
      if items[i].Rejected? && c.throwErrors then r.(workers := r.workers[w := Stopped])
      else if Yields(r.completedCount, c.yieldEvery) then r.(workers := r.workers[w := Yielding])
      else ClaimNext(r, w)
    case _ => ClaimNext(p, w)
  }

  function Min(a: nat, b: nat): nat { if a < b then a else b }

  /** The first `k` workers have been started; each runs up to its first callback at once. */
  function Started<V, E>(n: nat, k: nat): Pool<V, E>
    requires k <= n
  {
    Pool(k, 0, seq(n, _ => None), [], seq(k, i requires 0 <= i < k => Running(i)),
         seq(k, i requires 0 <= i < k => i))
  }

  function Start<V, E>(n: nat, c: Config): Pool<V, E> {
    Started(n, Min(c.concurrency, n))
  }

  // ---------------------------------------------------------------- runs

  /** A run: which worker is resumed, step by step; None when that worker could not be. */
  function Run<V, E>(items: seq<Settled<V, E>>, c: Config, schedule: seq<nat>): Option<Pool<V, E>> {
    if schedule == [] then Some(Start(|items|, c)) else
      var before := Run(items, c, schedule[..|schedule| - 1]);
      var w := schedule[|schedule| - 1];
      if before.Some? && CanResume(before.value, w) && |before.value.results| == |items|
         && (before.value.workers[w].Running? ==> before.value.workers[w].index < |items|)
      then Some(Resume(before.value, w, items, c)) else None
  }

  /** Somebody is awaiting the callback for `i`. */
  predicate InFlight<V, E>(p: Pool<V, E>, i: nat) {
    Running(i) in p.workers
  }

  /** What is recorded about a claimed index is what its callback came to. */
  ghost predicate Accounted<V, E>(p: Pool<V, E>, items: seq<Settled<V, E>>, i: nat)
    requires |p.results| == |items| && i < |items|
  {
    if InFlight(p, i) then p.results[i].None? && !(exists k :: 0 <= k < |p.errors| && p.errors[k].0 == i)
    else
      match items[i]
      case Fulfilled(v) => p.results[i] == Some(v) && !(exists k :: 0 <= k < |p.errors| && p.errors[k].0 == i)
      case Rejected(e) => p.results[i].None? && exists k :: 0 <= k < |p.errors| && p.errors[k] == (i, e)
  }

  /** Every index below the counter was called once, in order, and is in flight or accounted for; nothing is
      known about the others. Nobody leaves while indexes are left. */
  ghost predicate Inv<V, E>(p: Pool<V, E>, items: seq<Settled<V, E>>, c: Config) {
    && |p.results| == |items| && |p.workers| == Min(c.concurrency, |items|)
    && p.nextIndex <= |items| && p.calls == seq(p.nextIndex, i requires 0 <= i < p.nextIndex => i)
    && (forall w | 0 <= w < |p.workers| && p.workers[w].Running? :: p.workers[w].index < p.nextIndex)
    && (forall v, w | 0 <= v < w < |p.workers| :: p.workers[v].Running? ==> p.workers[v] != p.workers[w])
    && (forall k | 0 <= k < |p.errors| :: p.errors[k].0 < p.nextIndex)
    && (forall j, k | 0 <= j < k < |p.errors| :: p.errors[j].0 != p.errors[k].0)
    && (forall i | 0 <= i < p.nextIndex :: Accounted(p, items, i))
    && (forall i | p.nextIndex <= i < |items| :: p.results[i].None?)
    && (forall w | 0 <= w < |p.workers| && p.workers[w].Finished? :: p.nextIndex == |items|)
    && (!c.throwErrors ==> forall w | 0 <= w < |p.workers| :: !p.workers[w].Stopped?)
  }

  // ---------------------------------------------------------------- the invariant

  lemma StartInv<V, E>(items: seq<Settled<V, E>>, c: Config)
    ensures Inv(Start(|items|, c), items, c)
  {
    var p: Pool<V, E> := Start(|items|, c);
    forall i | 0 <= i < p.nextIndex ensures Accounted(p, items, i) {
      assert p.workers[i] == Running(i);
    }
  }

  /** A worker that is not in a callback claims the next index or leaves. */
  lemma ClaimInv<V, E>(p: Pool<V, E>, items: seq<Settled<V, E>>, c: Config, w: nat)
    requires w < |p.workers| && !p.workers[w].Running? && Inv(p, items, c)
    ensures Inv(ClaimNext(p, w), items, c)
  {
    var next := ClaimNext(p, w);
    assert forall v | 0 <= v < |p.workers| && v != w :: next.workers[v] == p.workers[v];
    forall i | 0 <= i < next.nextIndex ensures Accounted(next, items, i) {
      if i == p.nextIndex {
        assert next.workers[w] == Running(i);
      } else {
        SameFlight(p, next, w, i);
        assert Accounted(p, items, i);
      }
    }
  }

  /** Moving worker `w` between states that are not the callback for `i` does not change whether `i` is in
      flight. */
  lemma SameFlight<V, E>(p: Pool<V, E>, next: Pool<V, E>, w: nat, i: nat)
    requires w < |p.workers| == |next.workers| && next.workers == p.workers[w := next.workers[w]]
    requires p.workers[w] != Running(i) && next.workers[w] != Running(i)
    ensures InFlight(next, i) <==> InFlight(p, i)
  {
    if InFlight(p, i) {
      var v :| 0 <= v < |p.workers| && p.workers[v] == Running(i);
      assert next.workers[v] == Running(i);
    }
    if InFlight(next, i) {
      var v :| 0 <= v < |next.workers| && next.workers[v] == Running(i);
      assert p.workers[v] == Running(i);
    }
  }

  /** A worker's callback settles: afterwards, parked in `park`, it is accounted for. */
  lemma RecordInv<V, E>(p: Pool<V, E>, items: seq<Settled<V, E>>, c: Config, w: nat, park: Worker)
    requires Inv(p, items, c) && w < |p.workers| && p.workers[w].Running?
    requires park == Yielding || (park == Stopped && c.throwErrors)
    ensures p.workers[w].index < |items|
    ensures var r := Record(p, p.workers[w].index, items[p.workers[w].index]);
            Inv(r.(workers := p.workers[w := park]), items, c)
  {
    var i := p.workers[w].index;
    var r := Record(p, i, items[i]).(workers := p.workers[w := park]);
    assert forall v | 0 <= v < |p.workers| && v != w :: r.workers[v] == p.workers[v] && p.workers[v] != Running(i);
    assert Accounted(p, items, i);
    forall j | 0 <= j < p.nextIndex ensures Accounted(r, items, j) {
      assert Accounted(p, items, j);
      if j == i {
        assert !InFlight(r, i);
        if items[i].Rejected? { assert r.errors[|p.errors|] == (i, items[i].error); }
      } else {
        SameFlight(p, r, w, j);
        if items[j].Rejected? && !InFlight(p, j) {
          var k :| 0 <= k < |p.errors| && p.errors[k] == (j, items[j].error);
          assert r.errors[k] == (j, items[j].error);
        }
      }
    }
  }

  lemma ResumeInv<V, E>(p: Pool<V, E>, items: seq<Settled<V, E>>, c: Config, w: nat)
    requires Inv(p, items, c) && CanResume(p, w)
    ensures p.workers[w].Running? ==> p.workers[w].index < |items|
    ensures Inv(Resume(p, w, items, c), items, c)
  {
    if p.workers[w].Running? {
      var i := p.workers[w].index;
      var r := Record(p, i, items[i]);
      if items[i].Rejected? && c.throwErrors {
        RecordInv(p, items, c, w, Stopped);
      } else {
        RecordInv(p, items, c, w, Yielding);
        var parked := r.(workers := p.workers[w := Yielding]);
        if !Yields(r.completedCount, c.yieldEvery) {
          ClaimInv(parked, items, c, w);
          assert ClaimNext(parked, w).workers == ClaimNext(r, w).workers;
        }
      }
    } else {
      ClaimInv(p, items, c, w);
    }
  }

  lemma {:induction false} RunInv<V, E>(items: seq<Settled<V, E>>, c: Config, schedule: seq<nat>)
    requires Run(items, c, schedule).Some?
    ensures Inv(Run(items, c, schedule).value, items, c)
  {
    if schedule == [] {
      StartInv(items, c);
    } else {
      RunInv(items, c, schedule[..|schedule| - 1]);
      ResumeInv(Run(items, c, schedule[..|schedule| - 1]).value, items, c, schedule[|schedule| - 1]);
    }
  }

  /** In every run each index is called at most once, in order, and no more than `concurrency` callbacks are in
      flight, each for an index of its own. */
  lemma ClaimedOnce<V, E>(items: seq<Settled<V, E>>, c: Config, schedule: seq<nat>)
    requires Run(items, c, schedule).Some?
    ensures var p := Run(items, c, schedule).value;
            && (forall k | 0 <= k < |p.calls| :: p.calls[k] == k) && |p.calls| <= |items|
            && |p.workers| == Min(c.concurrency, |items|)
            && (forall v, w | 0 <= v < w < |p.workers| ::
                  p.workers[v].Running? && p.workers[w].Running? ==> p.workers[v].index != p.workers[w].index)
  {
    RunInv(items, c, schedule);
  }

  // ---------------------------------------------------------------- termination

  function Weight(w: Worker): nat {
    match w
    case Running(_) => 2
    case Yielding => 1
    case _ => 0
  }

  function Load(workers: seq<Worker>): nat {
    if workers == [] then 0 else Weight(workers[0]) + Load(workers[1..])
  }

  lemma {:induction false} LoadUpdate(workers: seq<Worker>, w: nat, to: Worker)
    requires w < |workers|
    ensures Load(workers[w := to]) == Load(workers) - Weight(workers[w]) + Weight(to)
  {
    if w > 0 {
      LoadUpdate(workers[1..], w - 1, to);
      assert workers[w := to][1..] == workers[1..][w - 1 := to];
    } else {
      assert workers[w := to][1..] == workers[1..];
    }
  }

  /** What is left to do: at most this many steps. */
  function Left<V, E>(p: Pool<V, E>): int {
    3 * (|p.results| - p.nextIndex) + Load(p.workers)
  }

  lemma ClaimShrinks<V, E>(p: Pool<V, E>, w: nat)
    requires w < |p.workers|
    ensures Left(ClaimNext(p, w)) <= Left(p) - Weight(p.workers[w])
    ensures p.workers[w].Yielding? ==> Left(ClaimNext(p, w)) < Left(p)
  {
    LoadUpdate(p.workers, w, if p.nextIndex < |p.results| then Running(p.nextIndex) else Finished);
  }

  lemma ResumeShrinks<V, E>(p: Pool<V, E>, w: nat, items: seq<Settled<V, E>>, c: Config)
    requires CanResume(p, w) && |items| == |p.results|
    requires p.workers[w].Running? ==> p.workers[w].index < |items|
    ensures Left(Resume(p, w, items, c)) < Left(p)
  {
    match p.workers[w]
    case Running(i) =>
      LoadUpdate(p.workers, w, Stopped);
      LoadUpdate(p.workers, w, Yielding);
      ClaimShrinks(Record(p, i, items[i]), w);
    case _ => ClaimShrinks(p, w);
  }

  /** Every run is finite: three steps an item are more than enough for the whole pool. */
  lemma {:induction false} RunsAreBounded<V, E>(items: seq<Settled<V, E>>, c: Config, schedule: seq<nat>)
    requires Run(items, c, schedule).Some?
    ensures |schedule| + Left(Run(items, c, schedule).value) <= 3 * |items|
  {
    if schedule == [] {
      StartLoad(|items|, Min(c.concurrency, |items|));
      assert Left(Start<V, E>(|items|, c)) <= 3 * |items|;
    } else {
      var before := schedule[..|schedule| - 1];
      RunsAreBounded(items, c, before);
      RunInv(items, c, before);
      ResumeShrinks(Run(items, c, before).value, schedule[|schedule| - 1], items, c);
    }
  }

  lemma {:induction false} StartLoad(n: nat, k: nat)
    ensures Load(seq(k, i requires 0 <= i < k => Running(i))) == 2 * k
  {
    RunningLoad(seq(k, i requires 0 <= i < k => Running(i)));
  }

  lemma {:induction false} RunningLoad(workers: seq<Worker>)
    requires forall w | 0 <= w < |workers| :: workers[w].Running?
    ensures Load(workers) == 2 * |workers|
  {
    if workers != [] { RunningLoad(workers[1..]); }
  }

  // ---------------------------------------------------------------- counting

  function Awaiting(workers: seq<Worker>): nat {
    if workers == [] then 0 else (if workers[0].Running? then 1 else 0) + Awaiting(workers[1..])
  }

  lemma {:induction false} AwaitingUpdate(workers: seq<Worker>, w: nat, to: Worker)
    requires w < |workers|
    ensures Awaiting(workers[w := to])
            == Awaiting(workers) - (if workers[w].Running? then 1 else 0) + (if to.Running? then 1 else 0)
  {
    if w > 0 {
      AwaitingUpdate(workers[1..], w - 1, to);
      assert workers[w := to][1..] == workers[1..][w - 1 := to];
    } else {
      assert workers[w := to][1..] == workers[1..];
    }
  }

  lemma {:induction false} AllAwaiting(workers: seq<Worker>)
    requires forall w | 0 <= w < |workers| :: workers[w].Running?
    ensures Awaiting(workers) == |workers|
  {
    if workers != [] { AllAwaiting(workers[1..]); }
  }

  lemma ResumeCounts<V, E>(p: Pool<V, E>, w: nat, items: seq<Settled<V, E>>, c: Config)
    requires CanResume(p, w) && |items| == |p.results|
    requires p.workers[w].Running? ==> p.workers[w].index < |items|
    requires p.completedCount + |p.errors| + Awaiting(p.workers) == p.nextIndex
    ensures var next := Resume(p, w, items, c);
            next.completedCount + |next.errors| + Awaiting(next.workers) == next.nextIndex
  {
    AwaitingUpdate(p.workers, w, Resume(p, w, items, c).workers[w]);
  }

  /** At any time each claimed index is completed, failed or being waited for. */
  lemma {:induction false} CompletedIsCounted<V, E>(items: seq<Settled<V, E>>, c: Config, schedule: seq<nat>)
    requires Run(items, c, schedule).Some?
    ensures var p := Run(items, c, schedule).value;
            p.completedCount + |p.errors| + Awaiting(p.workers) == p.nextIndex == |p.calls|
  {
    RunInv(items, c, schedule);
    if schedule == [] {
      AllAwaiting(Start<V, E>(|items|, c).workers);
    } else {
      var before := schedule[..|schedule| - 1];
      CompletedIsCounted(items, c, before);
      RunInv(items, c, before);
      ResumeCounts(Run(items, c, before).value, schedule[|schedule| - 1], items, c);
    }
  }

  function Times(m: nat, n: nat): nat { m * n }

  /** A worker yields behind its callback exactly when the number of completed items is then a multiple of
      `yieldEvery`, unless its error stops it. */
  lemma YieldsExactlyWhen<V, E>(p: Pool<V, E>, w: nat, items: seq<Settled<V, E>>, c: Config)
    requires CanResume(p, w) && |items| == |p.results| && p.workers[w].Running? && p.workers[w].index < |items|
    ensures var outcome := items[p.workers[w].index];
            var done := p.completedCount + if outcome.Fulfilled? then 1 else 0;
            Resume(p, w, items, c).workers[w].Yielding?
            <==> (outcome.Fulfilled? || !c.throwErrors) && c.yieldEvery > 0
                 && exists m :: done == Times(m, c.yieldEvery)
  {
    var done := p.completedCount + if items[p.workers[w].index].Fulfilled? then 1 else 0;
    if c.yieldEvery > 0 {
      if done % c.yieldEvery == 0 {
        assert done == Times(done / c.yieldEvery, c.yieldEvery);
      }
      forall m | done == Times(m, c.yieldEvery) ensures done % c.yieldEvery == 0 {
        MultipleLeavesNothing(m, c.yieldEvery);
      }
    }
  }

  lemma MultipleLeavesNothing(m: nat, n: nat)
    requires n > 0
    ensures Times(m, n) % n == 0
  {
    var d := Times(m, n);
    assert d == Times(d / n, n) + d % n;
    if m < d / n { TimesGrows(m + 1, d / n, n); }
    if m > d / n { TimesGrows(d / n + 1, m, n); }
  }

  lemma {:induction false} TimesGrows(a: nat, b: nat, n: nat)
    requires a <= b
    ensures Times(a, n) <= Times(b, n)
    ensures a > 0 ==> Times(a, n) == Times(a - 1, n) + n
  {
    assert a > 0 ==> (a - 1) * n == a * n - n;
    if a < b {
      TimesGrows(a, b - 1, n);
      assert (b - 1) * n == b * n - n;
    }
  }

  // ---------------------------------------------------------------- the result

  /** No worker can go on: the pool's promise settles. */
  predicate Quiet<V, E>(p: Pool<V, E>) {
    forall w | 0 <= w < |p.workers| :: p.workers[w].Finished? || p.workers[w].Stopped?
  }

  /** Until then some worker can go on. */
  lemma SomeoneGoesOn<V, E>(items: seq<Settled<V, E>>, c: Config, schedule: seq<nat>) returns (w: nat)
    requires Run(items, c, schedule).Some? && !Quiet(Run(items, c, schedule).value)
    ensures Run(items, c, schedule + [w]).Some?
  {
    RunInv(items, c, schedule);
    var p := Run(items, c, schedule).value;
    w :| w < |p.workers| && !p.workers[w].Finished? && !p.workers[w].Stopped?;
    assert (schedule + [w])[..|schedule|] == schedule;
  }

  ghost predicate LeadsToQuiet<V, E>(items: seq<Settled<V, E>>, c: Config, schedule: seq<nat>) {
    Run(items, c, schedule).Some? && Quiet(Run(items, c, schedule).value)
  }

  /** Every run can be carried on until the pool's promise settles, and by RunsAreBounded no run avoids it. */
  lemma {:induction false} PoolSettles<V, E>(items: seq<Settled<V, E>>, c: Config, schedule: seq<nat>)
    requires Run(items, c, schedule).Some?
    ensures exists more :: LeadsToQuiet(items, c, schedule + more)
    decreases 3 * |items| - |schedule|
  {
    hide Run, Left, Quiet;
    if Quiet(Run(items, c, schedule).value) {
      assert schedule + [] == schedule;
      assert LeadsToQuiet(items, c, schedule + []);
    } else {
      var w := SomeoneGoesOn(items, c, schedule);
      LeftIsNatural(items, c, schedule + [w]);
      PoolSettles(items, c, schedule + [w]);
      var more :| LeadsToQuiet(items, c, schedule + [w] + more);
      assert schedule + [w] + more == schedule + ([w] + more);
    }
  }

  lemma LeftIsNatural<V, E>(items: seq<Settled<V, E>>, c: Config, schedule: seq<nat>)
    requires Run(items, c, schedule).Some?
    ensures |schedule| <= 3 * |items|
  {
    RunsAreBounded(items, c, schedule);
    RunInv(items, c, schedule);
  }

  /** With at least one worker and `throwErrors` off, a pool that has come to rest attempted every item; if no
      callback failed it holds each one's value in its place, otherwise the first recorded error is one that a
      callback raised. */
  lemma ResultIsComplete<V, E>(items: seq<Settled<V, E>>, c: Config, schedule: seq<nat>)
    requires Run(items, c, schedule).Some? && Quiet(Run(items, c, schedule).value)
    requires c.concurrency >= 1 && !c.throwErrors
    ensures var p := Run(items, c, schedule).value;
            && |p.calls| == |items|
            && (p.errors == [] <==> forall i | 0 <= i < |items| :: items[i].Fulfilled?)
            && (p.errors == [] ==> forall i | 0 <= i < |items| :: p.results[i] == Some(items[i].value))
            && (p.errors != [] ==> p.errors[0].0 < |items| && items[p.errors[0].0] == Rejected(p.errors[0].1))
  {
    RunInv(items, c, schedule);
    var p := Run(items, c, schedule).value;
    if items != [] {
      assert p.workers[0].Finished?;
      assert p.nextIndex == |items|;
    }
    forall i | 0 <= i < |items| ensures !InFlight(p, i) && Accounted(p, items, i) {
      assert forall w | 0 <= w < |p.workers| :: p.workers[w] != Running(i);
    }
    if p.errors == [] {
      forall i | 0 <= i < |items| ensures items[i].Fulfilled? && p.results[i] == Some(items[i].value) {
        assert !InFlight(p, i) && Accounted(p, items, i);
      }
    } else {
      var i := p.errors[0].0;
      assert Accounted(p, items, i);
      if items[i].Rejected? {
        var k :| 0 <= k < |p.errors| && p.errors[k] == (i, items[i].error);
        assert k == 0;
      }
    }
  }
}
