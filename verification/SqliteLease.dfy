/** The transaction lease and the query gate of one SQLite handle (lib/dialects/SQLiteDialect.js). */
module SqliteLease {
  // Down to its promises: settling a promise appends its reactions to one FIFO job queue, as section 9.5 of
  // ECMA-262 asks. Between two jobs any caller may act, so runs are sequences of actions in any order.

  import opened Wrappers

  datatype Job = Wake(request: nat) | RunQuery(query: nat)

  datatype Promise = Pending(reactions: seq<Job>) | Settled

  /** A lease request. `unlock` is the promise it left in `_transactionQueue`; once granted it also owns the
      promise it stored in `_activeTransaction`. */
  datatype Lease = Waiting(unlock: nat) | Held(unlock: nat, active: nat) | Done(unlock: nat, active: nat)

  /** What happens on the connection: leases granted and given back, outside queries executed, and the
      holder's own work. */
  datatype Event = Granted(request: nat) | GivenBack(request: nat) | Executed(query: nat) | Worked(request: nat)

  datatype Handle = Handle(promises: seq<Promise>,
                           transactionQueue: Option<nat>, activeTransaction: Option<nat>,
                           leases: seq<Lease>, issued: nat, jobs: seq<Job>, log: seq<Event>)

  const Fresh := Handle([], None, None, [], 0, [], [])

  datatype Action = Request | Query | Work(request: nat) | Release(request: nat) | RunJob

  // ---------------------------------------------------------------- promises

  /** `promise.then(job)` or `await promise`: at once into the job queue when already settled. */
  function Then(h: Handle, p: nat, job: Job): Handle
    requires p < |h.promises|
  {
    match h.promises[p]
    case Pending(reactions) => h.(promises := h.promises[p := Pending(reactions + [job])])
    case Settled => h.(jobs := h.jobs + [job])
  }

  /** Calling a promise's `resolve`; a second call does nothing. */
  function Settle(h: Handle, p: nat): Handle
    requires p < |h.promises|
  {
    match h.promises[p]
    case Pending(reactions) => h.(promises := h.promises[p := Settled], jobs := h.jobs + reactions)
    case Settled => h
  }

  // ---------------------------------------------------------------- the handle's operations

  predicate WellFormed(h: Handle) {
    && (h.transactionQueue.Some? ==> h.transactionQueue.value < |h.promises|)
    && (h.activeTransaction.Some? ==> h.activeTransaction.value < |h.promises|)
    && (forall i | 0 <= i < |h.leases| :: h.leases[i].unlock < |h.promises|)
    && (forall i | 0 <= i < |h.leases| && !h.leases[i].Waiting? :: h.leases[i].active < |h.promises|)
    && (forall j | 0 <= j < |h.jobs| && h.jobs[j].Wake? :: h.jobs[j].request < |h.leases|)
  }

  /** acquireTransactionConnection up to its `await ready`. */
  function RequestLease(h: Handle): Handle
    requires WellFormed(h)
  {
    var job := Wake(|h.leases|);
    var next := h.(promises := h.promises + [Pending([])],
                   transactionQueue := Some(|h.promises|),
                   leases := h.leases + [Waiting(|h.promises|)]);
    if h.transactionQueue.None? then next.(jobs := next.jobs + [job])
    else Then(next, h.transactionQueue.value, job)
  }

  /** acquireTransactionConnection after its `await ready`. */
  function Grant(h: Handle, request: nat): Handle
    requires request < |h.leases|
  {
    h.(promises := h.promises + [Pending([])],
       activeTransaction := Some(|h.promises|),
       leases := h.leases[request := Held(h.leases[request].unlock, |h.promises|)],
       log := h.log + [Granted(request)])
  }

  /** `query` of the handle itself: held back while a transaction is active. */
  function IssueQuery(h: Handle): Handle
    requires WellFormed(h)
  {
    var next := h.(issued := h.issued + 1);
    if h.activeTransaction.Some? then Then(next, h.activeTransaction.value, RunQuery(h.issued))
    else next.(log := next.log + [Executed(h.issued)])
  }

  /** `lease.release()`. */
  function ReleaseLease(h: Handle, request: nat): Handle
    requires WellFormed(h) && request < |h.leases| && !h.leases[request].Waiting?
  {
    var lease := h.leases[request];
    var left := if h.activeTransaction == Some(lease.active) then h.(activeTransaction := None) else h;
    var told := Settle(Settle(left, lease.active), lease.unlock);
    if lease.Held? then told.(leases := told.leases[request := Done(lease.unlock, lease.active)],
                              log := told.log + [GivenBack(request)])
    else told
  }

  function RunFirstJob(h: Handle): Handle
    requires WellFormed(h) && h.jobs != []
  {
    var next := h.(jobs := h.jobs[1..]);
    match h.jobs[0]
    case Wake(request) => Grant(next, request)
    case RunQuery(query) => next.(log := next.log + [Executed(query)])
  }

  /** A holder works and releases; releasing again what was released is possible too. */
  predicate Enabled(h: Handle, a: Action) {
    match a
    case Request => true
    case Query => true
    case Work(r) => r < |h.leases| && h.leases[r].Held?
    case Release(r) => r < |h.leases| && !h.leases[r].Waiting?
    case RunJob => h.jobs != []
  }

  function Act(h: Handle, a: Action): Handle
    requires WellFormed(h) && Enabled(h, a)
  {
    match a
    case Request => RequestLease(h)
    case Query => IssueQuery(h)
    case Work(r) => h.(log := h.log + [Worked(r)])
    case Release(r) => ReleaseLease(h, r)
    case RunJob => RunFirstJob(h)
  }

  // ---------------------------------------------------------------- what a safe log is

  /** Who holds the lease, and how many requests were granted, at the end of a log. */
  datatype Turn = Turn(holder: Option<nat>, granted: nat)

  /** Replays a log; None when it breaks a rule: leases are granted one at a time in request order, only the
      holder works or gives back, and no outside query executes while a lease is held. */
  function Replay(log: seq<Event>): Option<Turn> {
    if log == [] then Some(Turn(None, 0)) else
      var before := Replay(log[..|log| - 1]);
      if before.None? then None else
        var turn := before.value;
        match log[|log| - 1]
        case Granted(r) => if turn.holder.None? && r == turn.granted then Some(Turn(Some(r), r + 1)) else None
        case GivenBack(r) => if turn.holder == Some(r) then Some(turn.(holder := None)) else None
        case Executed(q) => if turn.holder.None? then before else None
        case Worked(r) => if turn.holder == Some(r) then before else None
  }

  lemma ReplayStep(log: seq<Event>, e: Event)
    ensures (log + [e])[..|log|] == log && (log + [e])[|log|] == e
  {
  }

  // ---------------------------------------------------------------- the invariant

  predicate HasHolder(h: Handle, granted: nat)
    requires granted <= |h.leases|
  {
    granted > 0 && h.leases[granted - 1].Held?
  }

  predicate OnlyQueries(jobs: seq<Job>) {
    forall j | 0 <= j < |jobs| :: jobs[j].RunQuery?
  }

  /** The next request's wake-up, when it is due. */
  function DueWake(h: Handle, granted: nat): seq<Job>
    requires granted <= |h.leases|
  {
    if granted < |h.leases| && !HasHolder(h, granted) then [Wake(granted)] else []
  }

  /** Requests below `granted` got the lease, all but the last of them gave it back; each later request waits
      for the promise of the one before it; while the lease is held no job is due at all, and otherwise the
      due jobs are queries followed by the one wake-up that is due. */
  predicate Shape(h: Handle, granted: nat) {
    && WellFormed(h) && granted <= |h.leases|
    && (forall i | 0 <= i < granted - 1 :: h.leases[i].Done?)
    && (granted > 0 ==> !h.leases[granted - 1].Waiting?)
    && (forall i | granted <= i < |h.leases| :: h.leases[i].Waiting?)
    && h.transactionQueue == (if h.leases == [] then None else Some(h.leases[|h.leases| - 1].unlock))
    && h.activeTransaction == (if HasHolder(h, granted) then Some(h.leases[granted - 1].active) else None)
  }

  /** The promises the requests left in `_transactionQueue` are distinct; each is settled once its lease was
      given back, and until then holds the wake-up of the next request. */
  predicate Unlocks(h: Handle)
    requires WellFormed(h)
  {
    && (forall i, j | 0 <= i < j < |h.leases| :: h.leases[i].unlock != h.leases[j].unlock)
    && (forall i | 0 <= i < |h.leases| :: h.promises[h.leases[i].unlock] == UnlockState(h, i))
  }

  function UnlockState(h: Handle, i: nat): Promise
    requires i < |h.leases|
  {
    if h.leases[i].Done? then Settled else Pending(if i + 1 < |h.leases| then [Wake(i + 1)] else [])
  }

  /** The promises stored in `_activeTransaction` are others; only the holder's is unsettled, and only queries
      wait for it. */
  predicate Actives(h: Handle, granted: nat)
    requires WellFormed(h) && granted <= |h.leases|
    requires forall i | 0 <= i < granted :: !h.leases[i].Waiting?
  {
    && (forall i, j | 0 <= i < |h.leases| && 0 <= j < granted :: h.leases[i].unlock != h.leases[j].active)
    && (forall i | 0 <= i < granted ::
          if h.leases[i].Held? then h.promises[h.leases[i].active].Pending?
                                    && OnlyQueries(h.promises[h.leases[i].active].reactions)
          else h.promises[h.leases[i].active] == Settled)
  }

  ghost predicate Queue(h: Handle, granted: nat)
    requires granted <= |h.leases|
  {
    exists queries :: h.jobs == queries + DueWake(h, granted) && OnlyQueries(queries)
                      && (HasHolder(h, granted) ==> queries == [])
  }

  predicate Agrees(h: Handle, granted: nat)
    requires granted <= |h.leases|
  {
    Replay(h.log) == Some(Turn(if HasHolder(h, granted) then Some(granted - 1) else None, granted))
  }

  ghost predicate Inv(h: Handle, granted: nat) {
    Shape(h, granted) && Unlocks(h) && Actives(h, granted) && Queue(h, granted) && Agrees(h, granted)
  }

  /** The rule an event keeps, by who held the lease before and who holds it afterwards. */
  predicate AllowedEvent(h: Handle, granted: nat, e: Event, next: Handle, after: nat)
    requires granted <= |h.leases| && after <= |next.leases|
  {
    match e
    case Granted(r) => !HasHolder(h, granted) && r == granted && HasHolder(next, after) && after == granted + 1
    case GivenBack(r) => HasHolder(h, granted) && r == granted - 1 && !HasHolder(next, after) && after == granted
    case Executed(_) => !HasHolder(h, granted) && !HasHolder(next, after) && after == granted
    case Worked(r) => HasHolder(h, granted) && r == granted - 1 && HasHolder(next, after) && after == granted
  }

  lemma EventAgrees(h: Handle, granted: nat, e: Event, next: Handle, after: nat)
    requires granted <= |h.leases| && after <= |next.leases| && Agrees(h, granted)
    requires next.log == h.log + [e] && AllowedEvent(h, granted, e, next, after)
    ensures Agrees(next, after)
  {
    ReplayStep(h.log, e);
  }

  lemma RequestKeepsInv(h: Handle, granted: nat)
    requires Inv(h, granted)
    ensures Inv(RequestLease(h), granted)
  {
    RequestShape(h, granted);
    RequestUnlocks(h, granted);
    RequestActives(h, granted);
    RequestQueue(h, granted);
  }

  /** What a request appends, and what it leaves alone. */
  lemma RequestAppends(h: Handle)
    requires WellFormed(h)
    ensures var next := RequestLease(h);
            && |next.leases| == |h.leases| + 1 && next.leases[..|h.leases|] == h.leases
            && next.leases[|h.leases|] == Waiting(|h.promises|)
            && |next.promises| == |h.promises| + 1 && next.promises[|h.promises|] == Pending([])
            && (forall p | 0 <= p < |h.promises| && Some(p) != h.transactionQueue ::
                  next.promises[p] == h.promises[p])
            && next.transactionQueue == Some(|h.promises|) && next.activeTransaction == h.activeTransaction
            && WellFormed(next)
  {
  }

  lemma RequestShape(h: Handle, granted: nat)
    requires Shape(h, granted)
    ensures Shape(RequestLease(h), granted)
    ensures var next := RequestLease(h);
            && |next.leases| == |h.leases| + 1 && next.leases[..|h.leases|] == h.leases
            && next.leases[|h.leases|] == Waiting(|h.promises|)
            && |next.promises| == |h.promises| + 1 && next.promises[|h.promises|] == Pending([])
            && forall p | 0 <= p < |h.promises| && Some(p) != h.transactionQueue ::
                 next.promises[p] == h.promises[p]
  {
    RequestAppends(h);
    hide RequestLease, WellFormed;
    var next, n := RequestLease(h), |h.leases|;
    assert forall i | 0 <= i < n :: next.leases[i] == h.leases[i];
    assert HasHolder(next, granted) == HasHolder(h, granted);
  }

  lemma RequestUnlocks(h: Handle, granted: nat)
    requires Shape(h, granted) && Unlocks(h)
    ensures WellFormed(RequestLease(h)) && Unlocks(RequestLease(h))
  {
    RequestShape(h, granted);
    RequestAppends(h);
    var next, n := RequestLease(h), |h.leases|;
    assert forall i | 0 <= i < n :: next.leases[i] == h.leases[i];
    forall i | 0 <= i <= n ensures next.promises[next.leases[i].unlock] == UnlockState(next, i) {
      RequestUnlock(h, granted, i);
    }
    hide RequestLease, UnlockState, Shape;
  }

  lemma RequestUnlock(h: Handle, granted: nat, i: nat)
    requires Shape(h, granted) && Unlocks(h) && i <= |h.leases|
    ensures var next := RequestLease(h);
            && i < |next.leases| && next.leases[i].unlock < |next.promises|
            && next.promises[next.leases[i].unlock] == UnlockState(next, i)
  {
    RequestShape(h, granted);
    var next, n := RequestLease(h), |h.leases|;
    if i < n {
      assert next.leases[i] == h.leases[i];
      assert h.promises[h.leases[i].unlock] == UnlockState(h, i);
      assert i + 1 < n ==> h.leases[i].unlock != h.leases[n - 1].unlock;
      assert i + 1 == n ==> h.transactionQueue == Some(h.leases[i].unlock);
    }
  }

  lemma RequestActives(h: Handle, granted: nat)
    requires Shape(h, granted) && Actives(h, granted)
    ensures Shape(RequestLease(h), granted) && Actives(RequestLease(h), granted)
  {
    RequestShape(h, granted);
    var next, n := RequestLease(h), |h.leases|;
    assert next.leases == h.leases + [Waiting(|h.promises|)];
    ActivesStay(h, next, granted);
  }

  /** A request touches no promise of a granted lease. */
  lemma ActivesStay(h: Handle, next: Handle, granted: nat)
    requires Shape(h, granted) && Actives(h, granted) && Shape(next, granted)
    requires next.leases == h.leases + [Waiting(|h.promises|)]
    requires forall p | 0 <= p < |h.promises| && Some(p) != h.transactionQueue ::
               p < |next.promises| && next.promises[p] == h.promises[p]
    ensures Actives(next, granted)
  {
    assert forall i | 0 <= i < granted :: !h.leases[i].Waiting? && !next.leases[i].Waiting?;
    assert forall i | 0 <= i < |h.leases| :: next.leases[i] == h.leases[i];
    assert forall i | 0 <= i < granted :: next.leases[i].active < |h.promises|;
    forall i | 0 <= i < granted ensures next.promises[next.leases[i].active] == h.promises[h.leases[i].active] {
      ActiveStays(h, granted, i);
    }
    hide Shape;
  }

  lemma ActiveStays(h: Handle, granted: nat, i: nat)
    requires Shape(h, granted) && Actives(h, granted) && i < granted
    ensures h.leases[i].active < |h.promises| && Some(h.leases[i].active) != h.transactionQueue
  {
    assert h.leases[|h.leases| - 1].unlock != h.leases[i].active;
  }

  /** The wake-up of a request is due at once when nobody is before it, or the one before it is done. */
  lemma RequestJobs(h: Handle, granted: nat)
    requires Shape(h, granted) && Unlocks(h)
    ensures var n := |h.leases|;
            RequestLease(h).jobs == if n == 0 || h.leases[n - 1].Done? then h.jobs + [Wake(n)] else h.jobs
  {
    var n := |h.leases|;
    if n > 0 {
      assert h.transactionQueue == Some(h.leases[n - 1].unlock);
      assert h.promises[h.leases[n - 1].unlock] == UnlockState(h, n - 1);
    }
  }

  /** Which wake-up is due, with one more request behind the others. */
  lemma DueAfterRequest(h: Handle, granted: nat)
    requires Shape(h, granted)
    ensures var next, n := RequestLease(h), |h.leases|;
            && granted <= |next.leases| && HasHolder(next, granted) == HasHolder(h, granted)
            && (n == 0 || h.leases[n - 1].Done? ==> DueWake(h, granted) == [] && DueWake(next, granted) == [Wake(n)]
                                                    && !HasHolder(h, granted))
            && (n > 0 && !h.leases[n - 1].Done? ==> DueWake(next, granted) == DueWake(h, granted))
  {
    RequestShape(h, granted);
    hide RequestLease;
    var n := |h.leases|;
    assert forall i | 0 <= i < n :: RequestLease(h).leases[i] == h.leases[i];
  }

  lemma RequestQueue(h: Handle, granted: nat)
    requires Inv(h, granted)
    ensures Queue(RequestLease(h), granted)
  {
    RequestJobs(h, granted);
    DueAfterRequest(h, granted);
    hide Shape, Unlocks, Actives, Agrees, RequestLease, OnlyQueries, DueWake, HasHolder, WellFormed, Queue;
    var next := RequestLease(h);
    var queries := QueriesOf(h, granted);
    assert h.jobs + [Wake(|h.leases|)] == queries + (DueWake(h, granted) + [Wake(|h.leases|)]);
    assert [] + [Wake(|h.leases|)] == [Wake(|h.leases|)];
    QueueOf(next, granted, queries);
  }

  /** The queries in front of the wake-up that is due, if any. */
  lemma QueriesOf(h: Handle, granted: nat) returns (queries: seq<Job>)
    requires granted <= |h.leases| && Queue(h, granted)
    ensures h.jobs == queries + DueWake(h, granted) && OnlyQueries(queries)
    ensures HasHolder(h, granted) ==> queries == []
  {
    hide OnlyQueries, DueWake, HasHolder;
    queries :| h.jobs == queries + DueWake(h, granted) && OnlyQueries(queries)
               && (HasHolder(h, granted) ==> queries == []);
  }

  lemma QueueOf(h: Handle, granted: nat, queries: seq<Job>)
    requires granted <= |h.leases| && h.jobs == queries + DueWake(h, granted) && OnlyQueries(queries)
    requires HasHolder(h, granted) ==> queries == []
    ensures Queue(h, granted)
  {
    hide OnlyQueries, DueWake, HasHolder;
  }

  lemma QueryKeepsInv(h: Handle, granted: nat)
    requires Inv(h, granted)
    ensures Inv(IssueQuery(h), granted)
  {
    QueryShape(h, granted);
    QueryUnlocks(h, granted);
    QueryActives(h, granted);
    QueryQueue(h, granted);
    QueryAgrees(h, granted);
  }

  lemma QueryQueue(h: Handle, granted: nat)
    requires Shape(h, granted) && Actives(h, granted) && Queue(h, granted)
    ensures Shape(IssueQuery(h), granted) && Queue(IssueQuery(h), granted)
  {
    QueryShape(h, granted);
    assert DueWake(IssueQuery(h), granted) == DueWake(h, granted);
  }

  lemma QueryAgrees(h: Handle, granted: nat)
    requires Shape(h, granted) && Actives(h, granted) && Agrees(h, granted)
    ensures Shape(IssueQuery(h), granted) && Agrees(IssueQuery(h), granted)
  {
    QueryShape(h, granted);
    if h.activeTransaction.None? { EventAgrees(h, granted, Executed(h.issued), IssueQuery(h), granted); }
  }

  lemma QueryShape(h: Handle, granted: nat)
    requires Shape(h, granted) && Actives(h, granted)
    ensures var next := IssueQuery(h);
            && Shape(next, granted) && HasHolder(next, granted) == HasHolder(h, granted)
            && next.jobs == h.jobs
            && next.promises == (if !HasHolder(h, granted) then h.promises else
                                   var a := h.leases[granted - 1].active;
                                   h.promises[a := Pending(h.promises[a].reactions + [RunQuery(h.issued)])])
  {
  }

  lemma QueryUnlocks(h: Handle, granted: nat)
    requires Shape(h, granted) && Actives(h, granted) && Unlocks(h)
    ensures WellFormed(IssueQuery(h)) && Unlocks(IssueQuery(h))
  {
    QueryShape(h, granted);
    var next := IssueQuery(h);
    forall i | 0 <= i < |h.leases| ensures next.promises[next.leases[i].unlock] == UnlockState(next, i) {
      assert h.promises[h.leases[i].unlock] == UnlockState(h, i);
      assert HasHolder(h, granted) ==> h.leases[i].unlock != h.leases[granted - 1].active;
    }
  }

  lemma QueryActives(h: Handle, granted: nat)
    requires Shape(h, granted) && Actives(h, granted)
    ensures Shape(IssueQuery(h), granted) && Actives(IssueQuery(h), granted)
  {
    QueryShape(h, granted);
    var next := IssueQuery(h);
    if HasHolder(h, granted) {
      assert h.promises[h.leases[granted - 1].active].Pending?;
      forall i | 0 <= i < granted - 1 ensures next.promises[next.leases[i].active] == Settled {
        assert h.promises[h.leases[i].active] == Settled;
      }
    }
  }

  lemma WorkKeepsInv(h: Handle, granted: nat, r: nat)
    requires Inv(h, granted) && r < |h.leases| && h.leases[r].Held?
    ensures Inv(Act(h, Work(r)), granted)
    ensures r == granted - 1
  {
    HolderIsLast(h, granted, r);
    var next := Act(h, Work(r));
    SameShape(h, next, granted);
    SamePromises(h, next, granted);
    EventAgrees(h, granted, Worked(r), next, granted);
    assert DueWake(next, granted) == DueWake(h, granted);
  }

  lemma HolderIsLast(h: Handle, granted: nat, r: nat)
    requires Shape(h, granted) && r < |h.leases| && h.leases[r].Held?
    ensures r == granted - 1 && HasHolder(h, granted)
  {
  }

  /** Only the log and the jobs differ. */
  lemma SameShape(h: Handle, next: Handle, granted: nat)
    requires Shape(h, granted) && next.leases == h.leases && next.promises == h.promises
    requires next.transactionQueue == h.transactionQueue && next.activeTransaction == h.activeTransaction
    requires forall j | 0 <= j < |next.jobs| && next.jobs[j].Wake? :: next.jobs[j].request < |next.leases|
    ensures Shape(next, granted) && HasHolder(next, granted) == HasHolder(h, granted)
  {
  }

  /** Releasing a lease that was given back already changes nothing, whoever holds it now. */
  lemma ReleaseTwiceDoesNothing(h: Handle, granted: nat, r: nat)
    requires Shape(h, granted) && Unlocks(h) && Actives(h, granted) && r < |h.leases| && h.leases[r].Done?
    ensures ReleaseLease(h, r) == h
  {
    var lease := h.leases[r];
    assert h.promises[lease.unlock] == UnlockState(h, r) == Settled;
    assert h.promises[lease.active] == Settled;
    if HasHolder(h, granted) { assert h.promises[h.leases[granted - 1].active].Pending?; }
  }

  /** What giving the lease back does to each part of the handle. */
  lemma ReleaseEffect(h: Handle, granted: nat, r: nat)
    requires Inv(h, granted) && r < |h.leases| && h.leases[r].Held?
    ensures r == granted - 1
    ensures var next, lease := ReleaseLease(h, r), h.leases[r];
            && next.leases == h.leases[r := Done(lease.unlock, lease.active)]
            && next.promises == h.promises[lease.active := Settled][lease.unlock := Settled]
            && next.activeTransaction == None && next.transactionQueue == h.transactionQueue
            && next.jobs == h.promises[lease.active].reactions + (if granted < |h.leases| then [Wake(granted)] else [])
            && next.log == h.log + [GivenBack(r)]
  {
    var lease := h.leases[r];
    assert UnlockState(h, r) == h.promises[lease.unlock];
    assert lease.unlock != lease.active;
    assert HasHolder(h, granted);
    assert h.jobs == [];
  }

  lemma ReleaseKeepsInv(h: Handle, granted: nat, r: nat)
    requires Inv(h, granted) && r < |h.leases| && !h.leases[r].Waiting?
    ensures Inv(ReleaseLease(h, r), granted)
  {
    if h.leases[r].Done? {
      ReleaseTwiceDoesNothing(h, granted, r);
    } else {
      ReleaseEffect(h, granted, r);
      var next, lease := ReleaseLease(h, r), h.leases[r];
      ReleaseShape(h, granted, r);
      ReplayStep(h.log, GivenBack(r));
      assert OnlyQueries(h.promises[lease.active].reactions);
      assert next.jobs == h.promises[lease.active].reactions + DueWake(next, granted);
    }
  }

  lemma ReleaseShape(h: Handle, granted: nat, r: nat)
    requires Inv(h, granted) && r < |h.leases| && h.leases[r].Held?
    ensures var next := ReleaseLease(h, r);
            Shape(next, granted) && Unlocks(next) && Actives(next, granted) && !HasHolder(next, granted)
  {
    ReleaseEffect(h, granted, r);
    var next := ReleaseLease(h, r);
    ReleasedShape(h, next, granted, r);
    ReleaseUnlocks(h, next, granted, r);
    ReleaseActives(h, next, granted, r);
  }

  lemma ReleasedShape(h: Handle, next: Handle, granted: nat, r: nat)
    requires Shape(h, granted) && Actives(h, granted) && r == granted - 1 && h.leases[r].Held?
    requires next.leases == h.leases[r := Done(h.leases[r].unlock, h.leases[r].active)]
    requires |next.promises| == |h.promises|
    requires next.activeTransaction == None && next.transactionQueue == h.transactionQueue
    requires next.jobs == h.promises[h.leases[r].active].reactions
                          + (if granted < |h.leases| then [Wake(granted)] else [])
    ensures Shape(next, granted) && !HasHolder(next, granted)
  {
    assert forall i | 0 <= i < |h.leases| && i != r :: next.leases[i] == h.leases[i];
    var n := |h.promises[h.leases[r].active].reactions|;
    assert forall j | 0 <= j < n :: next.jobs[j] == h.promises[h.leases[r].active].reactions[j];
  }

  /** `next` is `h` after its holder gave the lease back, as far as promises are concerned. */
  predicate GaveBack(h: Handle, next: Handle, granted: nat, r: nat)
    requires Shape(h, granted) && WellFormed(next) && r < |h.leases| && h.leases[r].Held?
  {
    && r == granted - 1
    && next.leases == h.leases[r := Done(h.leases[r].unlock, h.leases[r].active)]
    && next.promises == h.promises[h.leases[r].active := Settled][h.leases[r].unlock := Settled]
  }

  lemma ReleaseUnlocks(h: Handle, next: Handle, granted: nat, r: nat)
    requires Shape(h, granted) && Unlocks(h) && Actives(h, granted) && WellFormed(next)
    requires r < |h.leases| && h.leases[r].Held? && GaveBack(h, next, granted, r)
    ensures Unlocks(next)
  {
    forall i | 0 <= i < |h.leases|
      ensures next.leases[i].unlock == h.leases[i].unlock
      ensures next.promises[next.leases[i].unlock] == UnlockState(next, i)
    {
      assert h.promises[h.leases[i].unlock] == UnlockState(h, i);
      assert h.leases[i].unlock != h.leases[r].active;
      if i < r { assert h.leases[i].unlock != h.leases[r].unlock; }
      if i > r { assert h.leases[r].unlock != h.leases[i].unlock; }
    }
  }

  lemma ReleaseActives(h: Handle, next: Handle, granted: nat, r: nat)
    requires Shape(h, granted) && Actives(h, granted) && Shape(next, granted)
    requires r < |h.leases| && h.leases[r].Held? && GaveBack(h, next, granted, r)
    ensures Actives(next, granted)
  {
    assert forall i | 0 <= i < |h.leases| :: next.leases[i].unlock == h.leases[i].unlock;
    forall i | 0 <= i < granted
      ensures next.leases[i].active == h.leases[i].active
      ensures next.promises[next.leases[i].active] == Settled
    {
      assert h.leases[r].unlock != h.leases[i].active;
      if i < r { assert h.promises[h.leases[i].active] == Settled; }
    }
  }

  lemma JobKeepsInv(h: Handle, granted: nat)
    requires Inv(h, granted) && h.jobs != []
    ensures h.jobs[0].Wake? ==> Inv(RunFirstJob(h), granted + 1)
    ensures h.jobs[0].RunQuery? ==> Inv(RunFirstJob(h), granted)
  {
    var queries :| h.jobs == queries + DueWake(h, granted) && OnlyQueries(queries)
                   && (HasHolder(h, granted) ==> queries == []);
    if queries == [] {
      GrantKeepsInv(h, granted);
    } else {
      assert h.jobs[0] == queries[0];
      QueryJobKeepsInv(h, granted, queries);
    }
  }

  lemma QueryJobShape(h: Handle, granted: nat, queries: seq<Job>)
    requires Shape(h, granted) && h.jobs == queries + DueWake(h, granted) && OnlyQueries(queries) && queries != []
    ensures h.jobs[0].RunQuery? && h.jobs[1..] == queries[1..] + DueWake(h, granted)
    ensures var next := RunFirstJob(h);
            Shape(next, granted) && HasHolder(next, granted) == HasHolder(h, granted)
            && next.leases == h.leases && next.promises == h.promises && next.jobs == h.jobs[1..]
            && next.log == h.log + [Executed(h.jobs[0].query)] && DueWake(next, granted) == DueWake(h, granted)
  {
    assert h.jobs[0] == queries[0];
    assert forall j | 0 <= j < |h.jobs| - 1 :: h.jobs[1..][j] == h.jobs[j + 1];
  }

  lemma QueryJobKeepsInv(h: Handle, granted: nat, queries: seq<Job>)
    requires Inv(h, granted) && h.jobs == queries + DueWake(h, granted) && OnlyQueries(queries)
    requires queries != [] && !HasHolder(h, granted)
    ensures Inv(RunFirstJob(h), granted)
  {
    assert WellFormed(h) && granted <= |h.leases|;
    hide Shape, Unlocks, Actives, Agrees, Replay;
    var next := RunFirstJob(h);
    QueryJobShape(h, granted, queries);
    SamePromises(h, next, granted);
    EventAgrees(h, granted, Executed(h.jobs[0].query), next, granted);
    assert OnlyQueries(queries[1..]);
  }

  lemma SamePromises(h: Handle, next: Handle, granted: nat)
    requires Shape(h, granted) && Unlocks(h) && Actives(h, granted) && Shape(next, granted)
    requires next.leases == h.leases && next.promises == h.promises
    ensures Unlocks(next) && Actives(next, granted)
  {
    forall i | 0 <= i < |h.leases| ensures next.promises[next.leases[i].unlock] == UnlockState(next, i) {
      assert h.promises[h.leases[i].unlock] == UnlockState(h, i);
    }
  }

  lemma GrantAgrees(h: Handle, granted: nat)
    requires Shape(h, granted) && Agrees(h, granted) && h.jobs == DueWake(h, granted) && h.jobs != []
    ensures granted + 1 <= |RunFirstJob(h).leases| && Agrees(RunFirstJob(h), granted + 1)
  {
    GrantShape(h, granted);
    hide RunFirstJob, DueWake, Agrees, Replay;
    var next := RunFirstJob(h);
    assert |next.leases| == |h.leases|;
    EventAgrees(h, granted, Granted(granted), next, granted + 1);
  }

  lemma GrantQueue(h: Handle, granted: nat)
    requires Shape(h, granted) && h.jobs == DueWake(h, granted) && h.jobs != []
    ensures granted + 1 <= |RunFirstJob(h).leases| && Queue(RunFirstJob(h), granted + 1)
  {
    GrantShape(h, granted);
    hide RunFirstJob, DueWake, Queue;
    NoJobsQueue(RunFirstJob(h), granted + 1);
  }

  lemma GrantKeepsInv(h: Handle, granted: nat)
    requires Inv(h, granted) && h.jobs == DueWake(h, granted) && h.jobs != []
    ensures h.jobs[0] == Wake(granted) && Inv(RunFirstJob(h), granted + 1)
  {
    assert WellFormed(h);
    hide Shape, Unlocks, Actives, Agrees, Queue, OnlyQueries, Replay, RunFirstJob, DueWake, HasHolder, WellFormed;
    GrantShape(h, granted);
    GrantUnlocks(h, granted);
    GrantActives(h, granted);
    GrantAgrees(h, granted);
    GrantQueue(h, granted);
  }

  lemma NoJobsQueue(h: Handle, granted: nat)
    requires granted <= |h.leases| && h.jobs == DueWake(h, granted) == []
    ensures Queue(h, granted)
  {
    assert h.jobs == [] + DueWake(h, granted) && OnlyQueries([]);
  }

  lemma GrantShape(h: Handle, granted: nat)
    requires Shape(h, granted) && h.jobs == DueWake(h, granted) && h.jobs != []
    ensures var next := RunFirstJob(h);
            && Shape(next, granted + 1) && HasHolder(next, granted + 1) && next.jobs == DueWake(next, granted + 1) == []
            && next.log == h.log + [Granted(granted)] && h.jobs[0] == Wake(granted) && !HasHolder(h, granted)
            && next.leases == h.leases[granted := Held(h.leases[granted].unlock, |h.promises|)]
            && next.promises == h.promises + [Pending([])]
  {
    var next := RunFirstJob(h);
    assert h.jobs[0] == Wake(granted);
    assert forall i | 0 <= i < |h.leases| && i != granted :: next.leases[i] == h.leases[i];
  }

  lemma GrantUnlocks(h: Handle, granted: nat)
    requires Shape(h, granted) && Unlocks(h) && h.jobs == DueWake(h, granted) && h.jobs != []
    ensures WellFormed(RunFirstJob(h)) && Unlocks(RunFirstJob(h))
  {
    GrantShape(h, granted);
    var next := RunFirstJob(h);
    forall i | 0 <= i < |h.leases|
      ensures next.leases[i].unlock == h.leases[i].unlock
      ensures next.promises[next.leases[i].unlock] == UnlockState(next, i)
    {
      assert h.promises[h.leases[i].unlock] == UnlockState(h, i);
    }
  }

  lemma GrantActives(h: Handle, granted: nat)
    requires Shape(h, granted) && Actives(h, granted) && h.jobs == DueWake(h, granted) && h.jobs != []
    ensures Shape(RunFirstJob(h), granted + 1) && Actives(RunFirstJob(h), granted + 1)
  {
    GrantShape(h, granted);
    var next := RunFirstJob(h);
    assert forall i | 0 <= i < |h.leases| :: next.leases[i].unlock == h.leases[i].unlock;
    forall i | 0 <= i < granted ensures next.promises[next.leases[i].active] == Settled {
      assert h.promises[h.leases[i].active] == Settled;
    }
  }

  // ---------------------------------------------------------------- runs

  /** A run of the handle from its fresh state; None if an action was not possible. */
  function Run(actions: seq<Action>): Option<Handle> {
    if actions == [] then Some(Fresh) else
      var before := Run(actions[..|actions| - 1]);
      var a := actions[|actions| - 1];
      if before.Some? && WellFormed(before.value) && Enabled(before.value, a) then Some(Act(before.value, a))
      else None
  }

  lemma ActKeepsInv(h: Handle, granted: nat, a: Action)
    requires Inv(h, granted) && Enabled(h, a)
    ensures Inv(Act(h, a), granted) || Inv(Act(h, a), granted + 1)
  {
    match a
    case Request => RequestKeepsInv(h, granted);
    case Query => QueryKeepsInv(h, granted);
    case Work(r) => WorkKeepsInv(h, granted, r);
    case Release(r) => ReleaseKeepsInv(h, granted, r);
    case RunJob => JobKeepsInv(h, granted);
  }

  lemma FreshInv()
    ensures Inv(Fresh, 0)
  {
    hide UnlockState;
    assert Fresh.jobs == [] + DueWake(Fresh, 0) && OnlyQueries([]);
  }

  lemma {:induction false} RunKeepsInv(actions: seq<Action>)
    requires Run(actions).Some?
    ensures exists granted :: Inv(Run(actions).value, granted)
  {
    if actions == [] {
      FreshInv();
    } else {
      RunKeepsInv(actions[..|actions| - 1]);
      var before := Run(actions[..|actions| - 1]).value;
      var granted :| Inv(before, granted);
      ActKeepsInv(before, granted, actions[|actions| - 1]);
    }
  }

  /** Safety: in every run leases are granted one at a time and in request order, and between a grant and its
      release no outside query executes, however grants, wake-ups and queries interleave. */
  lemma RunIsSafe(actions: seq<Action>)
    requires Run(actions).Some?
    ensures Replay(Run(actions).value.log).Some?
  {
    RunKeepsInv(actions);
  }

  // ---------------------------------------------------------------- nothing is lost

  function QueryId(job: Job): multiset<nat> {
    if job.RunQuery? then multiset{job.query} else multiset{}
  }

  function QueryIds(jobs: seq<Job>): multiset<nat> {
    if jobs == [] then multiset{} else QueryIds(jobs[..|jobs| - 1]) + QueryId(jobs[|jobs| - 1])
  }

  function ExecutedIds(log: seq<Event>): multiset<nat> {
    if log == [] then multiset{} else
      var last := log[|log| - 1];
      ExecutedIds(log[..|log| - 1]) + if last.Executed? then multiset{last.query} else multiset{}
  }

  function IdsBelow(n: nat): multiset<nat> {
    if n == 0 then multiset{} else IdsBelow(n - 1) + multiset{n - 1}
  }

  lemma QueryIdsMore(jobs: seq<Job>, job: Job)
    ensures QueryIds(jobs + [job]) == QueryIds(jobs) + QueryId(job)
  {
    assert (jobs + [job])[..|jobs|] == jobs;
  }

  lemma AddAssociates(a: multiset<nat>, b: multiset<nat>, c: multiset<nat>)
    ensures a + (b + c) == a + b + c
  {
  }

  lemma LastOfConcat(a: seq<Job>, b: seq<Job>)
    requires b != []
    ensures a + b == (a + b[..|b| - 1]) + [b[|b| - 1]]
  {
  }

  lemma {:induction false} QueryIdsConcat(a: seq<Job>, b: seq<Job>)
    ensures QueryIds(a + b) == QueryIds(a) + QueryIds(b)
  {
    if b == [] {
      assert a + b == a;
    } else {
      QueryIdsConcat(a, b[..|b| - 1]);
      QueryIdsConcatMore(a, b[..|b| - 1], b[|b| - 1]);
      LastOfConcat(a, b);
      LastOfConcat([], b);
      assert [] + b == b && [] + b[..|b| - 1] == b[..|b| - 1];
    }
  }

  lemma QueryIdsConcatMore(a: seq<Job>, b: seq<Job>, job: Job)
    requires QueryIds(a + b) == QueryIds(a) + QueryIds(b)
    ensures QueryIds((a + b) + [job]) == QueryIds(a) + QueryIds(b + [job])
  {
    QueryIdsMore(a + b, job);
    QueryIdsMore(b, job);
    AddAssociates(QueryIds(a), QueryIds(b), QueryId(job));
  }

  lemma QueryIdsSingle(job: Job)
    ensures QueryIds([job]) == QueryId(job)
  {
    QueryIdsMore([], job);
    assert [] + [job] == [job];
  }

  /** The outside queries held back by the active transaction. */
  function HeldBack(h: Handle): seq<Job>
    requires WellFormed(h)
  {
    if h.activeTransaction.Some? && h.promises[h.activeTransaction.value].Pending?
    then h.promises[h.activeTransaction.value].reactions else []
  }

  /** Every query issued so far was executed once, is due in the job queue, or is held back. */
  predicate Conserved(h: Handle)
    requires WellFormed(h)
  {
    ExecutedIds(h.log) + QueryIds(h.jobs) + QueryIds(HeldBack(h)) == IdsBelow(h.issued)
  }

  lemma RequestPieces(h: Handle, granted: nat)
    requires Shape(h, granted) && Actives(h, granted)
    ensures var next := RequestLease(h);
            && WellFormed(next) && next.log == h.log && next.issued == h.issued && HeldBack(next) == HeldBack(h)
            && (next.jobs == h.jobs || next.jobs == h.jobs + [Wake(|h.leases|)])
  {
    RequestShape(h, granted);
    if HasHolder(h, granted) {
      assert h.leases[|h.leases| - 1].unlock != h.leases[granted - 1].active;
    }
  }

  lemma RequestConserves(h: Handle, granted: nat)
    requires Inv(h, granted) && Conserved(h)
    ensures WellFormed(RequestLease(h)) && Conserved(RequestLease(h))
  {
    RequestPieces(h, granted);
    QueryIdsConcat(h.jobs, [Wake(|h.leases|)]);
    QueryIdsSingle(Wake(|h.leases|));
  }

  lemma ExecutedIdsStep(log: seq<Event>, e: Event)
    ensures ExecutedIds(log + [e]) == ExecutedIds(log) + if e.Executed? then multiset{e.query} else multiset{}
  {
    ReplayStep(log, e);
  }

  lemma HeldBackIs(h: Handle, granted: nat)
    requires Shape(h, granted) && Actives(h, granted)
    ensures HeldBack(h) == if HasHolder(h, granted) then h.promises[h.leases[granted - 1].active].reactions else []
  {
  }

  lemma OneMore(e: multiset<nat>, q: multiset<nat>, b: multiset<nat>, all: multiset<nat>, x: nat)
    requires e + q + b == all
    ensures e + multiset{x} + q + b == all + multiset{x} && e + q + (b + multiset{x}) == all + multiset{x}
  {
  }

  lemma QueryPieces(h: Handle, granted: nat)
    requires Inv(h, granted)
    ensures var next := IssueQuery(h);
            && WellFormed(next) && next.jobs == h.jobs && next.issued == h.issued + 1
            && (if HasHolder(h, granted)
                then next.log == h.log && HeldBack(next) == HeldBack(h) + [RunQuery(h.issued)]
                else next.log == h.log + [Executed(h.issued)] && HeldBack(next) == HeldBack(h))
  {
    QueryShape(h, granted);
    QueryActives(h, granted);
    HeldBackIs(h, granted);
    HeldBackIs(IssueQuery(h), granted);
  }

  lemma QueryConserves(h: Handle, granted: nat)
    requires Inv(h, granted) && Conserved(h)
    ensures WellFormed(IssueQuery(h)) && Conserved(IssueQuery(h))
  {
    QueryPieces(h, granted);
    OneMore(ExecutedIds(h.log), QueryIds(h.jobs), QueryIds(HeldBack(h)), IdsBelow(h.issued), h.issued);
    QueryIdsConcat(HeldBack(h), [RunQuery(h.issued)]);
    QueryIdsSingle(RunQuery(h.issued));
    ExecutedIdsStep(h.log, Executed(h.issued));
  }

  lemma ReleasePieces(h: Handle, granted: nat, r: nat)
    requires Inv(h, granted) && r < |h.leases| && h.leases[r].Held?
    ensures var next := ReleaseLease(h, r);
            && WellFormed(next) && next.log == h.log + [GivenBack(r)] && next.issued == h.issued
            && h.jobs == [] && HeldBack(next) == []
            && next.jobs == HeldBack(h) + (if granted < |h.leases| then [Wake(granted)] else [])
  {
    ReleaseEffect(h, granted, r);
    ReleaseShape(h, granted, r);
    HolderIsLast(h, granted, r);
    HeldBackIs(h, granted);
    assert Queue(h, granted) && DueWake(h, granted) == [];
  }

  /** What was held back is due now; nothing else changed hands. */
  lemma ReleaseSums(h: Handle, next: Handle, r: nat, wake: seq<Job>)
    requires WellFormed(h) && WellFormed(next) && Conserved(h)
    requires next.log == h.log + [GivenBack(r)] && next.issued == h.issued && h.jobs == [] && HeldBack(next) == []
    requires next.jobs == HeldBack(h) + wake && (wake == [] || (|wake| == 1 && wake[0].Wake?))
    ensures Conserved(next)
  {
    ExecutedIdsStep(h.log, GivenBack(r));
    QueryIdsConcat(HeldBack(h), wake);
    if wake != [] {
      assert wake == [wake[0]];
      QueryIdsSingle(wake[0]);
    }
  }

  lemma ReleaseConserves(h: Handle, granted: nat, r: nat)
    requires Inv(h, granted) && Conserved(h) && r < |h.leases| && !h.leases[r].Waiting?
    ensures WellFormed(ReleaseLease(h, r)) && Conserved(ReleaseLease(h, r))
  {
    if h.leases[r].Done? {
      ReleaseTwiceDoesNothing(h, granted, r);
    } else {
      ReleasePieces(h, granted, r);
      ReleaseSums(h, ReleaseLease(h, r), r, if granted < |h.leases| then [Wake(granted)] else []);
    }
  }

  /** The first job leaves the queue; a query among them is executed. */
  lemma JobSums(h: Handle)
    requires WellFormed(h) && h.jobs != [] && WellFormed(RunFirstJob(h)) && Conserved(h)
    requires HeldBack(h) == HeldBack(RunFirstJob(h)) == []
    ensures Conserved(RunFirstJob(h))
  {
    var first, rest := h.jobs[0], h.jobs[1..];
    assert h.jobs == [first] + rest;
    QueryIdsConcat([first], rest);
    QueryIdsSingle(first);
    ExecutedIdsStep(h.log, if first.Wake? then Granted(first.request) else Executed(first.query));
    AddAssociates(ExecutedIds(h.log), QueryId(first), QueryIds(rest));
  }

  lemma JobConserves(h: Handle, granted: nat)
    requires Inv(h, granted) && Conserved(h) && h.jobs != []
    ensures WellFormed(RunFirstJob(h)) && Conserved(RunFirstJob(h))
  {
    JobHoldsNothingBack(h, granted);
    JobSums(h);
  }

  lemma JobHoldsNothingBack(h: Handle, granted: nat)
    requires Inv(h, granted) && h.jobs != []
    ensures WellFormed(RunFirstJob(h)) && HeldBack(h) == [] && HeldBack(RunFirstJob(h)) == []
  {
    JobKeepsInv(h, granted);
    HeldBackIs(h, granted);
    assert !HasHolder(h, granted);
  }

  lemma WorkConserves(h: Handle, r: nat)
    requires WellFormed(h) && Conserved(h)
    ensures var next := h.(log := h.log + [Worked(r)]); WellFormed(next) && Conserved(next)
  {
    ExecutedIdsStep(h.log, Worked(r));
    assert HeldBack(h.(log := h.log + [Worked(r)])) == HeldBack(h);
  }

  lemma ActConserves(h: Handle, granted: nat, a: Action)
    requires Inv(h, granted) && Conserved(h) && Enabled(h, a)
    ensures WellFormed(Act(h, a)) && Conserved(Act(h, a))
  {
    match a
    case Request => RequestConserves(h, granted);
    case Query => QueryConserves(h, granted);
    case Work(r) => WorkConserves(h, r);
    case Release(r) => ReleaseConserves(h, granted, r);
    case RunJob => JobConserves(h, granted);
  }

  lemma {:induction false} RunConserves(actions: seq<Action>)
    requires Run(actions).Some?
    ensures WellFormed(Run(actions).value) && Conserved(Run(actions).value)
  {
    if actions != [] {
      RunConserves(actions[..|actions| - 1]);
      RunKeepsInv(actions[..|actions| - 1]);
      var h := Run(actions[..|actions| - 1]).value;
      var granted :| Inv(h, granted);
      ActConserves(h, granted, actions[|actions| - 1]);
    }
  }

  lemma AllHadTheirTurn(h: Handle, granted: nat)
    requires Shape(h, granted) && Queue(h, granted) && Agrees(h, granted) && h.jobs == []
    requires forall r | 0 <= r < |h.leases| :: !h.leases[r].Held?
    ensures granted == |h.leases| && h.activeTransaction == None && Replay(h.log) == Some(Turn(None, |h.leases|))
    ensures forall r | 0 <= r < |h.leases| :: h.leases[r].Done?
  {
    hide Replay;
    assert !HasHolder(h, granted);
    assert DueWake(h, granted) == [];
  }

  lemma NothingLeft(h: Handle)
    requires WellFormed(h) && Conserved(h) && h.jobs == [] && h.activeTransaction == None
    ensures ExecutedIds(h.log) == IdsBelow(h.issued)
  {
    assert QueryIds(h.jobs) == QueryIds(HeldBack(h)) == multiset{};
  }

  /** No wake-up is lost: once the job queue is empty and nobody holds the lease, every request has had its
      turn and every outside query has executed exactly once. */
  lemma NothingIsLost(actions: seq<Action>)
    requires Run(actions).Some? && Run(actions).value.jobs == []
    requires forall r | 0 <= r < |Run(actions).value.leases| :: !Run(actions).value.leases[r].Held?
    ensures var h := Run(actions).value;
            && (forall r | 0 <= r < |h.leases| :: h.leases[r].Done?)
            && Replay(h.log) == Some(Turn(None, |h.leases|))
            && ExecutedIds(h.log) == IdsBelow(h.issued)
  {
    var h := Run(actions).value;
    RunKeepsInv(actions);
    RunConserves(actions);
    var granted :| Inv(h, granted);
    AllHadTheirTurn(h, granted);
    NothingLeft(h);
  }

  // ---------------------------------------------------------------- runs come to rest

  /** A request that waits has two turns ahead of it, to get the lease and to give it back; a holder has one. */
  function TurnsAhead(lease: Lease): nat {
    match lease
    case Waiting(_) => 2
    case Held(_, _) => 1
    case Done(_, _) => 0
  }

  function TurnsLeft(leases: seq<Lease>): nat {
    if leases == [] then 0 else TurnsLeft(leases[..|leases| - 1]) + TurnsAhead(leases[|leases| - 1])
  }

  lemma {:induction false} TurnTaken(leases: seq<Lease>, r: nat, to: Lease)
    requires r < |leases|
    ensures TurnsLeft(leases[r := to]) == TurnsLeft(leases) - TurnsAhead(leases[r]) + TurnsAhead(to)
  {
    var n := |leases| - 1;
    if r < n {
      TurnTaken(leases[..n], r, to);
      assert leases[r := to][..n] == leases[..n][r := to];
    } else {
      assert leases[r := to][..n] == leases[..n];
    }
  }

  /** A job that is due, or the release of a lease that is held. */
  predicate IsTurn(h: Handle, a: Action) {
    a == RunJob || (a.Release? && a.request < |h.leases| && h.leases[a.request].Held?)
  }

  /** Whether a turn was taken, or else a job was done. */
  predicate Nearer(next: Handle, h: Handle) {
    TurnsLeft(next.leases) < TurnsLeft(h.leases)
    || (TurnsLeft(next.leases) == TurnsLeft(h.leases) && |next.jobs| < |h.jobs|)
  }

  lemma ReleaseIsNearer(h: Handle, granted: nat, r: nat)
    requires Inv(h, granted) && r < |h.leases| && h.leases[r].Held?
    ensures Nearer(ReleaseLease(h, r), h)
  {
    ReleaseEffect(h, granted, r);
    TurnTaken(h.leases, r, Done(h.leases[r].unlock, h.leases[r].active));
  }

  lemma JobIsNearer(h: Handle, granted: nat)
    requires Inv(h, granted) && h.jobs != []
    ensures Nearer(RunFirstJob(h), h)
  {
    var queries :| h.jobs == queries + DueWake(h, granted) && OnlyQueries(queries)
                   && (HasHolder(h, granted) ==> queries == []);
    if queries == [] {
      GrantShape(h, granted);
      TurnTaken(h.leases, granted, Held(h.leases[granted].unlock, |h.promises|));
    } else {
      assert h.jobs[0] == queries[0];
    }
  }

  /** Whatever happened so far, a lease may be asked for and a query issued at any time. */
  lemma AnyoneMayAct(actions: seq<Action>)
    requires Run(actions).Some?
    ensures Run(actions + [Request]).Some? && Run(actions + [Query]).Some?
  {
    RunKeepsInv(actions);
    RunMore(actions, Request);
    RunMore(actions, Query);
  }

  lemma RunMore(actions: seq<Action>, a: Action)
    requires Run(actions).Some?
    ensures WellFormed(Run(actions).value) && Enabled(Run(actions).value, a) ==>
              Run(actions + [a]) == Some(Act(Run(actions).value, a))
  {
    assert (actions + [a])[..|actions|] == actions;
  }

  /** Every due job and every release of a holder brings all requests nearer to their end, so that no schedule of jobs
      and releases goes on for ever. */
  lemma EveryTurnCounts(actions: seq<Action>, a: Action)
    requires Run(actions).Some? && IsTurn(Run(actions).value, a) && Run(actions + [a]).Some?
    ensures Nearer(Run(actions + [a]).value, Run(actions).value)
  {
    RunKeepsInv(actions);
    RunMore(actions, a);
    var h := Run(actions).value;
    assert (actions + [a])[..|actions|] == actions && (actions + [a])[|actions|] == a;
    var granted :| Inv(h, granted);
    hide Inv, Nearer, ReleaseLease, RunFirstJob;
    match a
    case RunJob => JobIsNearer(h, granted);
    case Release(r) => ReleaseIsNearer(h, granted, r);
  }

  /** No job is due and every lease was given back. */
  predicate AtRest(h: Handle) {
    h.jobs == [] && forall r | 0 <= r < |h.leases| :: h.leases[r].Done?
  }

  /** Unless it is at rest, there is a turn that a run can take. */
  lemma NextTurn(actions: seq<Action>) returns (a: Action)
    requires Run(actions).Some? && !AtRest(Run(actions).value)
    ensures a.RunJob? || a.Release?
    ensures Run(actions + [a]).Some? && Nearer(Run(actions + [a]).value, Run(actions).value)
  {
    var h := Run(actions).value;
    RunKeepsInv(actions);
    if h.jobs != [] {
      a := RunJob;
    } else {
      if forall r | 0 <= r < |h.leases| :: !h.leases[r].Held? { NothingIsLost(actions); }
      var r: nat :| r < |h.leases| && h.leases[r].Held?;
      a := Release(r);
    }
    RunMore(actions, a);
    EveryTurnCounts(actions, a);
  }

  ghost predicate LeadsToRest(actions: seq<Action>, more: seq<Action>) {
    && (forall k | 0 <= k < |more| :: more[k].RunJob? || more[k].Release?)
    && Run(actions + more).Some? && AtRest(Run(actions + more).value)
  }

  /** Nothing waits for ever: from wherever a run has come to, jobs and releases alone bring it to rest. */
  lemma {:induction false} RestIsReached(actions: seq<Action>)
    requires Run(actions).Some?
    ensures exists more :: LeadsToRest(actions, more)
    decreases TurnsLeft(Run(actions).value.leases), |Run(actions).value.jobs|
  {
    hide Run, TurnsLeft, AtRest;
    if AtRest(Run(actions).value) {
      assert actions + [] == actions;
      assert LeadsToRest(actions, []);
    } else {
      var a := NextTurn(actions);
      RestIsReached(actions + [a]);
      var rest :| LeadsToRest(actions + [a], rest);
      assert actions + [a] + rest == actions + ([a] + rest);
      assert LeadsToRest(actions, [a] + rest);
    }
  }
}
