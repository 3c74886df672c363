/** The resumable migration runner (lib/migrations/link-collation.js). */
module LinkCollation {
  // A loop over columns that persists its progress and may fail or be killed at any await.

  import opened Wrappers

  /** Where a run is killed while it works on a column. */
  datatype Stage = AtVerify | AtExecute | AtVerifyAfter | AtSleep

  /** What happens to a run while it works on one column. `lands` says whether an ALTER that is started takes
      effect in the database, also when its caller sees an error or dies meanwhile. */
  datatype Fate = Fate(verifyThrows: bool, executeThrows: bool, lands: bool, verifyAfterThrows: bool,
                       sleepThrows: bool, killed: Option<Stage>)

  const Smooth := Fate(false, false, true, false, false, None)

  /** `stopAfter` is None for Infinity; `diskShort` is a failed disk precheck. */
  datatype Config = Config(dryRun: bool, stopAfter: Option<nat>, continueOnError: bool, diskShort: bool)

  datatype Ending = Ended | Refused | Killed

  datatype Report = Report(applied: seq<string>, completedBefore: seq<string>, alreadyCanonical: seq<string>,
                           errors: seq<string>, plan: seq<string>, stoppedEarly: bool)

  predicate Distinct(keys: seq<string>) {
    forall i, j | 0 <= i < j < |keys| :: keys[i] != keys[j]
  }

  /** The database and the state store. `canonical` holds the columns whose collation is the target,
      `alters` the ALTERs that took effect, `completed` the persisted progress. */
  class World {
    var canonical: set<string>
    var alters: seq<string>
    var completed: seq<string>

    /** Persisted columns are canonical, and no column was altered twice. */
    ghost predicate Valid()
      reads this
    {
      && Distinct(completed) && Distinct(alters)
      && (forall k | k in completed :: k in canonical)
      && (forall k | k in alters :: k in canonical)
    }

    constructor (canonical: set<string>)
      ensures Valid() && this.canonical == canonical && alters == [] && completed == []
    {
      this.canonical, alters, completed := canonical, [], [];
    }

    /** The ALTER of a column that is not canonical yet. */
    method Alter(key: string, lands: bool)
      requires Valid() && key !in canonical
      modifies this`canonical, this`alters
      ensures Valid()
      ensures canonical == old(canonical) + (if lands then {key} else {})
      ensures alters == old(alters) + (if lands then [key] else [])
    {
      if lands {
        canonical, alters := canonical + {key}, alters + [key];
      }
    }

    /** `stateStore.save` with one more column. */
    method Complete(key: string)
      requires Valid() && key in canonical && key !in completed
      modifies this`completed
      ensures Valid() && completed == old(completed) + [key]
    {
      completed := completed + [key];
    }
  }

  // ---------------------------------------------------------------- a run without failures

  predicate Stop(stopAfter: Option<nat>, applied: nat) {
    stopAfter.Some? && applied >= stopAfter.value
  }

  /** The columns a run without failures alters, and those it adds to the completed list. */
  function Plan(keys: seq<string>, completed: seq<string>, canonical: set<string>,
                stopAfter: Option<nat>, applied: nat): (seq<string>, seq<string>)
  {
    if keys == [] then ([], [])
    else if keys[0] in completed then Plan(keys[1..], completed, canonical, stopAfter, applied)
    else if Stop(stopAfter, applied) then ([], [])
    else if keys[0] in canonical then
      var (alter, record) := Plan(keys[1..], completed, canonical, stopAfter, applied);
      (alter, [keys[0]] + record)
    else
      var (alter, record) := Plan(keys[1..], completed, canonical, stopAfter, applied + 1);
      ([keys[0]] + alter, [keys[0]] + record)
  }

  predicate AllSmooth(fates: seq<Fate>) {
    forall f | f in fates :: f == Smooth
  }

  // ---------------------------------------------------------------- what one column does to a run

  /** Go on with the next column, or leave the loop. */
  datatype Step = Continue | Break | Die

  /** The run gets as far as the ALTER of a column. */
  predicate Reaches(fate: Fate, canonical: bool) {
    fate.killed != Some(AtVerify) && !fate.verifyThrows && !canonical
  }

  /** The ALTER landed and the run saw that it did. */
  predicate Confirms(fate: Fate) {
    && fate.lands && fate.killed != Some(AtExecute) && !fate.executeThrows
    && fate.killed != Some(AtVerifyAfter) && !fate.verifyAfterThrows
  }

  predicate Dies(fate: Fate, canonical: bool) {
    || fate.killed == Some(AtVerify)
    || (Reaches(fate, canonical)
        && (fate.killed == Some(AtExecute) || (fate.killed == Some(AtVerifyAfter) && !fate.executeThrows)
            || (fate.killed == Some(AtSleep) && Confirms(fate))))
  }

  /** What can become of a column: it is added to the persisted list, having been canonical (Marking) or by an
      ALTER of this run (Applying); its ALTER takes effect, seen or unseen; it is reported as an error. */
  datatype Kind = Marking | Applying | Landing | Failing

  predicate Is(kind: Kind, fate: Fate, canonical: bool) {
    match kind
    case Marking => fate.killed != Some(AtVerify) && !fate.verifyThrows && canonical
    case Applying => Reaches(fate, canonical) && Confirms(fate)
    case Landing => Reaches(fate, canonical) && fate.lands
    case Failing =>
      !Dies(fate, canonical)
      && (fate.verifyThrows || (Reaches(fate, canonical) && (!Confirms(fate) || fate.sleepThrows)))
  }

  predicate Records(fate: Fate, canonical: bool) {
    Is(Marking, fate, canonical) || Is(Applying, fate, canonical)
  }

  function Only(b: bool, key: string): seq<string> {
    if b then [key] else []
  }

  /** One pass of the loop over a column that is neither completed nor beyond the stop. */
  method Migrate(world: World, key: string, fate: Fate, config: Config, report: Report)
    returns (next: Report, step: Step)
    requires world.Valid() && key !in world.completed
    modifies world
    ensures world.Valid()
    ensures var canonical := key in old(world.canonical);
            && world.completed == old(world.completed) + Only(Records(fate, canonical), key)
            && world.alters == old(world.alters) + Only(Is(Landing, fate, canonical), key)
            && world.canonical == old(world.canonical) + (if Is(Landing, fate, canonical) then {key} else {})
            && next.applied == report.applied + Only(Is(Applying, fate, canonical), key)
            && next.alreadyCanonical == report.alreadyCanonical + Only(Is(Marking, fate, canonical), key)
            && next.errors == report.errors + Only(Is(Failing, fate, canonical), key)
            && (step == Die <==> Dies(fate, canonical))
            && (step == Break <==> Is(Failing, fate, canonical) && !config.continueOnError)
            && next.stoppedEarly == (report.stoppedEarly || step == Break)
    ensures next.completedBefore == report.completedBefore && next.plan == report.plan
  {
    next, step := report, Continue;
    var failed := report.(errors := report.errors + [key],
                          stoppedEarly := report.stoppedEarly || !config.continueOnError);
    var leave := if config.continueOnError then Continue else Break;
    if fate.killed == Some(AtVerify) { return report, Die; }
    if fate.verifyThrows { return failed, leave; }
    if key in world.canonical {
      world.Complete(key);
      next := report.(alreadyCanonical := report.alreadyCanonical + [key]);
      return;
    }
    world.Alter(key, fate.lands);
    if fate.killed == Some(AtExecute) { return report, Die; }
    if fate.executeThrows { return failed, leave; }
    if fate.killed == Some(AtVerifyAfter) { return report, Die; }
    if fate.verifyAfterThrows { return failed, leave; }
    if key !in world.canonical { return failed, leave; }
    world.Complete(key);
    next := report.(applied := report.applied + [key]);
    if fate.killed == Some(AtSleep) { return next, Die; }
    if fate.sleepThrows {
      next := next.(errors := next.errors + [key], stoppedEarly := next.stoppedEarly || !config.continueOnError);
      step := leave;
    }
  }

  // ---------------------------------------------------------------- the course of a whole run

  /** A run that may touch the database, and what it found: the columns completed and canonical at its start. */
  datatype Course = Course(keys: seq<string>, fates: seq<Fate>, config: Config,
                           completed: seq<string>, canonical: set<string>)
  {
    predicate Fits() { |fates| == |keys| }

    predicate Canonical(i: nat)
      requires i < |keys|
    {
      keys[i] in canonical
    }
  }

  /** The run works on column `i`: it is not completed, no column before it ended the loop, and fewer than
      `stopAfter` columns were applied so far. */
  predicate Worked(c: Course, i: nat)
    requires c.Fits() && i < |c.keys|
    decreases i, 3
  {
    Reached(c, i) && c.keys[i] !in c.completed && !Stop(c.config.stopAfter, |Listed(c, Applying, i)|)
  }

  /** Column `i` ends the loop: `stopAfter` is used up, the run is killed there, or it fails there and errors are
      not to be survived. */
  predicate Leaves(c: Course, i: nat)
    requires c.Fits() && i < |c.keys|
    decreases i, 3
  {
    c.keys[i] !in c.completed
    && (|| Stop(c.config.stopAfter, |Listed(c, Applying, i)|)
        || Dies(c.fates[i], c.Canonical(i))
        || (Is(Failing, c.fates[i], c.Canonical(i)) && !c.config.continueOnError))
  }

  predicate Reached(c: Course, i: nat)
    requires c.Fits() && i <= |c.keys|
    decreases i, 1
  {
    forall j | 0 <= j < i :: !Leaves(c, j)
  }

  /** The columns worked on that come to this, among the first `n`, in manifest order. */
  function Listed(c: Course, kind: Kind, n: nat): seq<string>
    requires c.Fits() && n <= |c.keys|
    decreases n, 2
  {
    if n == 0 then []
    else Listed(c, kind, n - 1)
         + Only(Worked(c, n - 1) && Is(kind, c.fates[n - 1], c.Canonical(n - 1)), c.keys[n - 1])
  }

  /** Those added to the persisted list. */
  function Recorded(c: Course, n: nat): seq<string>
    requires c.Fits() && n <= |c.keys|
  {
    if n == 0 then []
    else Recorded(c, n - 1)
         + Only(Worked(c, n - 1) && Records(c.fates[n - 1], c.Canonical(n - 1)), c.keys[n - 1])
  }

  /** Those reported as completed before. */
  function Skipped(c: Course, n: nat): seq<string>
    requires c.Fits() && n <= |c.keys|
  {
    if n == 0 then []
    else Skipped(c, n - 1) + Only(Reached(c, n - 1) && c.keys[n - 1] in c.completed, c.keys[n - 1])
  }

  predicate IsKilled(c: Course)
    requires c.Fits()
  {
    exists i | 0 <= i < |c.keys| :: Worked(c, i) && Dies(c.fates[i], c.Canonical(i))
  }

  /** The loop is left while columns are unfinished, and the run lives to report it. */
  predicate IsStopped(c: Course)
    requires c.Fits()
  {
    exists i | 0 <= i < |c.keys| ::
      Reached(c, i) && Leaves(c, i) && !(Worked(c, i) && Dies(c.fates[i], c.Canonical(i)))
  }

  /** Nothing is worked on behind a column that ends the loop. */
  lemma {:induction false} NothingBehind(c: Course, i: nat, n: nat)
    requires c.Fits() && i < n <= |c.keys| && Leaves(c, i)
    ensures forall kind :: Listed(c, kind, n) == Listed(c, kind, i + 1)
    ensures Recorded(c, n) == Recorded(c, i + 1) && Skipped(c, n) == Skipped(c, i + 1)
    decreases n
  {
    if n > i + 1 {
      hide Leaves;
      NothingBehind(c, i, n - 1);
      assert !Reached(c, n - 1);
      assert !Worked(c, n - 1);
      hide Worked, Reached;
    }
  }

  /** At most one column is reached that ends the loop. */
  lemma LeavesOnce(c: Course, i: nat, j: nat)
    requires c.Fits() && i < |c.keys| && j < |c.keys|
    requires Reached(c, i) && Leaves(c, i) && Reached(c, j) && Leaves(c, j)
    ensures i == j
  {
    hide Leaves;
  }

  /** A column is altered, recorded or reported by a run exactly when the run works on it and its fate says so. */
  lemma {:induction false} ListedExactlyWhen(c: Course, kind: Kind, n: nat, i: nat)
    requires c.Fits() && Distinct(c.keys) && i < n <= |c.keys|
    ensures c.keys[i] in Listed(c, kind, n) <==> Worked(c, i) && Is(kind, c.fates[i], c.Canonical(i))
    ensures c.keys[i] in Recorded(c, n) <==> Worked(c, i) && Records(c.fates[i], c.Canonical(i))
    decreases n
  {
    hide Worked, Is, Records;
    if i < n - 1 {
      ListedExactlyWhen(c, kind, n - 1, i);
    } else {
      ListedAreEarlier(c, kind, n - 1);
    }
  }

  lemma {:induction false} ListedAreEarlier(c: Course, kind: Kind, n: nat)
    requires c.Fits() && n <= |c.keys|
    ensures forall k | k in Listed(c, kind, n) || k in Recorded(c, n) :: k in c.keys[..n]
  {
    if n > 0 {
      hide Worked, Is, Records;
      ListedAreEarlier(c, kind, n - 1);
      assert c.keys[..n] == c.keys[..n - 1] + [c.keys[n - 1]];
    }
  }

  lemma SmoothStep(c: Course, i: nat)
    requires c.Fits() && i < |c.keys| && c.fates[i] == Smooth && Reached(c, i)
    ensures var key, stop := c.keys[i], Stop(c.config.stopAfter, |Listed(c, Applying, i)|);
            var works := key !in c.completed && !stop;
            && Listed(c, Applying, i + 1) == Listed(c, Applying, i) + Only(works && key !in c.canonical, key)
            && Recorded(c, i + 1) == Recorded(c, i) + Only(works, key)
            && (Leaves(c, i) <==> key !in c.completed && stop)
  {
  }

  /** Without failures the lists are those of the plan. */
  lemma {:induction false} SmoothCourse(c: Course, i: nat)
    requires c.Fits() && i <= |c.keys| && AllSmooth(c.fates) && Reached(c, i)
    ensures var applied := Listed(c, Applying, i);
            var plan := Plan(c.keys[i..], c.completed, c.canonical, c.config.stopAfter, |applied|);
            && Listed(c, Applying, |c.keys|) == applied + plan.0
            && Recorded(c, |c.keys|) == Recorded(c, i) + plan.1
    decreases |c.keys| - i
  {
    if i < |c.keys| {
      hide Listed, Recorded, Leaves, Worked;
      assert c.fates[i] in c.fates;
      SmoothStep(c, i);
      assert c.keys[i..][0] == c.keys[i] && c.keys[i..][1..] == c.keys[i + 1..];
      if Leaves(c, i) {
        NothingBehind(c, i, |c.keys|);
      } else {
        assert Reached(c, i + 1);
        SmoothCourse(c, i + 1);
        hide Reached;
        PlanAppends(Listed(c, Applying, i), Recorded(c, i), c, i);
      }
    }
  }

  /** One step of the plan, behind what was listed already. */
  lemma PlanAppends(applied: seq<string>, record: seq<string>, c: Course, i: nat)
    requires i < |c.keys| && !(c.keys[i] !in c.completed && Stop(c.config.stopAfter, |applied|))
    ensures var key := c.keys[i];
            var works := key !in c.completed;
            var more := applied + Only(works && key !in c.canonical, key);
            var plan := Plan(c.keys[i..], c.completed, c.canonical, c.config.stopAfter, |applied|);
            var rest := Plan(c.keys[i + 1..], c.completed, c.canonical, c.config.stopAfter, |more|);
            && applied + plan.0 == more + rest.0 && record + plan.1 == record + Only(works, key) + rest.1
  {
    assert c.keys[i..][0] == c.keys[i] && c.keys[i..][1..] == c.keys[i + 1..];
  }

  /** So is what becomes of the columns: each ALTER lands and nothing fails or dies. */
  lemma {:induction false} SmoothLists(c: Course, n: nat)
    requires c.Fits() && n <= |c.keys| && AllSmooth(c.fates)
    ensures Listed(c, Landing, n) == Listed(c, Applying, n) && Listed(c, Failing, n) == []
    ensures !IsKilled(c)
  {
    forall i | 0 <= i < |c.keys| ensures c.fates[i] == Smooth { assert c.fates[i] in c.fates; }
    hide Worked;
    if n > 0 { SmoothLists(c, n - 1); }
  }

  const NewReport := Report([], [], [], [], [], false)

  /** The state of the world as values. */
  datatype State = State(canonical: set<string>, alters: seq<string>, completed: seq<string>)

  function StateOf(world: World): State
    reads world
  {
    State(world.canonical, world.alters, world.completed)
  }

  /** Progress made on the given columns: columns became canonical by ALTERs of their own, and the completed list
      only grew. */
  ghost predicate Progress(before: State, after: State, keys: seq<string>) {
    && before.completed <= after.completed && before.alters <= after.alters
    && after.canonical == before.canonical + (set k | k in after.alters[|before.alters|..])
    && (forall k | k in after.completed[|before.completed|..] :: k in keys)
    && (forall k | k in after.alters[|before.alters|..] :: k in keys)
  }

  /** A run in full: what it did to the columns, and what it reports. */
  ghost predicate Follows(c: Course, before: State, after: State, report: Report, ending: Ending)
    requires c.Fits()
  {
    var n := |c.keys|;
    && after.completed == before.completed + Recorded(c, n)
    && after.alters == before.alters + Listed(c, Landing, n)
    && after.canonical == before.canonical + (set k | k in Listed(c, Landing, n))
    && report.applied == Listed(c, Applying, n) && report.alreadyCanonical == Listed(c, Marking, n)
    && report.errors == Listed(c, Failing, n) && report.completedBefore == Skipped(c, n)
    && ending == (if IsKilled(c) then Killed else Ended)
    && report.stoppedEarly == IsStopped(c) && report.plan == []
  }

  /** So far: the first `i` columns, none of which ended the loop. */
  ghost predicate FollowsSoFar(c: Course, before: State, now: State, report: Report, i: nat)
    requires c.Fits() && i <= |c.keys|
  {
    && now.completed == before.completed + Recorded(c, i)
    && now.alters == before.alters + Listed(c, Landing, i)
    && now.canonical == before.canonical + (set k | k in Listed(c, Landing, i))
    && report.applied == Listed(c, Applying, i) && report.alreadyCanonical == Listed(c, Marking, i)
    && report.errors == Listed(c, Failing, i) && report.completedBefore == Skipped(c, i)
    && report.plan == []
  }

  lemma Appended(base: seq<string>, more: seq<string>, one: seq<string>, all: seq<string>)
    requires all == base + more
    ensures all + one == base + (more + one)
    ensures (set k | k in more + one) == (set k | k in more) + (set k | k in one)
  {
  }

  /** A column that is worked on is accounted for by what Migrate did. */
  lemma WorkedFollows(c: Course, before: State, now: State, after: State, report: Report, next: Report, i: nat)
    requires c.Fits() && i < |c.keys| && Worked(c, i) && FollowsSoFar(c, before, now, report, i)
    requires after.completed == now.completed + Only(Records(c.fates[i], c.Canonical(i)), c.keys[i])
    requires after.alters == now.alters + Only(Is(Landing, c.fates[i], c.Canonical(i)), c.keys[i])
    requires after.canonical == now.canonical
                                + (if Is(Landing, c.fates[i], c.Canonical(i)) then {c.keys[i]} else {})
    requires next.applied == report.applied + Only(Is(Applying, c.fates[i], c.Canonical(i)), c.keys[i])
    requires next.alreadyCanonical
             == report.alreadyCanonical + Only(Is(Marking, c.fates[i], c.Canonical(i)), c.keys[i])
    requires next.errors == report.errors + Only(Is(Failing, c.fates[i], c.Canonical(i)), c.keys[i])
    requires next.completedBefore == report.completedBefore && next.plan == report.plan
    ensures FollowsSoFar(c, before, after, next, i + 1)
  {
    assert c.keys[i] !in c.completed;
    hide Worked, Reached, Is, Records;
    Appended(before.completed, Recorded(c, i), Only(Records(c.fates[i], c.Canonical(i)), c.keys[i]), now.completed);
    Appended(before.alters, Listed(c, Landing, i), Only(Is(Landing, c.fates[i], c.Canonical(i)), c.keys[i]),
             now.alters);
  }

  /** A column that is not worked on leaves everything but the list of skipped ones as it was. */
  lemma IdleFollows(c: Course, before: State, now: State, report: Report, next: Report, i: nat)
    requires c.Fits() && i < |c.keys| && !Worked(c, i) && FollowsSoFar(c, before, now, report, i)
    requires next.(completedBefore := [], stoppedEarly := false)
             == report.(completedBefore := [], stoppedEarly := false)
    requires next.completedBefore
             == report.completedBefore + Only(Reached(c, i) && c.keys[i] in c.completed, c.keys[i])
    ensures FollowsSoFar(c, before, now, next, i + 1)
  {
    hide Worked, Reached, Is, Records;
  }

  /** The loop is left at column `i`. */
  lemma LeftAt(c: Course, before: State, after: State, report: Report, ending: Ending, i: nat)
    requires c.Fits() && i < |c.keys| && Reached(c, i) && Leaves(c, i)
    requires FollowsSoFar(c, before, after, report, i + 1)
    requires (ending == Killed || ending == Ended) && report.stoppedEarly == (ending == Ended)
    requires ending == Killed <==> Worked(c, i) && Dies(c.fates[i], c.Canonical(i))
    ensures Follows(c, before, after, report, ending)
  {
    NothingBehind(c, i, |c.keys|);
    forall j | 0 <= j < |c.keys| && Worked(c, j) && Dies(c.fates[j], c.Canonical(j)) ensures j == i {
      LeavesOnce(c, i, j);
    }
    forall j | 0 <= j < |c.keys| && Reached(c, j) && Leaves(c, j) ensures j == i { LeavesOnce(c, i, j); }
    hide Worked, Reached, Leaves, Dies;
  }

  /** The loop comes to its end. */
  lemma NeverLeft(c: Course, before: State, after: State, report: Report)
    requires c.Fits() && Reached(c, |c.keys|) && FollowsSoFar(c, before, after, report, |c.keys|)
    requires !report.stoppedEarly
    ensures Follows(c, before, after, report, Ended)
  {
    forall j | 0 <= j < |c.keys| ensures !(Worked(c, j) && Dies(c.fates[j], c.Canonical(j))) && !Leaves(c, j) {
      assert !Leaves(c, j);
    }
  }

  lemma FollowsLists(c: Course, before: State, after: State, report: Report, ending: Ending)
    requires c.Fits() && Follows(c, before, after, report, ending)
    ensures var n := |c.keys|;
            && after.completed == before.completed + Recorded(c, n)
            && after.alters == before.alters + Listed(c, Landing, n)
            && report.applied == Listed(c, Applying, n) && report.errors == Listed(c, Failing, n)
            && (ending == Ended <==> !IsKilled(c))
  {
    hide Recorded, Listed, Skipped, IsKilled, IsStopped;
  }

  /** From the start the lists of a run without failures are those of its plan. */
  lemma SmoothFromStart(c: Course)
    requires c.Fits() && AllSmooth(c.fates)
    ensures var plan := Plan(c.keys, c.completed, c.canonical, c.config.stopAfter, 0);
            Listed(c, Applying, |c.keys|) == plan.0 && Recorded(c, |c.keys|) == plan.1
  {
    hide Plan, AllSmooth, Leaves;
    SmoothCourse(c, 0);
    assert c.keys[0..] == c.keys;
    assert Listed(c, Applying, 0) == [] && Recorded(c, 0) == [];
  }

  /** A run without failures follows its plan. */
  lemma SmoothFollows(c: Course, before: State, after: State, report: Report, ending: Ending)
    requires c.Fits() && AllSmooth(c.fates) && Follows(c, before, after, report, ending)
    ensures var plan := Plan(c.keys, c.completed, c.canonical, c.config.stopAfter, 0);
            && ending == Ended && report.errors == [] && report.applied == plan.0
            && after.alters == before.alters + plan.0 && after.completed == before.completed + plan.1
  {
    hide Follows, Plan, IsKilled, AllSmooth, Listed, Recorded;
    FollowsLists(c, before, after, report, ending);
    SmoothLists(c, |c.keys|);
    SmoothFromStart(c);
  }

  /** The columns a dry run reports: those still to do, or those completed. */
  function Sift(keys: seq<string>, completed: seq<string>, done: bool): seq<string> {
    if keys == [] then []
    else
      var last := keys[|keys| - 1];
      Sift(keys[..|keys| - 1], completed, done) + Only((last in completed) == done, last)
  }

  function DryReport(keys: seq<string>, completed: seq<string>): Report {
    NewReport.(plan := Sift(keys, completed, false), completedBefore := Sift(keys, completed, true))
  }

  lemma SiftStep(keys: seq<string>, completed: seq<string>, i: nat)
    requires i < |keys|
    ensures forall done :: Sift(keys[..i + 1], completed, done)
                           == Sift(keys[..i], completed, done) + Only((keys[i] in completed) == done, keys[i])
  {
    assert keys[..i + 1][..i] == keys[..i];
  }

  // ---------------------------------------------------------------- one column of a run, by what happened to it

  /** How many of the keys are in the list. */
  function Among(keys: seq<string>, list: seq<string>): nat {
    if keys == [] then 0 else Among(keys[..|keys| - 1], list) + if keys[|keys| - 1] in list then 1 else 0
  }

  /** The run comes to column `i`: it is not completed, fewer than `stopAfter` of the columns before it were applied,
      and at none of these that is not completed was the run killed or, unless errors are survived, did anything
      fail: no verification, ALTER or sleep threw, and an ALTER landed. */
  predicate Comes(c: Course, applied: seq<string>, i: nat)
    requires c.Fits() && i < |c.keys|
  {
    && c.keys[i] !in c.completed
    && (c.config.stopAfter.Some? ==> Among(c.keys[..i], applied) < c.config.stopAfter.value)
    && forall j | 0 <= j < i && c.keys[j] !in c.completed ::
         var fate := c.fates[j];
         && fate.killed.None?
         && (c.config.continueOnError
             || (!fate.verifyThrows
                 && (c.keys[j] in c.canonical
                     || (!fate.executeThrows && fate.lands && !fate.verifyAfterThrows && !fate.sleepThrows))))
  }

  /** What is found of column `i` behind a run: whether it was altered, added to the persisted list, reported as
      applied, as canonical before or as an error, and whether the run was killed. */
  predicate Found(c: Course, before: State, after: State, report: Report, ending: Ending, i: nat,
                  altered: bool, recorded: bool, applied: bool, marked: bool, failed: bool, killed: bool)
    requires i < |c.keys| && before.alters <= after.alters && before.completed <= after.completed
  {
    var key := c.keys[i];
    && (altered <==> key in after.alters[|before.alters|..])
    && (recorded <==> key in after.completed[|before.completed|..])
    && (applied <==> key in report.applied) && (marked <==> key in report.alreadyCanonical)
    && (failed <==> key in report.errors) && (killed ==> ending == Killed)
  }

  /** Nothing was done to the columns behind column `i`. */
  predicate NothingBehindIt(c: Course, before: State, after: State, report: Report, i: nat)
    requires before.alters <= after.alters && before.completed <= after.completed
  {
    forall j | i < j < |c.keys| ::
      && c.keys[j] !in after.alters[|before.alters|..] && c.keys[j] !in after.completed[|before.completed|..]
      && c.keys[j] !in report.errors
  }

  /** A column the run comes to, step by step: verification, ALTER, second verification, sleep. A step that throws, or
      an ALTER that did not land, is reported, and ends the run early unless errors are survived; a kill ends it at
      once. Nothing is recorded but a canonical column. */
  ghost predicate StepByStep(c: Course, before: State, after: State, report: Report, ending: Ending, i: nat)
    requires c.Fits() && i < |c.keys| && before.alters <= after.alters && before.completed <= after.completed
  {
    var fate := c.fates[i];
    var fails := (altered: bool, recorded: bool) =>
      && Found(c, before, after, report, ending, i, altered, recorded, recorded, false, true, false)
      && (!c.config.continueOnError ==>
            report.stoppedEarly && ending == Ended && NothingBehindIt(c, before, after, report, i));
    var dies := (altered: bool, recorded: bool) =>
      && Found(c, before, after, report, ending, i, altered, recorded, recorded, false, false, true)
      && !report.stoppedEarly && NothingBehindIt(c, before, after, report, i);
    if fate.killed == Some(AtVerify) then dies(false, false)
    else if fate.verifyThrows then fails(false, false)
    else if c.keys[i] in c.canonical then
      Found(c, before, after, report, ending, i, false, true, false, true, false, false)
    else if fate.killed == Some(AtExecute) then dies(fate.lands, false)
    else if fate.executeThrows then fails(fate.lands, false)
    else if fate.killed == Some(AtVerifyAfter) then dies(fate.lands, false)
    else if fate.verifyAfterThrows || !fate.lands then fails(fate.lands, false)
    else if fate.killed == Some(AtSleep) then dies(true, true)
    else if fate.sleepThrows then fails(true, true)
    else Found(c, before, after, report, ending, i, true, true, true, false, false, false)
  }

  lemma {:induction false} AmongApplied(c: Course, i: nat)
    requires c.Fits() && Distinct(c.keys) && i <= |c.keys|
    ensures Among(c.keys[..i], Listed(c, Applying, |c.keys|)) == |Listed(c, Applying, i)|
  {
    if i > 0 {
      hide Worked, Is;
      AmongApplied(c, i - 1);
      assert c.keys[..i][..i - 1] == c.keys[..i - 1];
      ListedExactlyWhen(c, Applying, |c.keys|, i - 1);
    }
  }

  lemma {:induction false} AmongGrows(keys: seq<string>, list: seq<string>, j: nat)
    requires j <= |keys|
    ensures Among(keys[..j], list) <= Among(keys, list)
  {
    if j < |keys| {
      AmongGrows(keys[..|keys| - 1], list, j);
      assert keys[..|keys| - 1][..j] == keys[..j];
    } else {
      assert keys[..j] == keys;
    }
  }

  lemma ComesIsWorked(c: Course, i: nat)
    requires c.Fits() && Distinct(c.keys) && i < |c.keys| && Comes(c, Listed(c, Applying, |c.keys|), i)
    ensures Worked(c, i)
  {
    hide Listed, Among;
    AmongApplied(c, i);
    assert c.keys[i] !in c.completed && !Stop(c.config.stopAfter, |Listed(c, Applying, i)|);
    forall j | 0 <= j < i ensures !Leaves(c, j) {
      AmongApplied(c, j);
      AmongGrows(c.keys[..i], Listed(c, Applying, |c.keys|), j);
      assert c.keys[..i][..j] == c.keys[..j];
    }
    hide Leaves, Comes;
    assert Reached(c, i);
  }

  lemma FoundIs(c: Course, before: State, after: State, report: Report, ending: Ending, i: nat)
    requires c.Fits() && Distinct(c.keys) && i < |c.keys| && Worked(c, i)
    requires Follows(c, before, after, report, ending)
    ensures var fate, canonical := c.fates[i], c.Canonical(i);
            Found(c, before, after, report, ending, i, Is(Landing, fate, canonical), Records(fate, canonical),
                  Is(Applying, fate, canonical), Is(Marking, fate, canonical), Is(Failing, fate, canonical),
                  Dies(fate, canonical))
  {
    hide Worked, Is, Records, Dies, Listed, Recorded, Skipped, IsStopped;
    ListedExactlyWhen(c, Landing, |c.keys|, i);
    ListedExactlyWhen(c, Applying, |c.keys|, i);
    ListedExactlyWhen(c, Marking, |c.keys|, i);
    ListedExactlyWhen(c, Failing, |c.keys|, i);
    assert after.alters[|before.alters|..] == Listed(c, Landing, |c.keys|);
    assert after.completed[|before.completed|..] == Recorded(c, |c.keys|);
  }

  /** Behind a column that ends the loop nothing is done. */
  lemma EndIs(c: Course, before: State, after: State, report: Report, ending: Ending, i: nat)
    requires c.Fits() && Distinct(c.keys) && i < |c.keys| && Worked(c, i) && Leaves(c, i)
    requires Follows(c, before, after, report, ending)
    ensures NothingBehindIt(c, before, after, report, i)
    ensures if Dies(c.fates[i], c.Canonical(i)) then ending == Killed && !report.stoppedEarly
            else ending == Ended && report.stoppedEarly
  {
    forall j | i < j < |c.keys| ensures !Worked(c, j) {}
    forall j | 0 <= j < |c.keys| && Reached(c, j) && Leaves(c, j) ensures j == i { LeavesOnce(c, i, j); }
    hide Is, Records, Listed, Recorded, Skipped;
    DyingLeaves(c);
    hide Worked, Reached, Leaves, Dies;
    forall j | i < j < |c.keys|
      ensures c.keys[j] !in after.alters[|before.alters|..] && c.keys[j] !in after.completed[|before.completed|..]
      ensures c.keys[j] !in report.errors
    {
      ListedExactlyWhen(c, Landing, |c.keys|, j);
      ListedExactlyWhen(c, Failing, |c.keys|, j);
      assert after.alters[|before.alters|..] == Listed(c, Landing, |c.keys|);
      assert after.completed[|before.completed|..] == Recorded(c, |c.keys|);
    }
  }

  lemma DyingLeaves(c: Course)
    requires c.Fits()
    ensures forall j | 0 <= j < |c.keys| && Worked(c, j) && Dies(c.fates[j], c.Canonical(j)) ::
              Reached(c, j) && Leaves(c, j)
  {
  }

  lemma ComesAndGoes(c: Course, before: State, after: State, report: Report, ending: Ending, i: nat)
    requires c.Fits() && Distinct(c.keys) && i < |c.keys| && Follows(c, before, after, report, ending)
    requires Comes(c, report.applied, i)
    ensures before.alters <= after.alters && before.completed <= after.completed
    ensures StepByStep(c, before, after, report, ending, i)
  {
    hide Listed, Recorded, Comes, Skipped, IsStopped, IsKilled;
    ComesIsWorked(c, i);
    FoundIs(c, before, after, report, ending, i);
    if Leaves(c, i) { EndIs(c, before, after, report, ending, i); }
    hide Follows, Found, NothingBehindIt;
  }

  /** One run. The store and the database stay in order whatever fails and wherever the run is killed; a dry run
      or one without disk space touches nothing. Which columns are altered, recorded and reported, and how the run
      ends, is for any failures what its course says, and without failures its plan, in manifest order. */
  method RunLinkCollationMigration(world: World, keys: seq<string>, config: Config, fates: seq<Fate>)
    returns (report: Report, ending: Ending)
    requires world.Valid() && Distinct(keys) && |fates| == |keys|
    modifies world
    ensures world.Valid() && Progress(old(StateOf(world)), StateOf(world), keys)
    ensures config.diskShort ==> StateOf(world) == old(StateOf(world)) && ending == Refused
    ensures config.dryRun && !config.diskShort ==>
              && StateOf(world) == old(StateOf(world)) && ending == Ended
              && report == DryReport(keys, world.completed)
    ensures !config.dryRun && !config.diskShort ==>
              Follows(Course(keys, fates, config, old(world.completed), old(world.canonical)),
                      old(StateOf(world)), StateOf(world), report, ending)
    ensures !config.dryRun && !config.diskShort ==>
              var c := Course(keys, fates, config, old(world.completed), old(world.canonical));
              forall i | 0 <= i < |keys| && Comes(c, report.applied, i) ::
                StepByStep(c, old(StateOf(world)), StateOf(world), report, ending, i)
    ensures config.stopAfter.Some? ==> |report.applied| <= config.stopAfter.value
    ensures !config.dryRun && !config.diskShort && AllSmooth(fates) ==>
              var plan := Plan(keys, old(world.completed), old(world.canonical), config.stopAfter, 0);
              && ending == Ended && report.errors == []
              && world.alters == old(world.alters) + plan.0 && report.applied == plan.0
              && world.completed == old(world.completed) + plan.1
  {
    ghost var before := StateOf(world);
    ghost var c := Course(keys, fates, config, before.completed, before.canonical);
    if config.diskShort {
      NoProgress(before, keys);
      return NewReport, Refused;
    }
    report, ending := RunColumns(world, keys, config, fates);
    if config.dryRun {
      NoProgress(before, keys);
    } else {
      FollowsIsProgress(c, before, StateOf(world), report, ending);
      if AllSmooth(fates) { SmoothFollows(c, before, StateOf(world), report, ending); }
      AppliedWithinStop(c, |keys|);
      forall i | 0 <= i < |keys| && Comes(c, report.applied, i)
        ensures StepByStep(c, before, StateOf(world), report, ending, i)
      {
        ComesAndGoes(c, before, StateOf(world), report, ending, i);
      }
    }
  }

  /** The loop over the manifest. */
  method RunColumns(world: World, keys: seq<string>, config: Config, fates: seq<Fate>)
    returns (report: Report, ending: Ending)
    requires world.Valid() && Distinct(keys) && |fates| == |keys|
    modifies world
    ensures world.Valid()
    ensures config.dryRun ==>
              && StateOf(world) == old(StateOf(world)) && ending == Ended
              && report == DryReport(keys, world.completed)
    ensures !config.dryRun ==>
              Follows(Course(keys, fates, config, old(world.completed), old(world.canonical)),
                      old(StateOf(world)), StateOf(world), report, ending)
  {
    hide Follows, FollowsSoFar, Is, Records, Dies, Listed, Recorded, Skipped, Sift;
    ghost var before := StateOf(world);
    ghost var c := Course(keys, fates, config, before.completed, before.canonical);
    report, ending := NewReport, Ended;
    var i := 0;
    NothingYet(c, before);
    while i < |keys|
      invariant i <= |keys| && world.Valid()
      invariant config.dryRun ==> StateOf(world) == before && report == DryReport(keys[..i], world.completed)
      invariant !config.dryRun ==>
                  Reached(c, i) && !report.stoppedEarly && FollowsSoFar(c, before, StateOf(world), report, i)
    {
      var key := keys[i];
      ghost var now, sofar := StateOf(world), report;
      SiftStep(keys, world.completed, i);
      if !config.dryRun { NotYet(c, before, now, report, i); }
      if key in world.completed {
        report := report.(completedBefore := report.completedBefore + [key]);
        if !config.dryRun { IdleFollows(c, before, now, sofar, report, i); }
      } else if config.dryRun {
        report := report.(plan := report.plan + [key]);
      } else if Stop(config.stopAfter, |report.applied|) {
        report := report.(stoppedEarly := true);
        IdleFollows(c, before, now, sofar, report, i);
        LeftAt(c, before, now, report, Ended, i);
        return;
      } else {
        var step;
        report, step := Migrate(world, key, fates[i], config, report);
        WorkedFollows(c, before, now, StateOf(world), sofar, report, i);
        if step != Continue {
          ending := if step == Die then Killed else Ended;
          LeftAt(c, before, StateOf(world), report, ending, i);
          return;
        }
      }
      i := i + 1;
    }
    if config.dryRun {
      assert keys[..|keys|] == keys;
    } else {
      NeverLeft(c, before, StateOf(world), report);
    }
  }

  lemma NothingYet(c: Course, before: State)
    requires c.Fits()
    ensures FollowsSoFar(c, before, before, NewReport, 0) && Reached(c, 0)
    ensures NewReport == DryReport(c.keys[..0], before.completed)
  {
    assert before.completed + [] == before.completed && before.alters + [] == before.alters;
  }

  lemma NoProgress(before: State, keys: seq<string>)
    ensures Progress(before, before, keys)
  {
  }

  lemma FollowsIsProgress(c: Course, before: State, after: State, report: Report, ending: Ending)
    requires c.Fits() && Follows(c, before, after, report, ending)
    ensures Progress(before, after, c.keys)
  {
    ListedAreEarlier(c, Landing, |c.keys|);
    assert c.keys[..|c.keys|] == c.keys;
    assert after.alters[|before.alters|..] == Listed(c, Landing, |c.keys|);
    assert after.completed[|before.completed|..] == Recorded(c, |c.keys|);
  }

  /** A run applies at most `stopAfter` columns. */
  lemma {:induction false} AppliedWithinStop(c: Course, n: nat)
    requires c.Fits() && n <= |c.keys|
    ensures c.config.stopAfter.Some? ==> |Listed(c, Applying, n)| <= c.config.stopAfter.value
  {
    if n > 0 { AppliedWithinStop(c, n - 1); }
  }

  /** A column the loop has not reached is completed, or canonical, only if it was so before. */
  lemma NotYet(c: Course, before: State, now: State, report: Report, i: nat)
    requires c.Fits() && i < |c.keys| && Distinct(c.keys) && FollowsSoFar(c, before, now, report, i)
    requires c.completed == before.completed && c.canonical == before.canonical
    ensures c.keys[i] in now.completed <==> c.keys[i] in before.completed
    ensures c.keys[i] in now.canonical <==> c.keys[i] in before.canonical
    ensures report.applied == Listed(c, Applying, i)
  {
    ListedAreEarlier(c, Landing, i);
    assert c.keys[i] !in c.keys[..i];
  }

  // ---------------------------------------------------------------- any number of runs

  /** Runs one after the other, each with its own configuration and its own failures, stops and kills: persisted
      columns are canonical and no column is ever altered twice, over the whole history. */
  method RunHistory(world: World, keys: seq<string>, runs: seq<(Config, seq<Fate>)>)
    requires world.Valid() && Distinct(keys)
    requires forall r | r in runs :: |r.1| == |keys|
    modifies world
    ensures world.Valid() && Progress(old(StateOf(world)), StateOf(world), keys)
  {
    ghost var before := StateOf(world);
    for i := 0 to |runs|
      invariant world.Valid() && Progress(before, StateOf(world), keys)
    {
      ghost var now := StateOf(world);
      assert runs[i] in runs;
      var report, ending := RunLinkCollationMigration(world, keys, runs[i].0, runs[i].1);
      ProgressChains(before, now, StateOf(world), keys);
    }
  }

  lemma ProgressChains(a: State, b: State, c: State, keys: seq<string>)
    requires Progress(a, b, keys) && Progress(b, c, keys)
    ensures Progress(a, c, keys)
  {
    assert c.alters[|a.alters|..] == b.alters[|a.alters|..] + c.alters[|b.alters|..];
    assert c.completed[|a.completed|..] == b.completed[|a.completed|..] + c.completed[|b.completed|..];
  }

  /** How many columns are not completed yet. */
  function Unfinished(keys: seq<string>, completed: seq<string>): nat {
    if keys == [] then 0 else (if keys[0] in completed then 0 else 1) + Unfinished(keys[1..], completed)
  }

  function Min(a: nat, b: nat): nat { if a < b then a else b }

  /** The columns a run records are exactly as many as it finishes, and at least as many as it may alter. */
  lemma {:induction false} PlanFinishes(keys: seq<string>, completed: seq<string>, canonical: set<string>,
                                        k: nat, applied: nat)
    requires Distinct(keys) && applied <= k
    ensures var record := Plan(keys, completed, canonical, Some(k), applied).1;
            && (forall x | x in record :: x in keys)
            && |record| >= Min(Unfinished(keys, completed), k - applied)
            && Unfinished(keys, completed + record) == Unfinished(keys, completed) - |record|
  {
    if keys == [] || (keys[0] !in completed && applied == k) {
      assert completed + [] == completed;
    } else if keys[0] in completed {
      PlanFinishes(keys[1..], completed, canonical, k, applied);
    } else {
      var next := if keys[0] in canonical then applied else applied + 1;
      PlanFinishes(keys[1..], completed, canonical, k, next);
      var rest := Plan(keys[1..], completed, canonical, Some(k), next).1;
      OneMore(keys, completed, rest);
    }
  }

  /** Recording the first column besides the rest. */
  lemma OneMore(keys: seq<string>, completed: seq<string>, rest: seq<string>)
    requires keys != [] && Distinct(keys) && keys[0] !in completed
    ensures Unfinished(keys, completed + ([keys[0]] + rest)) == Unfinished(keys[1..], completed + rest)
  {
    var all := completed + ([keys[0]] + rest);
    assert keys[0] in all;
    SameMembers(keys[1..], all, completed + rest, keys[0]);
  }

  lemma {:induction false} SameMembers(keys: seq<string>, a: seq<string>, b: seq<string>, but: string)
    requires but !in keys && forall k | k != but :: k in a <==> k in b
    ensures Unfinished(keys, a) == Unfinished(keys, b)
  {
    if keys != [] {
      assert keys[0] in keys;
      SameMembers(keys[1..], a, b, but);
    }
  }

  /** The state after a run without failures: see RunLinkCollationMigration. */
  function AfterRun(s: State, keys: seq<string>, k: nat): State {
    var (alter, record) := Plan(keys, s.completed, s.canonical, Some(k), 0);
    State(s.canonical + (set x | x in alter), s.alters + alter, s.completed + record)
  }

  function AfterRuns(s: State, keys: seq<string>, k: nat, runs: nat): State {
    if runs == 0 then s else AfterRun(AfterRuns(s, keys, k, runs - 1), keys, k)
  }

  lemma {:induction false} RunsFinish(s: State, keys: seq<string>, k: nat, runs: nat)
    requires Distinct(keys)
    ensures var left := Unfinished(keys, AfterRuns(s, keys, k, runs).completed);
            left == 0 || left + runs * k <= Unfinished(keys, s.completed)
  {
    if runs > 0 {
      RunsFinish(s, keys, k, runs - 1);
      var before := AfterRuns(s, keys, k, runs - 1);
      PlanFinishes(keys, before.completed, before.canonical, k, 0);
      assert runs * k == (runs - 1) * k + k;
    }
  }

  lemma {:induction false} UnfinishedBound(keys: seq<string>, completed: seq<string>)
    ensures Unfinished(keys, completed) <= |keys|
    ensures Unfinished(keys, completed) == 0 ==> forall k | k in keys :: k in completed
  {
    if keys != [] { UnfinishedBound(keys[1..], completed); }
  }

  /** With `stopAfter` k >= 1 and no failures, n columns are all completed within ceil(n / k) runs. */
  lemma FinishesInTime(s: State, keys: seq<string>, k: nat, runs: nat)
    requires Distinct(keys) && k >= 1 && runs * k >= |keys|
    ensures forall x | x in keys :: x in AfterRuns(s, keys, k, runs).completed
  {
    RunsFinish(s, keys, k, runs);
    UnfinishedBound(keys, s.completed);
    UnfinishedBound(keys, AfterRuns(s, keys, k, runs).completed);
  }

  /** Repeating a run that meets no failure until enough runs were made leaves every column completed. */
  method RunRepeatedly(world: World, keys: seq<string>, k: nat, runs: nat)
    requires world.Valid() && Distinct(keys)
    modifies world
    ensures world.Valid() && StateOf(world) == AfterRuns(old(StateOf(world)), keys, k, runs)
    ensures k >= 1 && runs * k >= |keys| ==> forall x | x in keys :: x in world.completed
  {
    ghost var start := StateOf(world);
    var fates := seq(|keys|, _ => Smooth);
    for i := 0 to runs
      invariant world.Valid() && StateOf(world) == AfterRuns(start, keys, k, i)
    {
      ghost var alters := world.alters;
      var report, ending := RunLinkCollationMigration(world, keys, Config(false, Some(k), false, false), fates);
      assert world.alters[|alters|..] == report.applied;
    }
    if k >= 1 && runs * k >= |keys| { FinishesInTime(start, keys, k, runs); }
  }
}
