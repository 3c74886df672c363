/** Root, nested and retried transactions over one SQLite connection (lib/transactions.js). */
module Transactions {
  // With the begin and cleanup steps of lib/dialects/SQLiteDialect.js.

  import opened Wrappers
  import opened TransactionMeaning

  /** A named savepoint (the number in `yass_orm_sp_<n>`) and the rows it remembers. */
  datatype Savepoint = Savepoint(name: nat, saved: Rows)

  datatype Step = Acquired | Began | CalledBack | Committed | RolledBack | CleanedUp | Released

  const InsideTransactionError := ErrorObject("SQLITE_ERROR", "", 0, None, false)

  /** The position of the youngest savepoint of that name; the length of the stack if there is none. */
  function Youngest(stack: seq<Savepoint>, name: nat): (i: nat)
    ensures i <= |stack|
    ensures i < |stack| ==> stack[i].name == name
  {
    if stack == [] then 0 else
      var n := |stack| - 1;
      if stack[n].name == name then n else
        var i := Youngest(stack[..n], name);
        if i == n then |stack| else i
  }

  lemma YoungestIsTop(stack: seq<Savepoint>, top: Savepoint)
    ensures Youngest(stack + [top], top.name) == |stack|
    ensures (stack + [top])[..|stack|] == stack
  {
  }

  /** A SQLite connection: what is committed, what the open transaction sees, the savepoint stack (oldest
      first) and the two pragmas a transaction may change. `journal` records the lifecycle steps. */
  class Connection {
    var published: Rows
    var working: Rows
    var open: bool
    var savepoints: seq<Savepoint>
    var readUncommitted: int
    var queryOnly: int
    var journal: seq<Step>

    ghost predicate Valid()
      reads this
    {
      !open ==> working == published && savepoints == []
    }

    constructor ()
      ensures Valid() && !open && published == map[] && journal == []
    {
      published, working, open, savepoints := map[], map[], false, [];
      readUncommitted, queryOnly, journal := 0, 0, [];
    }

    method Record(step: Step)
      modifies this`journal
      ensures journal == old(journal) + [step]
    {
      journal := journal + [step];
    }

    // The statements below do what SQLite documents for BEGIN, COMMIT, ROLLBACK and savepoints.

    method Begin() returns (fault: Option<Thrown>)
      requires Valid()
      modifies this`open
      ensures Valid() && open
      ensures fault == if old(open) then Some(InsideTransactionError) else None
    {
      fault := if open then Some(InsideTransactionError) else None;
      open := true;
    }

    method Commit()
      requires open
      modifies this`published, this`open, this`savepoints
      ensures Valid() && !open && published == working
    {
      published, open, savepoints := working, false, [];
    }

    method Rollback()
      requires open
      modifies this`working, this`open, this`savepoints
      ensures Valid() && !open
    {
      working, open, savepoints := published, false, [];
    }

    method Write(key: string, value: string) returns (fault: Option<Thrown>)
      requires open
      modifies this`working
      ensures fault == if queryOnly != 0 then Some(ReadOnlyError) else None
      ensures working == if queryOnly != 0 then old(working) else old(working)[key := value]
    {
      if queryOnly != 0 { return Some(ReadOnlyError); }
      working := working[key := value];
      return None;
    }

    method SetSavepoint(name: nat)
      requires open
      modifies this`savepoints
      ensures savepoints == old(savepoints) + [Savepoint(name, working)]
    {
      savepoints := savepoints + [Savepoint(name, working)];
    }

    method FindSavepoint(name: nat) returns (i: nat)
      ensures i == Youngest(savepoints, name)
    {
      i := |savepoints|;
      assert savepoints[..i] == savepoints;
      while i > 0
        invariant 0 <= i <= |savepoints|
        invariant Youngest(savepoints, name)
                  == if Youngest(savepoints[..i], name) == i then |savepoints|
                     else Youngest(savepoints[..i], name)
      {
        assert savepoints[..i][..i - 1] == savepoints[..i - 1];
        i := i - 1;
        if savepoints[i].name == name { return; }
      }
      return |savepoints|;
    }

    /** RELEASE SAVEPOINT: the named savepoint and all younger ones are forgotten. */
    method ReleaseSavepoint(name: nat) returns (found: bool)
      requires open
      modifies this`savepoints
      ensures found == (Youngest(old(savepoints), name) < |old(savepoints)|)
      ensures savepoints == old(savepoints)[..Youngest(old(savepoints), name)]
    {
      var i := FindSavepoint(name);
      found := i < |savepoints|;
      savepoints := savepoints[..i];
    }

    /** ROLLBACK TO SAVEPOINT: its rows come back and it stays on the stack. */
    method RollbackTo(name: nat) returns (found: bool)
      requires open
      modifies this`savepoints, this`working
      ensures var i := Youngest(old(savepoints), name);
              found == (i < |old(savepoints)|)
              && (found ==> savepoints == old(savepoints)[..i + 1] && working == old(savepoints)[i].saved)
              && (!found ==> savepoints == old(savepoints) && working == old(working))
    {
      var i := FindSavepoint(name);
      found := i < |savepoints|;
      if found {
        working, savepoints := savepoints[i].saved, savepoints[..i + 1];
      }
    }
  }

  class Context {
    var savepointCounter: nat

    constructor ()
      ensures savepointCounter == 0
    {
      savepointCounter := 0;
    }
  }

  /** Every savepoint on the stack was named by this context. */
  ghost predicate Named(conn: Connection, context: Context)
    reads conn, context
  {
    forall i | 0 <= i < |conn.savepoints| :: conn.savepoints[i].name <= context.savepointCounter
  }

  // ---------------------------------------------------------------- nested transactions

  /** The user's callback: its statements in order, until one throws. */
  method RunCallback(conn: Connection, context: Context, body: seq<Statement>) returns (outcome: Outcome)
    requires conn.Valid() && conn.open && Named(conn, context)
    modifies conn`working, conn`savepoints, context
    ensures (conn.working, outcome) == Meaning(body, old(conn.working), conn.queryOnly != 0)
    ensures conn.savepoints == old(conn.savepoints) && conn.Valid()
    ensures context.savepointCounter >= old(context.savepointCounter)
    decreases body
  {
    if body == [] { return Returned; }
    match body[0]
    case Write(key, value) =>
      var fault := conn.Write(key, value);
      if fault.Some? { return Threw(fault.value); }
      outcome := RunCallback(conn, context, body[1..]);
    case Throw(error) => return Threw(error);
    case _ =>
      outcome := RunNestedTransaction(conn, context, body[0]);
      if outcome.Threw? && !body[0].caught { return; }
      outcome := RunCallback(conn, context, body[1..]);
  }

  /** A nested call gives its rows their meaning and leaves the savepoint stack as it found it. */
  method RunNestedTransaction(conn: Connection, context: Context, call: Statement) returns (outcome: Outcome)
    requires call.Nested? && conn.Valid() && conn.open && Named(conn, context)
    modifies conn`working, conn`savepoints, context
    ensures (conn.working, outcome) == NestedMeaning(call, old(conn.working), conn.queryOnly != 0)
    ensures conn.savepoints == old(conn.savepoints) && conn.Valid()
    ensures context.savepointCounter >= old(context.savepointCounter)
    decreases call
  {
    if call.withOptions { return Threw(NestedOptionsError); }
    context.savepointCounter := context.savepointCounter + 1;
    var name := context.savepointCounter;
    if call.savepointFault.Some? { return Threw(call.savepointFault.value); }
    ghost var stack, top := conn.savepoints, Savepoint(name, conn.working);
    YoungestIsTop(stack, top);
    conn.SetSavepoint(name);
    // try
    outcome := RunCallback(conn, context, call.body);
    if outcome.Returned? {
      if call.releaseFault.None? {
        var released := conn.ReleaseSavepoint(name);
        return;
      }
      outcome := Threw(call.releaseFault.value);
    }
    // catch
    var restored := conn.RollbackTo(name);
    assert conn.savepoints == stack + [top];
    var released := conn.ReleaseSavepoint(name);
  }

  // ---------------------------------------------------------------- retryable errors

  function CodeOf(error: Thrown): string
    requires error.ErrorObject?
  {
    if error.code != "" then error.code else error.sqlState
  }

  predicate IsLockError(error: Thrown)
    requires error.ErrorObject?
  {
    var code := CodeOf(error);
    code == "40001" || code == "40P01" || code == "ER_LOCK_DEADLOCK" || code == "ER_LOCK_WAIT_TIMEOUT"
    || error.errno == 1205 || error.errno == 1213
    || "SQLITE_BUSY" <= code || "SQLITE_LOCKED" <= code
  }

  /** Some error of the chain of causes reports a lock conflict. */
  predicate ChainHasLockError(error: Thrown) {
    error.ErrorObject? && (IsLockError(error) || (error.cause.Some? && ChainHasLockError(error.cause.value)))
  }

  predicate Retryable(error: Thrown) {
    error.ErrorObject? && !error.transactionCommitted && ChainHasLockError(error)
  }

  /** The error itself or the cause at that depth of its chain. */
  function CauseAt(error: Thrown, depth: nat): Option<Thrown> {
    if depth == 0 then Some(error)
    else if error.ErrorObject? && error.cause.Some? then CauseAt(error.cause.value, depth - 1)
    else None
  }

  /** What the code or, where it is empty, the SQL state of a lock conflict begins with or is. */
  ghost predicate SaysLock(text: string) {
    || (exists suffix :: text == "SQLITE_BUSY" + suffix) || (exists suffix :: text == "SQLITE_LOCKED" + suffix)
    || text in {"40001", "40P01", "ER_LOCK_DEADLOCK", "ER_LOCK_WAIT_TIMEOUT"}
  }

  /** An error object with such a code, such a state and no code, or one of MySQL's two numbers. */
  ghost predicate ReportsLock(error: Thrown) {
    error.ErrorObject?
    && (SaysLock(error.code) || (error.code == "" && SaysLock(error.sqlState)) || error.errno in {1205, 1213})
  }

  lemma SaysLockExactlyWhen(text: string)
    ensures SaysLock(text)
            <==> "SQLITE_BUSY" <= text || "SQLITE_LOCKED" <= text
                 || text in {"40001", "40P01", "ER_LOCK_DEADLOCK", "ER_LOCK_WAIT_TIMEOUT"}
  {
    var busy, locked := "SQLITE_BUSY", "SQLITE_LOCKED";
    if busy <= text { assert text == busy + text[|busy|..]; }
    if locked <= text { assert text == locked + text[|locked|..]; }
  }

  lemma ReportsLockExactlyWhen(error: Thrown)
    requires error.ErrorObject?
    ensures ReportsLock(error) <==> IsLockError(error)
  {
    SaysLockExactlyWhen(error.code);
    SaysLockExactlyWhen(error.sqlState);
    NothingSaysNoLock();
    hide SaysLock;
  }

  lemma NothingSaysNoLock()
    ensures !SaysLock("")
  {
    SaysLockExactlyWhen("");
  }

  ghost predicate LockAt(error: Thrown, depth: nat) {
    CauseAt(error, depth).Some? && ReportsLock(CauseAt(error, depth).value)
  }

  lemma LockAtDepth(error: Thrown, depth: nat)
    ensures LockAt(error, 0) == ReportsLock(error)
    ensures LockAt(error, depth + 1) <==> error.ErrorObject? && error.cause.Some? && LockAt(error.cause.value, depth)
  {
    hide ReportsLock;
  }

  lemma {:induction false} ChainExactlyWhen(error: Thrown)
    ensures ChainHasLockError(error) <==> exists depth: nat :: LockAt(error, depth)
    decreases error
  {
    hide ReportsLock, IsLockError, LockAt;
    LockAtDepth(error, 0);
    if error.ErrorObject? { ReportsLockExactlyWhen(error); } else { NotAnObject(error); }
    if error.ErrorObject? && error.cause.Some? {
      ChainExactlyWhen(error.cause.value);
      if depth: nat :| LockAt(error.cause.value, depth) { LockAtDepth(error, depth); }
    }
    if depth: nat :| LockAt(error, depth) {
      if depth > 0 { LockAtDepth(error, depth - 1); }
    }
  }

  lemma NotAnObject(error: Thrown)
    requires !error.ErrorObject?
    ensures !ReportsLock(error)
  {
  }

  /** An error is retried exactly when it is an object that is not marked as committed, and it or a cause at some
      depth reports a lock conflict. */
  lemma RetryableExactlyWhen(error: Thrown)
    ensures Retryable(error)
            <==> error.ErrorObject? && !error.transactionCommitted && exists depth: nat :: LockAt(error, depth)
  {
    hide ChainHasLockError, LockAt;
    ChainExactlyWhen(error);
  }

  method IsRetryableTransactionError(error: Thrown) returns (retryable: bool)
    ensures retryable == Retryable(error)
  {
    if error.ErrorObject? && error.transactionCommitted { return false; }
    var current := Some(error);
    while current.Some? && current.value.ErrorObject?
      invariant ChainHasLockError(error) == (current.Some? && ChainHasLockError(current.value))
      decreases current
    {
      if IsLockError(current.value) { return true; }
      current := current.value.cause;
    }
    return false;
  }

  // ---------------------------------------------------------------- root transactions

  /** `isolation` is Some(true) for read uncommitted and Some(false) for serializable. */
  datatype Options = Options(isolation: Option<bool>, readOnly: Option<bool>)

  /** Which of the two pragma writes of a cleanup fails, if any. */
  datatype CleanupFault = Clean | FirstFails(error: Thrown) | SecondFails(error: Thrown)

  /** One attempt at a root transaction: what the callback does and which lifecycle calls fail. */
  datatype Attempt = Attempt(body: seq<Statement>,
                             acquireFault: Option<Thrown>, readFault: Option<Thrown>,
                             isolationFault: Option<Thrown>, pragmaFault: Option<Thrown>,
                             beginFault: Option<Thrown>, beginCleanup: CleanupFault,
                             commitFault: Option<Thrown>, rollbackFault: Option<Thrown>,
                             cleanup: CleanupFault, releaseFault: Option<Thrown>)

  predicate Begins(options: Options, attempt: Attempt, open: bool) {
    && !open && attempt.acquireFault.None? && attempt.readFault.None? && attempt.beginFault.None?
    && !(options.isolation.Some? && attempt.isolationFault.Some?)
    && !(options.readOnly.Some? && attempt.pragmaFault.Some?)
  }

  /** The attempt that publishes its writes: it begins, its callback returns and its COMMIT succeeds. */
  predicate Commits(options: Options, attempt: Attempt, open: bool, rows: Rows, readOnly: bool) {
    && Begins(options, attempt, open)
    && Meaning(attempt.body, rows, readOnly).1 == Returned
    && attempt.commitFault.None?
  }

  function EffectiveReadOnly(options: Options, queryOnly: int): bool {
    if options.readOnly.Some? then options.readOnly.value else queryOnly != 0
  }

  function Count(steps: seq<Step>, step: Step): nat {
    multiset(steps)[step]
  }

  /** Nothing but cleaning up and releasing happens after a commit, and there is at most one. */
  predicate NothingAfterCommit(steps: seq<Step>) {
    forall i, j | 0 <= i < j < |steps| && steps[i] == Committed :: steps[j] == CleanedUp || steps[j] == Released
  }

  method CleanupTransaction(conn: Connection, state: Option<(int, int)>, cleanup: CleanupFault)
    returns (fault: Option<Thrown>)
    modifies conn`readUncommitted, conn`queryOnly
    ensures fault == if state.Some? && !cleanup.Clean? then Some(cleanup.error) else None
    ensures state.None? ==> conn.readUncommitted == old(conn.readUncommitted) && conn.queryOnly == old(conn.queryOnly)
    ensures state.Some? && cleanup.Clean? ==> (conn.readUncommitted, conn.queryOnly) == state.value
  {
    if state.None? { return None; }
    if cleanup.FirstFails? { return Some(cleanup.error); }
    conn.readUncommitted := state.value.0;
    if cleanup.SecondFails? { return Some(cleanup.error); }
    conn.queryOnly := state.value.1;
    return None;
  }

  method BeginTransaction(conn: Connection, options: Options, attempt: Attempt)
    returns (state: Option<(int, int)>, fault: Option<Thrown>)
    requires conn.Valid() && attempt.acquireFault.None?
    modifies conn`readUncommitted, conn`queryOnly, conn`open
    ensures conn.Valid()
    ensures fault == if Begins(options, attempt, old(conn.open)) then None
                     else Some(BeginError(options, attempt))
    ensures fault.None? ==>
              && conn.open && state == Some((old(conn.readUncommitted), old(conn.queryOnly)))
              && (conn.queryOnly != 0) == EffectiveReadOnly(options, old(conn.queryOnly))
              && (options.isolation.Some? ==> conn.readUncommitted == if options.isolation.value then 1 else 0)
    ensures fault.Some? ==>
              && state.None? && conn.open == old(conn.open)
              && (attempt.beginCleanup.Clean? ==>
                    conn.readUncommitted == old(conn.readUncommitted) && conn.queryOnly == old(conn.queryOnly))
  {
    if attempt.readFault.Some? { return None, attempt.readFault; }
    state := Some((conn.readUncommitted, conn.queryOnly));
    // try
    var error: Option<Thrown> := None;
    if options.isolation.Some? {
      if attempt.isolationFault.Some? {
        error := attempt.isolationFault;
      } else {
        conn.readUncommitted := if options.isolation.value then 1 else 0;
      }
    }
    if error.None? && options.readOnly.Some? {
      if attempt.pragmaFault.Some? {
        error := attempt.pragmaFault;
      } else {
        conn.queryOnly := if options.readOnly.value then 1 else 0;
      }
    }
    if error.None? {
      if attempt.beginFault.Some? {
        error := attempt.beginFault;
      } else {
        error := conn.Begin();
      }
    }
    if error.None? { return state, None; }
    // catch
    var cleanupError := CleanupTransaction(conn, state, attempt.beginCleanup);
    return None, if cleanupError.Some? then cleanupError else error;
  }

  /** `err.transactionCommitted = committed`; a primitive takes no properties. */
  function MarkCommitted(error: Thrown, committed: bool): Thrown {
    if error.ErrorObject? then error.(transactionCommitted := committed) else error
  }

  predicate Raised(fault: Option<Thrown>) {
    fault.Some? && fault.value.Truthy()
  }

  /** Why the database transaction could not be opened. */
  function BeginError(options: Options, attempt: Attempt): Thrown {
    if attempt.readFault.Some? then attempt.readFault.value
    else if !attempt.beginCleanup.Clean? then attempt.beginCleanup.error
    else if options.isolation.Some? && attempt.isolationFault.Some? then attempt.isolationFault.value
    else if options.readOnly.Some? && attempt.pragmaFault.Some? then attempt.pragmaFault.value
    else if attempt.beginFault.Some? then attempt.beginFault.value
    else InsideTransactionError
  }

  /** The error that ends an attempt, if one does. */
  function PrimaryError(options: Options, attempt: Attempt, open: bool, rows: Rows, readOnly: bool): Option<Thrown> {
    if !Begins(options, attempt, open) then Some(BeginError(options, attempt))
    else
      match Meaning(attempt.body, rows, readOnly).1
      case Threw(error) => Some(error)
      case Returned => attempt.commitFault
  }

  /** How an attempt ends for its caller. */
  function RootOutcome(options: Options, attempt: Attempt, open: bool, rows: Rows, readOnly: bool): Outcome {
    if attempt.acquireFault.Some? then Threw(attempt.acquireFault.value)
    else
      var committed := Commits(options, attempt, open, rows, readOnly);
      Settled(PrimaryError(options, attempt, open, rows, readOnly),
              if Begins(options, attempt, open) then CleanupError(attempt.cleanup) else None,
              attempt.releaseFault, committed)
  }

  function CleanupError(cleanup: CleanupFault): Option<Thrown> {
    if cleanup.Clean? then None else Some(cleanup.error)
  }

  /** The primary error wins over the cleanup's and that one over the release's; falsy ones are passed over. */
  function Settled(primary: Option<Thrown>, cleanup: Option<Thrown>, release: Option<Thrown>, committed: bool): Outcome
  {
    if Raised(primary) then Threw(primary.value)
    else if Raised(cleanup) then Threw(MarkCommitted(cleanup.value, committed))
    else if Raised(release) then Threw(MarkCommitted(release.value, committed))
    else Returned
  }

  /** The lifecycle steps between acquiring and cleaning up. */
  function Middle(begins: bool, commits: bool, rolledBack: bool): seq<Step> {
    if !begins then [] else if commits then [Began, CalledBack, Committed]
    else if rolledBack then [Began, CalledBack, RolledBack] else [Began, CalledBack]
  }

  /** The lifecycle steps of one attempt whose lease was acquired. */
  function Lifecycle(begins: bool, commits: bool, rolledBack: bool, cleaned: bool): seq<Step> {
    [Acquired] + Middle(begins, commits, rolledBack) + (if cleaned then [CleanedUp] else []) + [Released]
  }

  function StepsOf(options: Options, attempt: Attempt, open: bool, rows: Rows, readOnly: bool): seq<Step> {
    if attempt.acquireFault.Some? then [] else
      var begins := Begins(options, attempt, open);
      var commits := Commits(options, attempt, open, rows, readOnly);
      Lifecycle(begins, commits, attempt.rollbackFault.None?, !begins || attempt.cleanup.Clean?)
  }

  /** Only a transaction that could not be rolled back, or that was open before, is open behind an attempt. */
  predicate StaysOpen(begins: bool, commits: bool, attempt: Attempt, open: bool) {
    if begins then !commits && attempt.rollbackFault.Some? else open
  }

  /** The try/catch block of an attempt: up to the commit, or to the rollback of what went wrong. */
  method TryAttempt(conn: Connection, options: Options, attempt: Attempt)
    returns (state: Option<(int, int)>, primaryError: Option<Thrown>, committed: bool)
    requires conn.Valid() && attempt.acquireFault.None?
    modifies conn
    ensures conn.Valid()
    ensures var readOnly := EffectiveReadOnly(options, old(conn.queryOnly));
            var begins := Begins(options, attempt, old(conn.open));
            && committed == Commits(options, attempt, old(conn.open), old(conn.published), readOnly)
            && primaryError == PrimaryError(options, attempt, old(conn.open), old(conn.published), readOnly)
            && conn.published == (if committed then Meaning(attempt.body, old(conn.published), readOnly).0
                                  else old(conn.published))
            && conn.open == StaysOpen(begins, committed, attempt, old(conn.open))
            && conn.journal == old(conn.journal) + Middle(begins, committed, attempt.rollbackFault.None?)
            && state == (if begins then Some((old(conn.readUncommitted), old(conn.queryOnly))) else None)
            && (!begins && attempt.beginCleanup.Clean? ==>
                  conn.readUncommitted == old(conn.readUncommitted) && conn.queryOnly == old(conn.queryOnly))
  {
    var context := new Context();
    committed, primaryError := false, None;
    var fault;
    state, fault := BeginTransaction(conn, options, attempt);
    if fault.Some? {
      return None, fault, false;
    }
    conn.Record(Began);
    conn.Record(CalledBack);
    var result := RunCallback(conn, context, attempt.body);
    if result.Threw? {
      primaryError := Some(result.error);
    } else if attempt.commitFault.Some? {
      primaryError := attempt.commitFault;
    } else {
      conn.Commit();
      conn.Record(Committed);
      committed := true;
    }
    if primaryError.Some? && attempt.rollbackFault.None? {
      conn.Rollback();
      conn.Record(RolledBack);
    }
  }

  /** One attempt. All of its callback's meaning is published or nothing; the lease it got is released exactly
      once; a commit is never followed by an error that looks retryable; both pragmas come back unless a
      cleanup failed. */
  method RunRootTransaction(conn: Connection, options: Options, attempt: Attempt) returns (outcome: Outcome)
    requires conn.Valid()
    modifies conn
    ensures conn.Valid()
    ensures var readOnly := EffectiveReadOnly(options, old(conn.queryOnly));
            var commits := Commits(options, attempt, old(conn.open), old(conn.published), readOnly);
            && outcome == RootOutcome(options, attempt, old(conn.open), old(conn.published), readOnly)
            && conn.published == (if commits then Meaning(attempt.body, old(conn.published), readOnly).0
                                  else old(conn.published))
            && conn.open == StaysOpen(Begins(options, attempt, old(conn.open)), commits, attempt, old(conn.open))
            && (commits && outcome.Threw? ==> !Retryable(outcome.error))
            && conn.journal == old(conn.journal)
                 + StepsOf(options, attempt, old(conn.open), old(conn.published), readOnly)
    ensures attempt.beginCleanup.Clean? && attempt.cleanup.Clean? ==>
              conn.readUncommitted == old(conn.readUncommitted) && conn.queryOnly == old(conn.queryOnly)
  {
    hide Commits, Begins, PrimaryError, Retryable, EffectiveReadOnly, Settled;
    ghost var readOnly := EffectiveReadOnly(options, conn.queryOnly);
    ghost var start, open, rows := conn.journal, conn.open, conn.published;
    CommittedFailureIsFinal(options, attempt, open, rows, readOnly);
    if attempt.acquireFault.Some? { return Threw(attempt.acquireFault.value); }
    conn.Record(Acquired);
    var state, primaryError, committed := TryAttempt(conn, options, attempt);
    var cleanupError := CleanupTransaction(conn, state, attempt.cleanup);
    if cleanupError.None? { conn.Record(CleanedUp); }
    conn.Record(Released);
    JournalOfAttempt(start, Middle(state.Some?, committed, attempt.rollbackFault.None?), cleanupError.None?);
    outcome := SettleAttempt(primaryError, cleanupError, attempt.releaseFault, committed);
  }

  /** What is thrown once everything has been undone. */
  method SettleAttempt(primaryError: Option<Thrown>, cleanupError: Option<Thrown>, releaseError: Option<Thrown>,
                       committed: bool) returns (outcome: Outcome)
    ensures outcome == Settled(primaryError, cleanupError, releaseError, committed)
  {
    if Raised(primaryError) { return Threw(primaryError.value); }
    if Raised(cleanupError) { return Threw(MarkCommitted(cleanupError.value, committed)); }
    if Raised(releaseError) { return Threw(MarkCommitted(releaseError.value, committed)); }
    return Returned;
  }

  lemma JournalOfAttempt(start: seq<Step>, middle: seq<Step>, cleaned: bool)
    ensures (if cleaned then start + [Acquired] + middle + [CleanedUp] else start + [Acquired] + middle) + [Released]
            == start + ([Acquired] + middle + (if cleaned then [CleanedUp] else []) + [Released])
  {
  }

  lemma CommittedFailureIsFinal(options: Options, attempt: Attempt, open: bool, rows: Rows, readOnly: bool)
    ensures attempt.acquireFault.Some? ==>
              !Commits(options, attempt, open, rows, readOnly) && !Begins(options, attempt, open)
    ensures var outcome := RootOutcome(options, attempt, open, rows, readOnly);
            Commits(options, attempt, open, rows, readOnly) && outcome.Threw? ==> !Retryable(outcome.error)
  {
    hide ChainHasLockError, Meaning;
  }

  // ---------------------------------------------------------------- what a normal ending tells the caller

  predicate IsErrorObject(fault: Option<Thrown>) {
    fault.Some? ==> fault.value.ErrorObject?
  }

  /** What the driver raises are error objects, as better-sqlite3's are. */
  predicate DriverErrorsAreObjects(attempt: Attempt) {
    && IsErrorObject(attempt.acquireFault) && IsErrorObject(attempt.readFault) && IsErrorObject(attempt.isolationFault)
    && IsErrorObject(attempt.pragmaFault) && IsErrorObject(attempt.beginFault) && IsErrorObject(attempt.commitFault)
    && IsErrorObject(attempt.releaseFault) && IsErrorObject(CleanupError(attempt.cleanup))
    && IsErrorObject(CleanupError(attempt.beginCleanup))
  }

  /** The callback ends with a falsy throw. */
  predicate EndsFalsy(body: seq<Statement>, readOnly: bool) {
    var outcome := Survivors(body, readOnly).1;
    outcome.Threw? && !outcome.error.Truthy()
  }

  /** No statement of the callback, at any depth, throws a falsy value. */
  predicate ThrowsTruthy(body: seq<Statement>)
    decreases body
  {
    forall i | 0 <= i < |body| :: StatementThrowsTruthy(body[i])
  }

  predicate StatementThrowsTruthy(statement: Statement)
    decreases statement
  {
    match statement
    case Write(_, _) => true
    case Throw(error) => error.Truthy()
    case Nested(body, _, _, savepointFault, releaseFault) =>
      && ThrowsTruthy(body)
      && (savepointFault.Some? ==> savepointFault.value.Truthy())
      && (releaseFault.Some? ==> releaseFault.value.Truthy())
  }

  /** Such a callback never ends with a falsy throw. */
  lemma {:induction false} TruthyToTheEnd(body: seq<Statement>, readOnly: bool)
    requires ThrowsTruthy(body)
    ensures !EndsFalsy(body, readOnly)
    decreases body
  {
    if body != [] {
      assert StatementThrowsTruthy(body[0]);
      assert forall i | 0 <= i < |body| - 1 :: body[1..][i] == body[i + 1];
      TruthyToTheEnd(body[1..], readOnly);
      if body[0].Nested? { NestedTruthyToTheEnd(body[0], readOnly); }
    }
  }

  lemma {:induction false} NestedTruthyToTheEnd(call: Statement, readOnly: bool)
    requires call.Nested? && StatementThrowsTruthy(call)
    ensures var outcome := NestedSurvivors(call, readOnly).1; outcome.Threw? ==> outcome.error.Truthy()
    decreases call
  {
    TruthyToTheEnd(call.body, readOnly);
  }

  /** A transaction resolves normally without having committed exactly when it began, its callback ended with a
      falsy throw, and nothing was thrown while cleaning up and releasing. */
  lemma ResolvesUncommittedExactlyWhen(options: Options, attempt: Attempt, open: bool, rows: Rows, readOnly: bool)
    requires DriverErrorsAreObjects(attempt)
    ensures RootOutcome(options, attempt, open, rows, readOnly).Returned?
              && !Commits(options, attempt, open, rows, readOnly)
            <==> Begins(options, attempt, open) && EndsFalsy(attempt.body, readOnly)
                 && attempt.cleanup.Clean? && attempt.releaseFault.None?
  {
    hide Meaning, Survivors;
    MeaningIsSurvivors(attempt.body, rows, readOnly);
  }

  /** For callbacks without falsy throws a normal ending tells the truth: the transaction resolves exactly when it
      committed and was cleaned up and released. */
  lemma ResolvesExactlyWhen(options: Options, attempt: Attempt, open: bool, rows: Rows, readOnly: bool)
    requires DriverErrorsAreObjects(attempt) && ThrowsTruthy(attempt.body)
    ensures RootOutcome(options, attempt, open, rows, readOnly).Returned?
            <==> Commits(options, attempt, open, rows, readOnly)
                 && attempt.cleanup.Clean? && attempt.releaseFault.None?
  {
    hide Meaning, Survivors, EndsFalsy, ThrowsTruthy;
    TruthyToTheEnd(attempt.body, readOnly);
    ResolvesUncommittedExactlyWhen(options, attempt, open, rows, readOnly);
  }

  /** A write followed by `throw undefined`: rolled back, yet the transaction resolves normally. */
  method ThrowUndefined(conn: Connection) returns (outcome: Outcome)
    requires conn.Valid() && !conn.open && conn.queryOnly == 0
    modifies conn
    ensures outcome == Returned && conn.published == old(conn.published)
    ensures conn.journal == old(conn.journal) + [Acquired, Began, CalledBack, RolledBack, CleanedUp, Released]
  {
    var body := [Write("key", "value"), Throw(Primitive(false))];
    var attempt := Attempt(body, None, None, None, None, None, Clean, None, None, Clean, None);
    ThrowsUndefined(conn.published);
    outcome := RunRootTransaction(conn, Options(None, None), attempt);
  }

  lemma ThrowsUndefined(rows: Rows)
    ensures Meaning([Write("key", "value"), Throw(Primitive(false))], rows, false).1 == Threw(Primitive(false))
  {
    assert [Write("key", "value"), Throw(Primitive(false))][1..] == [Throw(Primitive(false))];
  }

  // ---------------------------------------------------------------- retries

  /** What the journal of a whole transaction looks like: each lease acquired is released once, the callback
      runs at most `limit` times, and at most one attempt commits, with no attempt after it. */
  predicate Orderly(steps: seq<Step>, limit: nat) {
    && NothingAfterCommit(steps) && Count(steps, Committed) <= 1
    && Count(steps, CalledBack) <= limit
    && Count(steps, Acquired) == Count(steps, Released)
  }

  lemma TailAfterCommit(a: seq<Step>, tail: seq<Step>)
    requires NothingAfterCommit(a) && forall i | 0 <= i < |tail| :: tail[i] == CleanedUp || tail[i] == Released
    ensures NothingAfterCommit(a + tail)
  {
    forall i, j | 0 <= i < j < |a + tail| && (a + tail)[i] == Committed
      ensures (a + tail)[j] == CleanedUp || (a + tail)[j] == Released
    {
      if j >= |a| { assert (a + tail)[j] in tail; }
    }
  }

  lemma LifecycleIsOrderly(begins: bool, commits: bool, rolledBack: bool, cleaned: bool)
    ensures var steps := Lifecycle(begins, commits, rolledBack, cleaned);
            && Orderly(steps, 1) && Count(steps, Acquired) == 1
            && (begins && commits <==> Committed in steps)
  {
    var steps, m := Lifecycle(begins, commits, rolledBack, cleaned), Middle(begins, commits, rolledBack);
    var tail := (if cleaned then [CleanedUp] else []) + [Released];
    TailAfterCommit([Acquired] + m, tail);
    assert steps == [Acquired] + m + tail;
    LifecycleCounts(begins, commits, rolledBack, cleaned);
  }

  lemma CountAppend(a: seq<Step>, b: seq<Step>, step: Step)
    ensures Count(a + b, step) == Count(a, step) + Count(b, step)
  {
    assert multiset(a + b) == multiset(a) + multiset(b);
  }

  lemma MiddleCounts(begins: bool, commits: bool, rolledBack: bool)
    ensures var m := Middle(begins, commits, rolledBack);
            && Count(m, Acquired) == Count(m, Released) == 0 && Count(m, CalledBack) <= 1
            && Count(m, Committed) == if begins && commits then 1 else 0
  {
  }

  lemma LifecycleCounts(begins: bool, commits: bool, rolledBack: bool, cleaned: bool)
    ensures var steps := Lifecycle(begins, commits, rolledBack, cleaned);
            && Count(steps, Acquired) == Count(steps, Released) == 1
            && Count(steps, CalledBack) <= 1
            && Count(steps, Committed) == if begins && commits then 1 else 0
  {
    var m, t := Middle(begins, commits, rolledBack), if cleaned then [CleanedUp] else [];
    MiddleCounts(begins, commits, rolledBack);
    EndsCount(m, t, Acquired);
    EndsCount(m, t, Released);
    EndsCount(m, t, CalledBack);
    EndsCount(m, t, Committed);
    hide Middle;
  }

  lemma EndsCount(m: seq<Step>, t: seq<Step>, step: Step)
    ensures Count([Acquired] + m + t + [Released], step)
            == Count([Acquired], step) + Count(m, step) + Count(t, step) + Count([Released], step)
  {
    hide Count;
    CountAppend([Acquired] + m + t, [Released], step);
    CountAppend([Acquired] + m, t, step);
    CountAppend([Acquired], m, step);
  }

  lemma StepsAreOrderly(options: Options, attempt: Attempt, open: bool, rows: Rows, readOnly: bool)
    ensures var steps := StepsOf(options, attempt, open, rows, readOnly);
            && Orderly(steps, 1)
            && Count(steps, Acquired) == (if attempt.acquireFault.None? then 1 else 0)
            && (Commits(options, attempt, open, rows, readOnly) <==> Committed in steps)
  {
    if attempt.acquireFault.None? {
      hide Orderly, Lifecycle, Count, Meaning, Begins;
      var begins := Begins(options, attempt, open);
      LifecycleIsOrderly(begins, Commits(options, attempt, open, rows, readOnly), attempt.rollbackFault.None?,
                         !begins || attempt.cleanup.Clean?);
    }
  }

  /** Steps without a commit can precede any orderly ones. */
  lemma OrderlyConcat(a: seq<Step>, m: nat, b: seq<Step>, n: nat)
    requires Orderly(a, m) && Orderly(b, n) && Committed !in a
    ensures Orderly(a + b, m + n)
  {
    var all := a + b;
    assert multiset(all) == multiset(a) + multiset(b);
    forall i, j | 0 <= i < j < |all| && all[i] == Committed ensures all[j] == CleanedUp || all[j] == Released {
      assert forall k | 0 <= k < |a| :: a[k] in a;
      assert b[i - |a|] == Committed && all[j] == b[j - |a|];
    }
  }

  /** How many of these attempts get a connection. */
  function Leases(attempts: seq<Attempt>): nat {
    if attempts == [] then 0
    else (if attempts[0].acquireFault.None? then 1 else 0) + Leases(attempts[1..])
  }

  predicate AllClean(attempts: seq<Attempt>) {
    forall a | a in attempts :: a.beginCleanup.Clean? && a.cleanup.Clean?
  }

  /** The rows left behind are those of the attempt, run from the rows at the start. */
  predicate PublishedIn(attempt: Attempt, before: Rows, after: Rows, readOnly: bool) {
    Meaning(attempt.body, before, readOnly) == (after, Returned)
  }

  /** So they are, in the access mode asked for. */
  ghost predicate PublishedBy(options: Options, attempt: Attempt, before: Rows, after: Rows) {
    exists readOnly :: (options.readOnly.Some? ==> readOnly == options.readOnly.value)
                       && PublishedIn(attempt, before, after, readOnly)
  }

  lemma CommitPublishes(options: Options, attempt: Attempt, before: Rows, after: Rows, readOnly: bool)
    requires options.readOnly.Some? ==> readOnly == options.readOnly.value
    requires PublishedIn(attempt, before, after, readOnly)
    ensures PublishedBy(options, attempt, before, after)
  {
  }

  /** An attempt whose normal ending can be trusted. */
  predicate Trustworthy(attempt: Attempt) {
    DriverErrorsAreObjects(attempt) && ThrowsTruthy(attempt.body)
  }

  /** The account of a transaction that used up attempts: `outcomes` lists how they ended. Every one but the
      last failed with a retryable error, and a retryable error is passed on only when no attempt is left. A normal
      ending means a commit unless the last callback may throw falsy values. */
  ghost predicate Account(options: Options, attempts: seq<Attempt>, outcomes: seq<Outcome>, steps: seq<Step>,
                          before: Rows, after: Rows) {
    && 1 <= |outcomes| <= |attempts|
    && (forall k | 0 <= k < |outcomes| - 1 :: outcomes[k].Threw? && Retryable(outcomes[k].error))
    && var last := outcomes[|outcomes| - 1];
    && (last.Threw? && Retryable(last.error) ==> |outcomes| == |attempts| && Committed !in steps)
    && Orderly(steps, |attempts|)
    && Count(steps, Acquired) == Leases(attempts[..|outcomes|])
    && (Committed !in steps ==> after == before)
    && (Committed in steps ==> PublishedBy(options, attempts[|outcomes| - 1], before, after))
    && (last.Returned? && Trustworthy(attempts[|outcomes| - 1]) ==> Committed in steps)
  }

  lemma AccountOfOne(options: Options, attempts: seq<Attempt>, outcome: Outcome, steps: seq<Step>,
                     before: Rows, after: Rows)
    requires attempts != [] && (|attempts| == 1 || outcome.Returned? || !Retryable(outcome.error))
    requires Orderly(steps, 1) && Count(steps, Acquired) == (if attempts[0].acquireFault.None? then 1 else 0)
    requires Committed !in steps ==> after == before
    requires Committed in steps ==> PublishedBy(options, attempts[0], before, after)
    requires Committed in steps && outcome.Threw? ==> !Retryable(outcome.error)
    requires outcome.Returned? && Trustworthy(attempts[0]) ==> Committed in steps
    ensures Account(options, attempts, [outcome], steps, before, after)
  {
    hide Trustworthy, PublishedBy, NothingAfterCommit, ChainHasLockError;
    assert attempts[..1][1..] == [];
    assert Orderly(steps, |attempts|);
    assert Count(steps, Acquired) == Leases(attempts[..|[outcome]|]);
  }

  lemma FirstApart<T>(s: seq<T>, n: nat)
    requires 0 < n <= |s|
    ensures s[..n][0] == s[0] && s[..n][1..] == s[1..][..n - 1]
  {
  }

  lemma LastBehindFirst<T>(first: T, s: seq<T>)
    requires s != []
    ensures ([first] + s)[|s|] == s[|s| - 1]
  {
  }

  lemma AccountOfMore(options: Options, attempts: seq<Attempt>, outcome: Outcome, steps: seq<Step>,
                      outcomes: seq<Outcome>, rest: seq<Step>, before: Rows, after: Rows)
    requires |attempts| > 1 && outcome.Threw? && Retryable(outcome.error)
    requires Orderly(steps, 1) && Count(steps, Acquired) == (if attempts[0].acquireFault.None? then 1 else 0)
    requires Committed !in steps
    requires Account(options, attempts[1..], outcomes, rest, before, after)
    ensures Account(options, attempts, [outcome] + outcomes, steps + rest, before, after) && outcomes != []
  {
    hide Retryable, PublishedBy, Trustworthy;
    OrderlyConcat(steps, 1, rest, |attempts| - 1);
    assert multiset(steps + rest) == multiset(steps) + multiset(rest);
    var n := |outcomes| + 1;
    FirstApart(attempts, n);
    LastBehindFirst(outcome, outcomes);
  }

  /** Nothing goes wrong while an attempt is undone: its rollback and its cleanup succeed. */
  predicate AllUndone(attempts: seq<Attempt>) {
    AllClean(attempts) && forall a | a in attempts :: a.rollbackFault.None?
  }

  /** How such attempts end on a free connection, and the rows they leave. */
  function Retried(options: Options, attempts: seq<Attempt>, rows: Rows, readOnly: bool): (Outcome, Rows)
    requires attempts != []
  {
    var outcome := RootOutcome(options, attempts[0], false, rows, readOnly);
    if |attempts| > 1 && outcome.Threw? && Retryable(outcome.error) then Retried(options, attempts[1..], rows, readOnly)
    else (outcome, if Commits(options, attempts[0], false, rows, readOnly)
                   then Meaning(attempts[0].body, rows, readOnly).0 else rows)
  }

  lemma JournalGrows(start: seq<Step>, steps: seq<Step>, middle: seq<Step>, end: seq<Step>)
    requires middle == start + steps && middle <= end
    ensures start <= end && end[|start|..] == steps + end[|middle|..]
  {
  }

  /** One attempt, as the retry loop sees it. */
  method AttemptOnce(conn: Connection, options: Options, attempt: Attempt)
    returns (outcome: Outcome, ghost steps: seq<Step>)
    requires conn.Valid()
    modifies conn
    ensures conn.Valid() && conn.journal == old(conn.journal) + steps
    ensures Orderly(steps, 1) && Count(steps, Acquired) == (if attempt.acquireFault.None? then 1 else 0)
    ensures Committed !in steps ==> conn.published == old(conn.published)
    ensures Committed in steps ==>
              && PublishedBy(options, attempt, old(conn.published), conn.published)
              && PublishedIn(attempt, old(conn.published), conn.published,
                             EffectiveReadOnly(options, old(conn.queryOnly)))
    ensures Committed in steps && outcome.Threw? ==> !Retryable(outcome.error)
    ensures outcome.Returned? && Trustworthy(attempt) ==> Committed in steps
    ensures var readOnly := EffectiveReadOnly(options, old(conn.queryOnly));
            && outcome == RootOutcome(options, attempt, old(conn.open), old(conn.published), readOnly)
            && conn.published == (if Commits(options, attempt, old(conn.open), old(conn.published), readOnly)
                                  then Meaning(attempt.body, old(conn.published), readOnly).0
                                  else old(conn.published))
    ensures !old(conn.open) && attempt.rollbackFault.None? ==> !conn.open
    ensures attempt.beginCleanup.Clean? && attempt.cleanup.Clean? ==>
              conn.readUncommitted == old(conn.readUncommitted) && conn.queryOnly == old(conn.queryOnly)
  {
    ghost var readOnly, before := EffectiveReadOnly(options, conn.queryOnly), conn.published;
    steps := StepsOf(options, attempt, conn.open, before, readOnly);
    StepsAreOrderly(options, attempt, conn.open, before, readOnly);
    hide RootOutcome, StepsOf, Orderly, Retryable;
    if Trustworthy(attempt) { ResolvesExactlyWhen(options, attempt, conn.open, before, readOnly); }
    outcome := RunRootTransaction(conn, options, attempt);
    if Committed in steps { CommitPublishes(options, attempt, before, conn.published, readOnly); }
  }

  /** `attempts` says how each attempt would go, one after the other. */
  method ExecuteAttempt(conn: Connection, options: Options, attempts: seq<Attempt>)
    returns (outcome: Outcome, ghost outcomes: seq<Outcome>)
    requires conn.Valid() && attempts != []
    modifies conn
    ensures conn.Valid() && old(conn.journal) <= conn.journal
    ensures Account(options, attempts, outcomes, conn.journal[|old(conn.journal)|..],
                    old(conn.published), conn.published)
    ensures outcome == outcomes[|outcomes| - 1]
    ensures 1 <= |outcomes| <= |attempts|
    ensures !old(conn.open) && AllUndone(attempts) ==>
              && (outcome, conn.published)
                 == Retried(options, attempts, old(conn.published), EffectiveReadOnly(options, old(conn.queryOnly)))
              && !conn.open
    ensures AllClean(attempts) ==>
              && conn.readUncommitted == old(conn.readUncommitted) && conn.queryOnly == old(conn.queryOnly)
              && (Committed in conn.journal[|old(conn.journal)|..] ==>
                    PublishedIn(attempts[|outcomes| - 1], old(conn.published), conn.published,
                                EffectiveReadOnly(options, old(conn.queryOnly))))
    decreases |attempts|
  {
    hide Orderly, Account, PublishedBy, PublishedIn, Retryable, EffectiveReadOnly;
    ghost var steps, start, before := [], conn.journal, conn.published;
    outcome, steps := AttemptOnce(conn, options, attempts[0]);
    ghost var middle := conn.journal;
    var retryable := outcome.Threw?;
    if retryable { retryable := IsRetryableTransactionError(outcome.error); }
    if |attempts| == 1 || !retryable {
      assert middle[|start|..] == steps;
      AccountOfOne(options, attempts, outcome, steps, before, conn.published);
      return outcome, [outcome];
    }
    assert Committed !in steps && conn.published == before;
    ghost var first, later := outcome, [];
    outcome, later := ExecuteAttempt(conn, options, attempts[1..]);
    ghost var rest := conn.journal[|middle|..];
    AccountOfMore(options, attempts, first, steps, later, rest, before, conn.published);
    JournalGrows(start, steps, middle, conn.journal);
    outcomes := [first] + later;
  }

  const BadRetriesError := ErrorObject("", "", 0, None, false)

  /** `transaction(callback, { maxRetries, ... })` outside of any transaction; `attempts` holds at least as many
      attempts as may be made. */
  method RunTransaction(conn: Connection, options: Options, maxRetries: int, attempts: seq<Attempt>)
    returns (outcome: Outcome)
    requires conn.Valid() && |attempts| > maxRetries
    modifies conn
    ensures conn.Valid() && old(conn.journal) <= conn.journal
    ensures maxRetries < 0 ==> outcome == Threw(BadRetriesError) && conn.journal == old(conn.journal)
                               && conn.published == old(conn.published)
    ensures maxRetries >= 0 ==>
              exists outcomes ::
                && Account(options, attempts[..maxRetries + 1], outcomes, conn.journal[|old(conn.journal)|..],
                           old(conn.published), conn.published)
                && outcome == outcomes[|outcomes| - 1]
                && (AllClean(attempts[..maxRetries + 1]) && Committed in conn.journal[|old(conn.journal)|..] ==>
                      PublishedIn(attempts[|outcomes| - 1], old(conn.published), conn.published,
                                  EffectiveReadOnly(options, old(conn.queryOnly))))
    ensures maxRetries >= 0 && !old(conn.open) && AllUndone(attempts[..maxRetries + 1]) ==>
              (outcome, conn.published) == Retried(options, attempts[..maxRetries + 1], old(conn.published),
                                                   EffectiveReadOnly(options, old(conn.queryOnly)))
    ensures maxRetries >= 0 && AllClean(attempts[..maxRetries + 1]) ==>
              conn.readUncommitted == old(conn.readUncommitted) && conn.queryOnly == old(conn.queryOnly)
  {
    if maxRetries < 0 { return Threw(BadRetriesError); }
    ghost var outcomes;
    outcome, outcomes := ExecuteAttempt(conn, options, attempts[..maxRetries + 1]);
  }

  /** While attempts are left, a failure is followed by another attempt exactly when it reports a lock conflict at
      some depth and is not marked as committed. */
  lemma TriedAgainExactlyWhen(options: Options, attempts: seq<Attempt>, rows: Rows, readOnly: bool)
    requires |attempts| > 1 && RootOutcome(options, attempts[0], false, rows, readOnly).Threw?
    ensures var error := RootOutcome(options, attempts[0], false, rows, readOnly).error;
            if error.ErrorObject? && !error.transactionCommitted && exists depth: nat :: LockAt(error, depth)
            then Retried(options, attempts, rows, readOnly) == Retried(options, attempts[1..], rows, readOnly)
            else Retried(options, attempts, rows, readOnly).0 == Threw(error)
  {
    hide RootOutcome, Commits, Meaning, Retryable, LockAt;
    RetryableExactlyWhen(RootOutcome(options, attempts[0], false, rows, readOnly).error);
  }

  /** A first attempt that the database is too busy to commit, and a second one that nothing disturbs. */
  method RetryAfterBusy(conn: Connection, options: Options, body: seq<Statement>, suffix: string)
    returns (outcome: Outcome)
    requires conn.Valid() && !conn.open
    requires Meaning(body, conn.published, EffectiveReadOnly(options, conn.queryOnly)).1 == Returned
    modifies conn
    ensures outcome == Returned
    ensures conn.published == Meaning(body, old(conn.published), EffectiveReadOnly(options, old(conn.queryOnly))).0
  {
    var busy := ErrorObject("SQLITE_BUSY" + suffix, "", 0, None, false);
    var smooth := Attempt(body, None, None, None, None, None, Clean, None, None, Clean, None);
    var attempts := [smooth.(commitFault := Some(busy)), smooth];
    ghost var rows, readOnly := conn.published, EffectiveReadOnly(options, conn.queryOnly);
    BusyReportsLock(busy, suffix);
    TriedAgainExactlyWhen(options, attempts, rows, readOnly);
    assert attempts[1..] == [smooth] && attempts[..2] == attempts;
    outcome := RunTransaction(conn, options, 1, attempts);
  }

  lemma BusyReportsLock(error: Thrown, suffix: string)
    requires error.ErrorObject? && error.code == "SQLITE_BUSY" + suffix
    ensures LockAt(error, 0)
  {
  }
}
