/** Concurrent `findOrCreate` calls with the same fields on one SQLite handle (lib/dbh.js). */
module FindOrCreate {
  // Each call runs inside its own leased transaction. Every statement of a call is a separate step, so calls,
  // outside queries and queue jobs interleave freely.

  import opened Wrappers
  import opened SqliteLease

  type Row = map<string, string>

  /** The table, by primary key. */
  type Table = map<string, Row>

  const IdField := "id"

  /** `search`: a row matches when it agrees on every given field. */
  predicate Matches(row: Row, fields: Row) {
    forall k | k in fields :: k in row && row[k] == fields[k]
  }

  /** Where a call stands: the statement it executed last, and what it learnt. */
  datatype Phase =
    | Opening
    | Begun
    | Missing
    | Inserted
    | Selected(row: Row, wasCreated: bool)
    | Committed(row: Row, wasCreated: bool)
    | Failed

  /** `fields` is the object all calls search and insert with; `defaults` are the remaining columns of a new
      row. */
  datatype System = System(handle: Handle, table: Table, calls: seq<Phase>, fields: Row, defaults: Row)

  datatype Move = Call | OutsideQuery | Job | Advance(call: nat) | Finish(call: nat)

  function NewRow(s: System): Row {
    s.defaults + s.fields
  }

  /** The first row that matches; the primary key is among the fields, so there is at most one. */
  function Search(s: System): Option<Row>
    requires IdField in s.fields
  {
    var id := s.fields[IdField];
    if id in s.table && Matches(s.table[id], s.fields) then Some(s.table[id]) else None
  }

  /** The next statement of a call: BEGIN, the search, the INSERT, the SELECT of the new row, COMMIT. An INSERT
      of a primary key that exists fails, and the transaction is rolled back. */
  function NextStatement(s: System, call: nat): (Table, Phase)
    requires IdField in s.fields && call < |s.calls|
  {
    var id := s.fields[IdField];
    match s.calls[call]
    case Opening => (s.table, Begun)
    case Begun =>
      var found := Search(s);
      (s.table, if found.Some? then Selected(found.value, false) else Missing)
    case Missing => if id in s.table then (s.table, Failed) else (s.table[id := NewRow(s)], Inserted)
    case Inserted => (s.table, if id in s.table then Selected(s.table[id], true) else Selected(map[], true))
    case Selected(row, wasCreated) => (s.table, Committed(row, wasCreated))
    case _ => (s.table, s.calls[call])
  }

  predicate Ended(p: Phase) {
    p.Committed? || p.Failed?
  }

  predicate Possible(s: System, m: Move)
    requires |s.calls| == |s.handle.leases|
  {
    match m
    case Call => true
    case OutsideQuery => true
    case Job => s.handle.jobs != []
    case Advance(c) => c < |s.calls| && s.handle.leases[c].Held? && !Ended(s.calls[c])
    case Finish(c) => c < |s.calls| && s.handle.leases[c].Held? && Ended(s.calls[c])
  }

  function Do(s: System, m: Move): System
    requires |s.calls| == |s.handle.leases| && WellFormed(s.handle) && IdField in s.fields && Possible(s, m)
  {
    match m
    case Call => s.(handle := RequestLease(s.handle), calls := s.calls + [Opening])
    case OutsideQuery => s.(handle := IssueQuery(s.handle))
    case Job => s.(handle := RunFirstJob(s.handle))
    case Advance(c) =>
      var (table, phase) := NextStatement(s, c);
      s.(handle := Act(s.handle, Work(c)), table := table, calls := s.calls[c := phase])
    case Finish(c) => s.(handle := ReleaseLease(s.handle, c))
  }

  // ---------------------------------------------------------------- the invariant

  predicate Creator(p: Phase) {
    p.Inserted? || ((p.Selected? || p.Committed?) && p.wasCreated)
  }

  /** When the key was free: before the row exists nobody is past the search; afterwards exactly one call made
      it, and every call that got past the search has that row. */
  predicate NewRowAgrees(s: System, before: Table)
    requires IdField in s.fields
  {
    var id := s.fields[IdField];
    && (s.table == before || s.table == before[id := NewRow(s)])
    && (id !in s.table ==> forall c | 0 <= c < |s.calls| ::
          s.calls[c] == Opening || s.calls[c] == Begun || s.calls[c] == Missing)
    && (id in s.table ==> exists c :: 0 <= c < |s.calls| && Creator(s.calls[c]))
    && (forall c, d | 0 <= c < |s.calls| && 0 <= d < |s.calls| ::
          Creator(s.calls[c]) && Creator(s.calls[d]) ==> c == d)
    && (forall c | 0 <= c < |s.calls| ::
          match s.calls[c]
          case Missing => id !in s.table
          case Selected(row, _) => row == NewRow(s)
          case Committed(row, _) => row == NewRow(s)
          case Failed => false
          case _ => true)
  }

  /** When the key was taken: nobody changes the table, and the row under the key decides every call. */
  predicate OldRowAgrees(s: System, before: Table)
    requires IdField in s.fields && s.fields[IdField] in before
  {
    var row := before[s.fields[IdField]];
    && s.table == before
    && forall c | 0 <= c < |s.calls| ::
         match s.calls[c]
         case Opening => true
         case Begun => true
         case Inserted => false
         case Selected(found, wasCreated) => Matches(row, s.fields) && found == row && !wasCreated
         case Committed(found, wasCreated) => Matches(row, s.fields) && found == row && !wasCreated
         case _ => !Matches(row, s.fields)
  }

  predicate TableAgrees(s: System, before: Table) {
    IdField in s.fields
    && if s.fields[IdField] in before then OldRowAgrees(s, before) else NewRowAgrees(s, before)
  }

  /** Calls without the lease have not begun or have ended. */
  predicate PhasesAgree(h: Handle, calls: seq<Phase>) {
    && |calls| == |h.leases|
    && (forall c | 0 <= c < |calls| :: h.leases[c].Waiting? ==> calls[c] == Opening)
    && (forall c | 0 <= c < |calls| :: h.leases[c].Done? ==> Ended(calls[c]))
  }

  ghost predicate SystemInv(s: System, before: Table, granted: nat) {
    Inv(s.handle, granted) && PhasesAgree(s.handle, s.calls) && TableAgrees(s, before)
  }

  lemma RequestLeases(h: Handle, granted: nat)
    requires Inv(h, granted)
    ensures WellFormed(h) && Inv(RequestLease(h), granted)
    ensures var next := RequestLease(h);
            && |next.leases| == |h.leases| + 1 && next.leases[|h.leases|].Waiting?
            && forall c | 0 <= c < |h.leases| :: next.leases[c] == h.leases[c]
  {
    RequestKeepsInv(h, granted);
    RequestShape(h, granted);
    assert forall c | 0 <= c < |h.leases| :: RequestLease(h).leases[..|h.leases|][c] == RequestLease(h).leases[c];
  }

  lemma PhasesGrow(h: Handle, next: Handle, calls: seq<Phase>)
    requires PhasesAgree(h, calls)
    requires |next.leases| == |h.leases| + 1 && next.leases[|h.leases|].Waiting?
    requires forall c | 0 <= c < |h.leases| :: next.leases[c] == h.leases[c]
    ensures PhasesAgree(next, calls + [Opening])
  {
    assert forall c | 0 <= c < |calls| :: (calls + [Opening])[c] == calls[c];
  }

  lemma CallKeeps(s: System, before: Table, granted: nat)
    requires SystemInv(s, before, granted)
    ensures SystemInv(Do(s, Call), before, granted)
  {
    RequestLeases(s.handle, granted);
    hide Inv, TableAgrees, PhasesAgree, RequestLease, WellFormed;
    PhasesGrow(s.handle, RequestLease(s.handle), s.calls);
    AppendAgrees(s, Do(s, Call), before);
  }

  lemma AppendAgrees(s: System, next: System, before: Table)
    requires TableAgrees(s, before) && next.calls == s.calls + [Opening]
    requires next.table == s.table && next.fields == s.fields && next.defaults == s.defaults
    ensures TableAgrees(next, before)
  {
    assert forall c | 0 <= c < |s.calls| :: next.calls[c] == s.calls[c];
    if s.fields[IdField] in s.table && s.fields[IdField] !in before {
      var c :| 0 <= c < |s.calls| && Creator(s.calls[c]);
      assert Creator(next.calls[c]);
    }
  }

  /** Everybody but the holder has not begun or has ended, whatever the holder does. */
  lemma HolderMayMove(h: Handle, calls: seq<Phase>, call: nat, phase: Phase)
    requires PhasesAgree(h, calls) && call < |calls| && h.leases[call].Held?
    ensures PhasesAgree(h, calls[call := phase])
  {
  }

  lemma OthersAreIdle(h: Handle, granted: nat, calls: seq<Phase>, call: nat, phase: Phase)
    requires Inv(h, granted) && PhasesAgree(h, calls) && call < |calls| && h.leases[call].Held?
    ensures forall c | 0 <= c < |calls| && c != call :: calls[c] == Opening || Ended(calls[c])
    ensures PhasesAgree(h, calls[call := phase])
  {
    HolderMayMove(h, calls, call, phase);
    assert Shape(h, granted);
    forall c | 0 <= c < |calls| && c != call ensures calls[c] == Opening || Ended(calls[c]) {
      assert h.leases[c].Waiting? || h.leases[c].Done?;
    }
  }

  lemma AdvanceKeeps(s: System, before: Table, granted: nat, call: nat)
    requires SystemInv(s, before, granted) && Possible(s, Advance(call))
    ensures SystemInv(Do(s, Advance(call)), before, granted)
  {
    WorkKeepsInv(s.handle, granted, call);
    var next := Do(s, Advance(call));
    OthersAreIdle(s.handle, granted, s.calls, call, NextStatement(s, call).1);
    AdvanceAgrees(s, next, before, call);
  }

  /** A call alone in its transaction keeps the table and the calls in agreement. */
  lemma AdvanceAgrees(s: System, next: System, before: Table, call: nat)
    requires TableAgrees(s, before) && call < |s.calls| && !Ended(s.calls[call])
    requires forall c | 0 <= c < |s.calls| && c != call :: s.calls[c] == Opening || Ended(s.calls[c])
    requires (next.table, next.calls) == (NextStatement(s, call).0, s.calls[call := NextStatement(s, call).1])
    requires next.fields == s.fields && next.defaults == s.defaults
    ensures TableAgrees(next, before)
  {
    if s.fields[IdField] in before { AdvanceOnOldRow(s, next, before, call); }
    else { AdvanceOnNewRow(s, next, before, call); }
  }

  lemma AdvanceOnOldRow(s: System, next: System, before: Table, call: nat)
    requires IdField in s.fields && s.fields[IdField] in before && OldRowAgrees(s, before)
    requires call < |s.calls| && !Ended(s.calls[call])
    requires (next.table, next.calls) == (NextStatement(s, call).0, s.calls[call := NextStatement(s, call).1])
    requires next.fields == s.fields && next.defaults == s.defaults
    ensures OldRowAgrees(next, before)
  {
    hide Matches, NewRow;
  }

  lemma AdvanceOnNewRow(s: System, next: System, before: Table, call: nat)
    requires IdField in s.fields && s.fields[IdField] !in before && NewRowAgrees(s, before)
    requires call < |s.calls| && !Ended(s.calls[call])
    requires forall c | 0 <= c < |s.calls| && c != call :: s.calls[c] == Opening || Ended(s.calls[c])
    requires (next.table, next.calls) == (NextStatement(s, call).0, s.calls[call := NextStatement(s, call).1])
    requires next.fields == s.fields && next.defaults == s.defaults
    ensures NewRowAgrees(next, before)
  {
    var id := s.fields[IdField];
    assert Matches(NewRow(s), s.fields);
    hide Matches;
    assert NewRow(next) == NewRow(s);
    hide NewRow;
    if id in s.table {
      assert s.table[id] == NewRow(s);
      var c :| 0 <= c < |s.calls| && Creator(s.calls[c]);
      assert Creator(next.calls[c]);
    } else if s.calls[call] == Missing {
      assert Creator(next.calls[call]);
    }
  }

  lemma WakesTheNext(h: Handle, granted: nat)
    requires Inv(h, granted) && h.jobs != [] && h.jobs[0].Wake?
    ensures h.jobs[0] == Wake(granted) && granted < |h.leases| && h.leases[granted].Waiting?
  {
    var queries := QueriesOf(h, granted);
    assert queries == [];
  }

  /** A lease only moves on from waiting to held in a job, and from held to done in a release. */
  lemma JobLeases(h: Handle, granted: nat)
    requires Inv(h, granted) && h.jobs != []
    ensures var next := RunFirstJob(h);
            && |next.leases| == |h.leases|
            && forall c | 0 <= c < |h.leases| ::
                 next.leases[c] == h.leases[c] || (h.leases[c].Waiting? && next.leases[c].Held?)
  {
    InvIsWellFormed(h, granted);
    hide Inv;
    if h.jobs[0].Wake? { WakesTheNext(h, granted); }
  }

  lemma ReleaseLeases(h: Handle, granted: nat, call: nat)
    requires Inv(h, granted) && call < |h.leases| && h.leases[call].Held?
    ensures var next := ReleaseLease(h, call);
            && Inv(next, granted) && |next.leases| == |h.leases| && next.leases[call].Done?
            && forall c | 0 <= c < |h.leases| && c != call :: next.leases[c] == h.leases[c]
  {
    ReleaseKeepsInv(h, granted, call);
    ReleaseEffect(h, granted, call);
  }

  lemma HandleKeeps(s: System, next: System, before: Table, granted: nat)
    requires TableAgrees(s, before) && Inv(next.handle, granted) && PhasesAgree(next.handle, s.calls)
    requires next.table == s.table && next.calls == s.calls && next.fields == s.fields && next.defaults == s.defaults
    ensures SystemInv(next, before, granted)
  {
    hide Inv, PhasesAgree;
  }

  lemma InvIsWellFormed(h: Handle, granted: nat)
    requires Inv(h, granted)
    ensures WellFormed(h)
  {
  }

  lemma PhasesAfterQuery(h: Handle, calls: seq<Phase>)
    requires WellFormed(h) && PhasesAgree(h, calls)
    ensures PhasesAgree(IssueQuery(h), calls)
  {
  }

  lemma OutsideQueryKeeps(s: System, before: Table, granted: nat)
    requires SystemInv(s, before, granted)
    ensures SystemInv(Do(s, OutsideQuery), before, granted)
  {
    InvIsWellFormed(s.handle, granted);
    hide Inv, TableAgrees, IssueQuery, WellFormed, PhasesAgree;
    QueryKeepsInv(s.handle, granted);
    PhasesAfterQuery(s.handle, s.calls);
    HandleKeeps(s, Do(s, OutsideQuery), before, granted);
  }

  /** Leases that were waiting may be held now, the others are as they were. */
  lemma PhasesAfterJob(h: Handle, next: Handle, calls: seq<Phase>)
    requires PhasesAgree(h, calls) && |next.leases| == |h.leases|
    requires forall c | 0 <= c < |h.leases| ::
               next.leases[c] == h.leases[c] || (h.leases[c].Waiting? && next.leases[c].Held?)
    ensures PhasesAgree(next, calls)
  {
  }

  lemma JobKeeps(s: System, before: Table, granted: nat)
    requires SystemInv(s, before, granted) && s.handle.jobs != []
    ensures SystemInv(Do(s, Job), before, granted) || SystemInv(Do(s, Job), before, granted + 1)
  {
    InvIsWellFormed(s.handle, granted);
    assert Do(s, Job) == s.(handle := RunFirstJob(s.handle));
    hide Inv, TableAgrees, PhasesAgree, WellFormed, RunFirstJob, Do;
    JobKeepsInv(s.handle, granted);
    JobLeases(s.handle, granted);
    PhasesAfterJob(s.handle, RunFirstJob(s.handle), s.calls);
    HandleKeeps(s, Do(s, Job), before, if s.handle.jobs[0].Wake? then granted + 1 else granted);
  }

  /** A call that has ended may give its lease back. */
  lemma PhasesAfterRelease(h: Handle, next: Handle, calls: seq<Phase>, call: nat)
    requires PhasesAgree(h, calls) && call < |calls| && Ended(calls[call])
    requires |next.leases| == |h.leases| && next.leases[call].Done?
    requires forall c | 0 <= c < |h.leases| && c != call :: next.leases[c] == h.leases[c]
    ensures PhasesAgree(next, calls)
  {
  }

  lemma FinishKeeps(s: System, before: Table, granted: nat, call: nat)
    requires SystemInv(s, before, granted) && Possible(s, Finish(call))
    ensures SystemInv(Do(s, Finish(call)), before, granted)
  {
    InvIsWellFormed(s.handle, granted);
    hide Inv, TableAgrees, ReleaseLease, WellFormed;
    ReleaseLeases(s.handle, granted, call);
    PhasesAfterRelease(s.handle, ReleaseLease(s.handle, call), s.calls, call);
    hide PhasesAgree;
    HandleKeeps(s, Do(s, Finish(call)), before, granted);
  }

  lemma MoveKeeps(s: System, before: Table, granted: nat, m: Move)
    requires SystemInv(s, before, granted) && Possible(s, m)
    ensures SystemInv(Do(s, m), before, granted) || SystemInv(Do(s, m), before, granted + 1)
  {
    match m
    case Call => CallKeeps(s, before, granted);
    case OutsideQuery => OutsideQueryKeeps(s, before, granted);
    case Job => JobKeeps(s, before, granted);
    case Advance(c) => AdvanceKeeps(s, before, granted, c);
    case Finish(c) => FinishKeeps(s, before, granted, c);
  }

  /** While a request is not done, a job is due or somebody holds the lease. */
  lemma JobOrHolder(h: Handle, granted: nat, request: nat)
    requires Inv(h, granted) && request < |h.leases| && !h.leases[request].Done?
    ensures h.jobs != [] || HasHolder(h, granted)
  {
    if !HasHolder(h, granted) {
      assert h.leases[request].Waiting?;
      assert DueWake(h, granted) == [Wake(granted)];
      assert Queue(h, granted);
    }
  }

  lemma SomethingIsPossible(s: System, granted: nat)
    requires |s.calls| == |s.handle.leases| && granted <= |s.calls|
    requires s.handle.jobs != [] || HasHolder(s.handle, granted)
    ensures exists m: Move :: (m.Job? || m.Advance? || m.Finish?) && Possible(s, m)
  {
    var m := if s.handle.jobs != [] then Job
             else if Ended(s.calls[granted - 1]) then Finish(granted - 1) else Advance(granted - 1);
    assert Possible(s, m);
  }

  // ---------------------------------------------------------------- runs

  function Start(before: Table, fields: Row, defaults: Row): System {
    System(Fresh, before, [], fields, defaults)
  }

  /** A run: every move was possible when it was made. */
  function RunMoves(start: System, moves: seq<Move>): Option<System> {
    if moves == [] then Some(start) else
      var r := RunMoves(start, moves[..|moves| - 1]);
      var m := moves[|moves| - 1];
      if r.Some? && |r.value.calls| == |r.value.handle.leases| && WellFormed(r.value.handle)
         && IdField in r.value.fields && Possible(r.value, m)
      then Some(Do(r.value, m)) else None
  }

  lemma StartHolds(before: Table, fields: Row, defaults: Row)
    requires IdField in fields
    ensures SystemInv(Start(before, fields, defaults), before, 0)
  {
    hide Inv;
    FreshInv();
  }

  lemma {:induction false} RunMovesKeeps(before: Table, fields: Row, defaults: Row, moves: seq<Move>)
    requires IdField in fields
    requires RunMoves(Start(before, fields, defaults), moves).Some?
    ensures exists granted :: SystemInv(RunMoves(Start(before, fields, defaults), moves).value, before, granted)
    ensures RunMoves(Start(before, fields, defaults), moves).value.fields == fields
    ensures RunMoves(Start(before, fields, defaults), moves).value.defaults == defaults
  {
    var start := Start(before, fields, defaults);
    if moves == [] {
      StartHolds(before, fields, defaults);
    } else {
      hide SystemInv, Inv;
      RunMovesKeeps(before, fields, defaults, moves[..|moves| - 1]);
      var s := RunMoves(start, moves[..|moves| - 1]).value;
      var granted :| SystemInv(s, before, granted);
      MoveKeeps(s, before, granted, moves[|moves| - 1]);
    }
  }

  /** No deadlock: in every run, while some call has not given its lease back, a queue job, the next statement
      of the holder or its release is possible. */
  lemma NeverStuck(before: Table, fields: Row, defaults: Row, moves: seq<Move>, call: nat)
    requires IdField in fields
    requires RunMoves(Start(before, fields, defaults), moves).Some?
    requires var s := RunMoves(Start(before, fields, defaults), moves).value;
             |s.calls| == |s.handle.leases| && call < |s.calls| && !s.handle.leases[call].Done?
    ensures var s := RunMoves(Start(before, fields, defaults), moves).value;
            exists m: Move :: (m.Job? || m.Advance? || m.Finish?) && Possible(s, m)
  {
    RunMovesKeeps(before, fields, defaults, moves);
    var s := RunMoves(Start(before, fields, defaults), moves).value;
    var granted :| SystemInv(s, before, granted);
    JobOrHolder(s.handle, granted, call);
    SomethingIsPossible(s, granted);
  }

  /** Every call returned `row`. */
  predicate AllReturned(calls: seq<Phase>, row: Row) {
    forall c | 0 <= c < |calls| :: calls[c].Committed? && calls[c].row == row
  }

  /** `creator` and nobody else reports `wasCreated`. */
  predicate OnlyCreator(calls: seq<Phase>, creator: nat) {
    creator < |calls|
    && forall c | 0 <= c < |calls| :: calls[c].Committed? && (calls[c].wasCreated <==> c == creator)
  }

  /** What any number of concurrent calls come to, in any interleaving, once all have ended. If the key was free
      the table has gained exactly one row, every call returned it, and exactly one reports that it created it.
      If it held a matching row, every call returned that one and none created anything. If it held another row,
      every call failed. In the last two cases the table is as it was. */
  lemma OneRowOneCreator(before: Table, fields: Row, defaults: Row, moves: seq<Move>)
    requires IdField in fields
    requires RunMoves(Start(before, fields, defaults), moves).Some?
    requires var s := RunMoves(Start(before, fields, defaults), moves).value;
             s.calls != [] && forall c | 0 <= c < |s.calls| :: Ended(s.calls[c])
    ensures var s, id := RunMoves(Start(before, fields, defaults), moves).value, fields[IdField];
            if id !in before then
              s.table == before[id := defaults + fields]
              && AllReturned(s.calls, defaults + fields) && exists creator :: OnlyCreator(s.calls, creator)
            else if forall k | k in fields :: k in before[id] && before[id][k] == fields[k] then
              s.table == before && AllReturned(s.calls, before[id])
              && forall c | 0 <= c < |s.calls| :: !s.calls[c].wasCreated
            else s.table == before && forall c | 0 <= c < |s.calls| :: s.calls[c].Failed?
  {
    RunMovesKeeps(before, fields, defaults, moves);
    var s := RunMoves(Start(before, fields, defaults), moves).value;
    if fields[IdField] !in before { AgreementWhenEnded(s, before); }
  }

  lemma AgreementWhenEnded(s: System, before: Table)
    requires IdField in s.fields && s.fields[IdField] !in before && NewRowAgrees(s, before)
    requires s.calls != [] && forall c | 0 <= c < |s.calls| :: Ended(s.calls[c])
    ensures s.table == before[s.fields[IdField] := NewRow(s)]
    ensures AllReturned(s.calls, NewRow(s))
    ensures exists creator :: OnlyCreator(s.calls, creator)
  {
    assert Ended(s.calls[0]);
    var creator: nat :| creator < |s.calls| && Creator(s.calls[creator]);
    forall c | 0 <= c < |s.calls| ensures s.calls[c].Committed? && (s.calls[c].wasCreated <==> c == creator) {
      assert Ended(s.calls[c]);
      assert s.calls[c].wasCreated <==> Creator(s.calls[c]);
    }
    assert OnlyCreator(s.calls, creator);
  }

  // ---------------------------------------------------------------- every run comes to rest

  /** How many statements a call may still execute. */
  function Left(p: Phase): nat {
    match p
    case Opening => 5
    case Begun => 4
    case Missing => 3
    case Inserted => 2
    case Selected(_, _) => 1
    case Committed(_, _) => 0
    case Failed => 0
  }

  function LeaseLeft(l: Lease): nat {
    if l.Waiting? then 2 else if l.Held? then 1 else 0
  }

  /** What is left to do for the first `n` calls: statements, grants and releases. */
  function LeftToDo(s: System, n: nat): nat
    requires n <= |s.calls| == |s.handle.leases|
  {
    if n == 0 then 0 else LeftToDo(s, n - 1) + Left(s.calls[n - 1]) + LeaseLeft(s.handle.leases[n - 1])
  }

  function LeftAt(s: System, c: nat): nat
    requires c < |s.calls| == |s.handle.leases|
  {
    Left(s.calls[c]) + LeaseLeft(s.handle.leases[c])
  }

  lemma {:induction false} LessToDo(s: System, next: System, n: nat, c: nat)
    requires c < |s.calls| == |s.handle.leases| == |next.calls| == |next.handle.leases| && n <= |s.calls|
    requires forall d | 0 <= d < n && d != c :: LeftAt(next, d) <= LeftAt(s, d)
    requires LeftAt(next, c) < LeftAt(s, c)
    ensures LeftToDo(next, n) <= LeftToDo(s, n)
    ensures c < n ==> LeftToDo(next, n) < LeftToDo(s, n)
  {
    if n > 0 {
      LessToDo(s, next, n - 1, c);
      assert LeftAt(next, n - 1) == Left(next.calls[n - 1]) + LeaseLeft(next.handle.leases[n - 1]);
      assert LeftAt(s, n - 1) == Left(s.calls[n - 1]) + LeaseLeft(s.handle.leases[n - 1]);
    }
  }

  lemma {:induction false} SameToDo(s: System, next: System, n: nat)
    requires |s.calls| == |s.handle.leases| && n <= |s.calls|
    requires next.calls == s.calls && next.handle.leases == s.handle.leases
    ensures LeftToDo(next, n) == LeftToDo(s, n)
  {
    if n > 0 { SameToDo(s, next, n - 1); }
  }

  /** What a job does: it grants the next lease, or it is one job less. */
  lemma JobGrants(h: Handle, granted: nat)
    requires Inv(h, granted) && h.jobs != []
    ensures var next := RunFirstJob(h);
            if h.jobs[0].Wake? then
              && granted < |h.leases| && h.leases[granted].Waiting?
              && |next.leases| == |h.leases| && next.leases[granted].Held?
              && forall c | 0 <= c < |h.leases| && c != granted :: next.leases[c] == h.leases[c]
            else next.leases == h.leases && |next.jobs| < |h.jobs|
  {
    InvIsWellFormed(h, granted);
    if h.jobs[0].Wake? { WakesTheNext(h, granted); }
    hide Inv;
  }

  /** A statement brings its call nearer to its end. */
  lemma StatementCounts(s: System, before: Table, call: nat)
    requires TableAgrees(s, before) && call < |s.calls| && !Ended(s.calls[call])
    ensures Left(NextStatement(s, call).1) < Left(s.calls[call])
  {
  }

  /** Less to do for one call and no more for the others, or a job less. */
  predicate IsNearer(s: System, next: System)
    requires |s.calls| == |s.handle.leases|
  {
    && |next.calls| == |next.handle.leases| == |s.calls|
    && (LeftToDo(next, |s.calls|) < LeftToDo(s, |s.calls|)
        || (LeftToDo(next, |s.calls|) == LeftToDo(s, |s.calls|) && |next.handle.jobs| < |s.handle.jobs|))
  }

  lemma JobCounts(s: System, before: Table, granted: nat)
    requires SystemInv(s, before, granted) && s.handle.jobs != [] && WellFormed(s.handle)
    ensures IsNearer(s, Do(s, Job))
  {
    var next := Do(s, Job);
    assert next == s.(handle := RunFirstJob(s.handle));
    hide Inv, TableAgrees, WellFormed, RunFirstJob, PhasesAgree, Do, LeftToDo;
    JobGrants(s.handle, granted);
    if s.handle.jobs[0].Wake? { LessToDo(s, next, |s.calls|, granted); } else { SameToDo(s, next, |s.calls|); }
  }

  lemma AdvanceCounts(s: System, before: Table, granted: nat, c: nat)
    requires SystemInv(s, before, granted) && Possible(s, Advance(c)) && WellFormed(s.handle)
    ensures IsNearer(s, Do(s, Advance(c)))
  {
    var next, phase := Do(s, Advance(c)), NextStatement(s, c).1;
    StatementCounts(s, before, c);
    assert next.calls == s.calls[c := phase] && next.handle.leases == s.handle.leases;
    hide Inv, TableAgrees, WellFormed, PhasesAgree, NextStatement, Left, Ended, Do, LeftToDo;
    LessToDo(s, next, |s.calls|, c);
  }

  lemma FinishCounts(s: System, before: Table, granted: nat, c: nat)
    requires SystemInv(s, before, granted) && Possible(s, Finish(c)) && WellFormed(s.handle)
    ensures IsNearer(s, Do(s, Finish(c)))
  {
    var next := Do(s, Finish(c));
    assert next == s.(handle := ReleaseLease(s.handle, c));
    hide Inv, TableAgrees, WellFormed, PhasesAgree, ReleaseLease, Do, LeftToDo;
    ReleaseLeases(s.handle, granted, c);
    LessToDo(s, next, |s.calls|, c);
  }

  lemma MoveCounts(s: System, before: Table, granted: nat, m: Move)
    requires SystemInv(s, before, granted) && Possible(s, m) && !m.Call? && !m.OutsideQuery?
    ensures IsNearer(s, Do(s, m))
  {
    InvIsWellFormed(s.handle, granted);
    match m
    case Job => JobCounts(s, before, granted);
    case Advance(c) => AdvanceCounts(s, before, granted, c);
    case Finish(c) => FinishCounts(s, before, granted, c);
  }

  /** Every run comes to rest: wherever it has got to, each move other than a new call or an outside query leaves
      fewer statements, grants and releases to do, or as many and a job less. */
  lemma EveryMoveCounts(before: Table, fields: Row, defaults: Row, moves: seq<Move>, m: Move)
    requires IdField in fields && !m.Call? && !m.OutsideQuery?
    requires RunMoves(Start(before, fields, defaults), moves).Some?
    requires RunMoves(Start(before, fields, defaults), moves + [m]).Some?
    ensures var s := RunMoves(Start(before, fields, defaults), moves).value;
            var next, n := RunMoves(Start(before, fields, defaults), moves + [m]).value, |s.calls|;
            && |s.handle.leases| == |next.calls| == |next.handle.leases| == n
            && (LeftToDo(next, n) < LeftToDo(s, n)
                || (LeftToDo(next, n) == LeftToDo(s, n) && |next.handle.jobs| < |s.handle.jobs|))
  {
    assert (moves + [m])[..|moves|] == moves;
    var s := RunMoves(Start(before, fields, defaults), moves).value;
    RunMovesKeeps(before, fields, defaults, moves);
    var granted :| SystemInv(s, before, granted);
    hide SystemInv, Do, Possible;
    MoveCounts(s, before, granted, m);
  }
}
