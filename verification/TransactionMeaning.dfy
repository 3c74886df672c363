/** What a transaction callback means for the database (lib/transactions.js). */
module TransactionMeaning {
  // Callbacks are trees of writes, throws and nested transaction calls; savepoints play no part here.

  import opened Wrappers

  type Rows = map<string, string>

  /** A thrown JavaScript value, as far as the transaction code looks at it. */
  datatype Thrown =
    | ErrorObject(code: string, sqlState: string, errno: int, cause: Option<Thrown>, transactionCommitted: bool)
    | Primitive(truthy: bool)
  {
    predicate Truthy() { ErrorObject? || truthy }
  }

  datatype Outcome = Returned | Threw(error: Thrown)

  /** `Nested` is a nested `transaction(callback, options)` call: `caught` says whether the enclosing
      callback swallows what it throws; the faults are errors raised by its SAVEPOINT and by its RELEASE
      statement. */
  datatype Statement =
    | Write(key: string, value: string)
    | Throw(error: Thrown)
    | Nested(body: seq<Statement>, withOptions: bool, caught: bool,
             savepointFault: Option<Thrown>, releaseFault: Option<Thrown>)

  const NestedOptionsError := ErrorObject("", "", 0, None, false)
  const ReadOnlyError := ErrorObject("SQLITE_READONLY", "", 0, None, false)

  /** The rows and the outcome after running a callback: a failed nested call puts back the rows it started
      from, and an error nobody catches ends the callback. */
  function Meaning(body: seq<Statement>, rows: Rows, readOnly: bool): (Rows, Outcome)
    decreases body
  {
    if body == [] then (rows, Returned)
    else
      match body[0]
      case Write(key, value) =>
        if readOnly then (rows, Threw(ReadOnlyError))
        else Meaning(body[1..], rows[key := value], readOnly)
      case Throw(error) => (rows, Threw(error))
      case _ =>
        var call := body[0];
        var (after, outcome) := NestedMeaning(call, rows, readOnly);
        if outcome.Threw? && !call.caught then (after, outcome)
        else Meaning(body[1..], after, readOnly)
  }

  function NestedMeaning(call: Statement, rows: Rows, readOnly: bool): (Rows, Outcome)
    requires call.Nested?
    decreases call
  {
    if call.withOptions then (rows, Threw(NestedOptionsError))
    else if call.savepointFault.Some? then (rows, Threw(call.savepointFault.value))
    else
      var (after, outcome) := Meaning(call.body, rows, readOnly);
      if outcome.Threw? then (rows, outcome)
      else if call.releaseFault.Some? then (rows, Threw(call.releaseFault.value))
      else (after, outcome)
  }

  // ---------------------------------------------------------------- surviving writes

  /** The writes that survive, in order, and the outcome; no rows are looked at. */
  function Survivors(body: seq<Statement>, readOnly: bool): (seq<(string, string)>, Outcome)
    decreases body
  {
    if body == [] then ([], Returned)
    else
      match body[0]
      case Write(key, value) =>
        if readOnly then ([], Threw(ReadOnlyError))
        else
          var (rest, outcome) := Survivors(body[1..], readOnly);
          ([(key, value)] + rest, outcome)
      case Throw(error) => ([], Threw(error))
      case _ =>
        var call := body[0];
        var (inner, outcome) := NestedSurvivors(call, readOnly);
        if outcome.Threw? && !call.caught then (inner, outcome)
        else
          var (rest, final) := Survivors(body[1..], readOnly);
          (inner + rest, final)
  }

  /** A nested call keeps all of its writes or none. */
  function NestedSurvivors(call: Statement, readOnly: bool): (seq<(string, string)>, Outcome)
    requires call.Nested?
    decreases call
  {
    if call.withOptions then ([], Threw(NestedOptionsError))
    else if call.savepointFault.Some? then ([], Threw(call.savepointFault.value))
    else
      var (writes, outcome) := Survivors(call.body, readOnly);
      if outcome.Threw? then ([], outcome)
      else if call.releaseFault.Some? then ([], Threw(call.releaseFault.value))
      else (writes, outcome)
  }

  function Apply(writes: seq<(string, string)>, rows: Rows): Rows {
    if writes == [] then rows else Apply(writes[1..], rows[writes[0].0 := writes[0].1])
  }

  lemma {:induction false} ApplyConcat(a: seq<(string, string)>, b: seq<(string, string)>, rows: Rows)
    ensures Apply(a + b, rows) == Apply(b, Apply(a, rows))
  {
    if a == [] {
      assert a + b == b;
    } else {
      assert (a + b)[1..] == a[1..] + b;
      ApplyConcat(a[1..], b, rows[a[0].0 := a[0].1]);
    }
  }

  /** Running a callback has the effect of its surviving writes, applied in order to the starting rows. */
  lemma {:induction false} MeaningIsSurvivors(body: seq<Statement>, rows: Rows, readOnly: bool)
    ensures Meaning(body, rows, readOnly).1 == Survivors(body, readOnly).1
    ensures Meaning(body, rows, readOnly).0 == Apply(Survivors(body, readOnly).0, rows)
    decreases body
  {
    if body != [] {
      match body[0]
      case Write(key, value) =>
        if !readOnly { MeaningIsSurvivors(body[1..], rows[key := value], readOnly); }
      case Throw(error) =>
      case _ =>
        var call := body[0];
        NestedMeaningIsSurvivors(call, rows, readOnly);
        var (inner, outcome) := NestedSurvivors(call, readOnly);
        if !(outcome.Threw? && !call.caught) {
          var after := NestedMeaning(call, rows, readOnly).0;
          MeaningIsSurvivors(body[1..], after, readOnly);
          ApplyConcat(inner, Survivors(body[1..], readOnly).0, rows);
        }
    }
  }

  lemma {:induction false} NestedMeaningIsSurvivors(call: Statement, rows: Rows, readOnly: bool)
    requires call.Nested?
    ensures NestedMeaning(call, rows, readOnly).1 == NestedSurvivors(call, readOnly).1
    ensures NestedMeaning(call, rows, readOnly).0 == Apply(NestedSurvivors(call, readOnly).0, rows)
    decreases call
  {
    if !call.withOptions && call.savepointFault.None? {
      MeaningIsSurvivors(call.body, rows, readOnly);
    }
  }

  /** A read-only transaction leaves no write behind. */
  lemma {:induction false} ReadOnlyWritesNothing(body: seq<Statement>)
    ensures Survivors(body, true).0 == []
    decreases body
  {
    if body != [] && body[0].Nested? {
      ReadOnlyNestedWritesNothing(body[0]);
      ReadOnlyWritesNothing(body[1..]);
    }
  }

  lemma {:induction false} ReadOnlyNestedWritesNothing(call: Statement)
    requires call.Nested?
    ensures NestedSurvivors(call, true).0 == []
    decreases call
  {
    ReadOnlyWritesNothing(call.body);
  }

  /** A nested call that succeeds is worth its body written in place: savepoints are transparent. */
  lemma NestedSuccessInlines(call: Statement, rest: seq<Statement>, readOnly: bool)
    requires call.Nested? && NestedSurvivors(call, readOnly).1 == Returned
    ensures Survivors([call] + rest, readOnly) == Survivors(call.body + rest, readOnly)
  {
    assert ([call] + rest)[1..] == rest;
    SurvivorsConcat(call.body, rest, readOnly);
  }

  /** A nested call whose failure is caught is worth nothing at all. */
  lemma NestedFailureVanishes(call: Statement, rest: seq<Statement>, readOnly: bool)
    requires call.Nested? && call.caught && NestedSurvivors(call, readOnly).1.Threw?
    ensures Survivors([call] + rest, readOnly) == Survivors(rest, readOnly)
  {
    assert ([call] + rest)[1..] == rest;
    var (inner, outcome) := NestedSurvivors(call, readOnly);
    assert inner == [];
    assert [] + Survivors(rest, readOnly).0 == Survivors(rest, readOnly).0;
  }

  lemma {:induction false} SurvivorsConcat(a: seq<Statement>, b: seq<Statement>, readOnly: bool)
    requires Survivors(a, readOnly).1 == Returned
    ensures Survivors(a + b, readOnly)
            == (Survivors(a, readOnly).0 + Survivors(b, readOnly).0, Survivors(b, readOnly).1)
    decreases |a|
  {
    if a == [] {
      assert a + b == b;
      assert [] + Survivors(b, readOnly).0 == Survivors(b, readOnly).0;
    } else {
      assert (a + b)[1..] == a[1..] + b;
      SurvivorsConcat(a[1..], b, readOnly);
      var head := match a[0] case Write(key, value) => [(key, value)] case Throw(e) => []
                  case _ => NestedSurvivors(a[0], readOnly).0;
      assert head + (Survivors(a[1..], readOnly).0 + Survivors(b, readOnly).0)
          == head + Survivors(a[1..], readOnly).0 + Survivors(b, readOnly).0;
    }
  }
}
