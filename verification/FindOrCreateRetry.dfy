/** One retried `findOrCreate` call and the `fields` object its attempts share (lib/dbh.js, lib/transactions.js). */
module FindOrCreateRetry {
  import opened Wrappers

  /** A row without its NULL columns. */
  type Row = map<string, string>

  /** What the caller wants; `None` is a null. */
  type Fields = map<string, Option<string>>

  const IdField := "id"

  /** The caller's object: `create` writes the new id into it. */
  class FieldsObject {
    var values: Fields

    constructor (fields: Fields)
      ensures values == fields
    {
      values := fields;
    }
  }

  /** Where an attempt fails, and whether the retry loop takes that failure up: before `create` is reached
      (acquiring, BEGIN, the search), at the INSERT, or behind it (the SELECT of the new row, COMMIT). */
  datatype Fault =
    | NoFault
    | BeforeCreate(retryable: bool)
    | AtInsert(retryable: bool)
    | AfterInsert(retryable: bool)

  /** One attempt: the table its transaction sees, the id its generator or its INSERT would give, the remaining
      columns of a new row, and its failure. */
  datatype Try = Try(table: seq<Row>, generated: string, insertId: string, defaults: Row, fault: Fault)

  datatype End = Found(row: Row) | Created(row: Row) | Again | Failed

  function Column(row: Row, name: string): Option<string> {
    if name in row then Some(row[name]) else None
  }

  /** `column = :value`, or `column is NULL` for a null. */
  predicate Matches(row: Row, fields: Fields) {
    forall k | k in fields :: Column(row, k) == fields[k]
  }

  function FirstMatch(table: seq<Row>, fields: Fields): (found: Option<Row>)
    ensures found.Some? <==> exists i :: 0 <= i < |table| && Matches(table[i], fields)
    ensures found.Some? ==> Matches(found.value, fields)
  {
    if table == [] then None
    else if Matches(table[0], fields) then Some(table[0])
    else
      var found := FirstMatch(table[1..], fields);
      assert forall i | 0 <= i < |table| - 1 :: table[1..][i] == table[i + 1];
      found
  }

  /** `search` with `limitOne`; without fields nothing is asked. */
  function Search(table: seq<Row>, fields: Fields): (found: Option<Row>)
    ensures found.Some? <==> fields != map[] && exists i :: 0 <= i < |table| && Matches(table[i], fields)
    ensures found.Some? ==> Matches(found.value, fields)
  {
    if fields == map[] then None else FirstMatch(table, fields)
  }

  /** An id that JavaScript takes for true. */
  predicate HasId(fields: Fields) {
    IdField in fields && fields[IdField].Some? && fields[IdField].value != ""
  }

  predicate Carries(table: seq<Row>, id: string) {
    exists i | 0 <= i < |table| :: Column(table[i], IdField) == Some(id)
  }

  /** What an INSERT of the fields stores. */
  function NewRow(fields: Fields, defaults: Row): Row {
    (map k | k in defaults && k !in fields :: defaults[k])
    + map k | k in fields && fields[k].Some? :: fields[k].value
  }

  function Broken(retryable: bool): End {
    if retryable then Again else Failed
  }

  // ---------------------------------------------------------------- one attempt

  /** The id an attempt writes into the object, if it gets that far. */
  function IdWritten(generates: bool, fields: Fields, t: Try): Option<string> {
    if HasId(fields) || t.fault.BeforeCreate? || Search(t.table, fields).Some? then None
    else if generates then Some(t.generated)
    else if t.fault.AtInsert? then None
    else Some(t.insertId)
  }

  function FieldsAfter(generates: bool, fields: Fields, t: Try): Fields {
    var id := IdWritten(generates, fields, t);
    if id.Some? then fields[IdField := id] else fields
  }

  /** The primary key the INSERT names, when it names one. */
  function KeyOf(generates: bool, fields: Fields, t: Try): Option<string> {
    if HasId(fields) then fields[IdField] else if generates then Some(t.generated) else None
  }

  function EndOf(generates: bool, fields: Fields, t: Try): End {
    if t.fault.BeforeCreate? then Broken(t.fault.retryable)
    else
      var found := Search(t.table, fields);
      if found.None? && t.fault.AtInsert? then Broken(t.fault.retryable)
      else if found.None? && KeyOf(generates, fields, t).Some? && Carries(t.table, KeyOf(generates, fields, t).value)
      then Failed
      else if t.fault.AfterInsert? then Broken(t.fault.retryable)
      else if found.Some? then Found(found.value)
      else Created(NewRow(FieldsAfter(generates, fields, t), t.defaults))
  }

  /** `create`: the id is written before the INSERT when ids are generated, behind it when the database gives
      them. */
  method Create(fields: FieldsObject, generates: bool, t: Try) returns (end: End)
    requires !t.fault.BeforeCreate? && Search(t.table, fields.values).None?
    requires t.generated != ""
    modifies fields
    ensures end == EndOf(generates, old(fields.values), t)
    ensures fields.values == FieldsAfter(generates, old(fields.values), t)
  {
    if generates && !HasId(fields.values) {
      fields.values := fields.values[IdField := Some(t.generated)];
    }
    if t.fault.AtInsert? { return Broken(t.fault.retryable); }
    if HasId(fields.values) && Carries(t.table, fields.values[IdField].value) { return Failed; }
    if !HasId(fields.values) {
      fields.values := fields.values[IdField := Some(t.insertId)];
    }
    if t.fault.AfterInsert? { return Broken(t.fault.retryable); }
    return Created(NewRow(fields.values, t.defaults));
  }

  /** The callback of the transaction. */
  method Execute(fields: FieldsObject, generates: bool, t: Try) returns (end: End)
    requires t.generated != ""
    modifies fields
    ensures end == EndOf(generates, old(fields.values), t)
    ensures fields.values == FieldsAfter(generates, old(fields.values), t)
  {
    if t.fault.BeforeCreate? { return Broken(t.fault.retryable); }
    var found := Search(t.table, fields.values);
    if found.None? {
      end := Create(fields, generates, t);
    } else {
      end := if t.fault.AfterInsert? then Broken(t.fault.retryable) else Found(found.value);
    }
  }

  // ---------------------------------------------------------------- all attempts

  predicate IdsAreTruthy(tries: seq<Try>) {
    forall i | 0 <= i < |tries| :: tries[i].generated != "" && tries[i].insertId != ""
  }

  /** What the object holds when attempt `k` starts. */
  function FieldsAt(generates: bool, fields: Fields, tries: seq<Try>, k: nat): Fields
    requires k <= |tries|
  {
    if k == 0 then fields else FieldsAfter(generates, FieldsAt(generates, fields, tries, k - 1), tries[k - 1])
  }

  /** Attempt `j` is the first that gets to write an id, searching with what the caller gave. */
  predicate WritesFirst(generates: bool, fields: Fields, tries: seq<Try>, j: nat)
    requires j < |tries|
  {
    && IdWritten(generates, fields, tries[j]).Some?
    && forall i | 0 <= i < j :: IdWritten(generates, fields, tries[i]).None?
  }

  /** All attempts before `k` failed and were taken up again. */
  predicate Reached(generates: bool, fields: Fields, tries: seq<Try>, k: nat)
    requires k <= |tries|
  {
    forall j | 0 <= j < k :: EndOf(generates, FieldsAt(generates, fields, tries, j), tries[j]).Again?
  }

  /** The object is the caller's until the first attempt that gets to write an id, and never changes again. */
  lemma {:induction false} FieldsAtIs(generates: bool, fields: Fields, tries: seq<Try>, k: nat)
    requires k <= |tries| && IdsAreTruthy(tries)
    ensures (forall j | 0 <= j < k :: IdWritten(generates, fields, tries[j]).None?)
            ==> FieldsAt(generates, fields, tries, k) == fields
    ensures forall j | 0 <= j < k && WritesFirst(generates, fields, tries, j) ::
              FieldsAt(generates, fields, tries, k) == fields[IdField := IdWritten(generates, fields, tries[j])]
    decreases k
  {
    if k > 0 {
      hide IdWritten;
      FieldsAtIs(generates, fields, tries, k - 1);
      var before := FieldsAt(generates, fields, tries, k - 1);
      WritesOnce(generates, before, tries[k - 1]);
      forall j | 0 <= j < k && WritesFirst(generates, fields, tries, j)
        ensures FieldsAt(generates, fields, tries, k) == fields[IdField := IdWritten(generates, fields, tries[j])]
      {
        IdsWrittenAreTruthy(generates, fields, tries[j]);
        if j == k - 1 { assert before == fields; }
      }
    }
  }

  /** A missing, null or empty id is written, from the generator or by the database; any other is kept. */
  lemma IdIsWrittenExactlyWhen(generates: bool, fields: Fields, t: Try)
    requires t.fault.NoFault? && Search(t.table, fields).None?
    ensures FieldsAfter(generates, fields, t)
            == if IdField !in fields || fields[IdField] == None || fields[IdField] == Some("")
               then fields[IdField := Some(if generates then t.generated else t.insertId)] else fields
  {
  }

  lemma WritesOnce(generates: bool, fields: Fields, t: Try)
    ensures HasId(fields) ==> FieldsAfter(generates, fields, t) == fields
  {
  }

  lemma IdsWrittenAreTruthy(generates: bool, fields: Fields, t: Try)
    requires t.generated != "" && t.insertId != ""
    ensures var id := IdWritten(generates, fields, t);
            id.Some? ==> id.value != "" && !HasId(fields) && HasId(fields[IdField := id])
  {
  }

  lemma FirstWriter(generates: bool, fields: Fields, tries: seq<Try>, k: nat, j: nat)
    requires j < k <= |tries| && IdWritten(generates, fields, tries[j]).Some?
    ensures exists i: nat :: i < k && WritesFirst(generates, fields, tries, i)
    decreases j
  {
    if i: nat :| i < j && IdWritten(generates, fields, tries[i]).Some? {
      FirstWriter(generates, fields, tries, k, i);
    } else {
      assert WritesFirst(generates, fields, tries, j);
    }
  }

  /** With an id written by an earlier attempt, an attempt inserts exactly when nothing fails and no row has that
      id: every row that lacks it is overlooked. */
  lemma InsertsWithId(generates: bool, fields: Fields, id: string, t: Try)
    requires id != ""
    ensures EndOf(generates, fields[IdField := Some(id)], t).Created? <==> t.fault.NoFault? && !Carries(t.table, id)
  {
    var mutated := fields[IdField := Some(id)];
    forall i | 0 <= i < |t.table| && Matches(t.table[i], mutated) ensures Carries(t.table, id) {
      assert IdField in mutated;
    }
  }

  /** The condition of a duplicate: the caller gave no id, an earlier attempt got to write one, the table of
      attempt `k` holds a row the caller's fields describe but none with that id, and nothing fails any more. */
  predicate OverlooksRow(generates: bool, fields: Fields, tries: seq<Try>, k: nat)
    requires k < |tries|
  {
    && !HasId(fields) && tries[k].fault.NoFault? && Search(tries[k].table, fields).Some?
    && exists j | 0 <= j < k :: WritesFirst(generates, fields, tries, j)
                                && !Carries(tries[k].table, IdWritten(generates, fields, tries[j]).value)
  }

  /** An attempt inserts although its table holds a row matching what the caller gave exactly when it overlooks
      that row; a first attempt never does. */
  lemma DuplicatesExactlyWhen(generates: bool, fields: Fields, tries: seq<Try>, k: nat)
    requires k < |tries| && IdsAreTruthy(tries)
    ensures EndOf(generates, FieldsAt(generates, fields, tries, k), tries[k]).Created?
              && Search(tries[k].table, fields).Some?
            <==> OverlooksRow(generates, fields, tries, k)
  {
    FieldsAtIs(generates, fields, tries, k);
    if j: nat :| j < k && IdWritten(generates, fields, tries[j]).Some? {
      FirstWriter(generates, fields, tries, k, j);
      var i: nat :| i < k && WritesFirst(generates, fields, tries, i);
      OnlyFirst(generates, fields, tries, k, i);
    } else {
      assert FieldsAt(generates, fields, tries, k) == fields;
    }
  }

  lemma OnlyFirst(generates: bool, fields: Fields, tries: seq<Try>, k: nat, i: nat)
    requires i < k < |tries| && IdsAreTruthy(tries) && WritesFirst(generates, fields, tries, i)
    requires FieldsAt(generates, fields, tries, k) == fields[IdField := IdWritten(generates, fields, tries[i])]
    ensures EndOf(generates, FieldsAt(generates, fields, tries, k), tries[k]).Created?
              && Search(tries[k].table, fields).Some?
            <==> OverlooksRow(generates, fields, tries, k)
  {
    hide EndOf, Carries, IdWritten, FieldsAt;
    var id := IdWritten(generates, fields, tries[i]);
    IdsWrittenAreTruthy(generates, fields, tries[i]);
    InsertsWithId(generates, fields, id.value, tries[k]);
    assert forall j | 0 <= j < k && WritesFirst(generates, fields, tries, j) :: j == i;
  }

  /** The row a call creates has what the caller gave, so beside an overlooked row it is the second one that
      does. */
  lemma CreatedRowMatches(generates: bool, fields: Fields, tries: seq<Try>, k: nat)
    requires k < |tries| && IdsAreTruthy(tries) && (IdField in fields ==> HasId(fields))
    ensures var end := EndOf(generates, FieldsAt(generates, fields, tries, k), tries[k]);
            end.Created? ==> Matches(end.row, fields)
  {
    hide IdWritten, Search, Carries;
    var given := FieldsAt(generates, fields, tries, k);
    var inserted := FieldsAfter(generates, given, tries[k]);
    assert inserted == FieldsAt(generates, fields, tries, k + 1);
    FieldsGrow(generates, fields, tries, k + 1);
    assert Matches(NewRow(inserted, tries[k].defaults), inserted);
    assert Matches(NewRow(inserted, tries[k].defaults), fields);
  }

  /** Nothing the caller gave is overwritten. */
  lemma {:induction false} FieldsGrow(generates: bool, fields: Fields, tries: seq<Try>, k: nat)
    requires k <= |tries| && (IdField in fields ==> HasId(fields))
    ensures var now := FieldsAt(generates, fields, tries, k);
            && (forall name | name in fields :: name in now && now[name] == fields[name])
            && (HasId(fields) ==> HasId(now))
    decreases k
  {
    if k > 0 {
      FieldsGrow(generates, fields, tries, k - 1);
      WritesOnce(generates, FieldsAt(generates, fields, tries, k - 1), tries[k - 1]);
    }
  }

  /** The retry loop. `tries` says how each attempt would go, the last one being the last allowed. */
  method ExecuteAttempt(fields: FieldsObject, generates: bool, tries: seq<Try>, attempt: nat, ghost given: Fields)
    returns (end: End, last: nat)
    requires attempt < |tries| && IdsAreTruthy(tries)
    requires fields.values == FieldsAt(generates, given, tries, attempt) && Reached(generates, given, tries, attempt)
    modifies fields
    ensures attempt <= last < |tries| && Reached(generates, given, tries, last)
    ensures end == EndOf(generates, FieldsAt(generates, given, tries, last), tries[last])
    ensures end.Again? ==> last == |tries| - 1
    ensures fields.values == FieldsAt(generates, given, tries, last + 1)
    decreases |tries| - attempt
  {
    hide EndOf, FieldsAfter;
    last := attempt;
    end := Execute(fields, generates, tries[attempt]);
    if end.Again? && attempt + 1 < |tries| {
      end, last := ExecuteAttempt(fields, generates, tries, attempt + 1, given);
    }
  }

  /** `findOrCreate`: it ends with the first attempt that is not taken up again, and creates a second row for
      fields that already have one exactly when that attempt overlooks it. */
  method RetriedFindOrCreate(fields: FieldsObject, generates: bool, tries: seq<Try>) returns (end: End, last: nat)
    requires tries != [] && IdsAreTruthy(tries)
    modifies fields
    ensures last < |tries| && Reached(generates, old(fields.values), tries, last)
    ensures end == EndOf(generates, FieldsAt(generates, old(fields.values), tries, last), tries[last])
    ensures end.Again? ==> last == |tries| - 1
    ensures end.Created? && Search(tries[last].table, old(fields.values)).Some?
            <==> OverlooksRow(generates, old(fields.values), tries, last)
  {
    hide EndOf, OverlooksRow;
    ghost var given := fields.values;
    end, last := ExecuteAttempt(fields, generates, tries, 0, given);
    DuplicatesExactlyWhen(generates, given, tries, last);
  }

  /** An attempt on an empty table that fails at its COMMIT has written its id. */
  lemma MissOnEmptyTable(generates: bool, fields: Fields, id: string)
    requires !HasId(fields)
    ensures var t := Try([], id, id, map[], AfterInsert(true));
            && IdWritten(generates, fields, t) == Some(id) && EndOf(generates, fields, t) == Again
            && FieldsAfter(generates, fields, t) == fields[IdField := Some(id)]
  {
  }

  /** Two attempts: the first misses on an empty table and fails at its COMMIT; meanwhile another connection makes
      the row; the second makes another one, whichever way ids are given. */
  lemma SecondRow(generates: bool, other: string, id: string)
    requires id != "" && other != id
    ensures var fields: Fields := map["name" := Some("a")];
            var tries := [Try([], id, id, map[], AfterInsert(true)),
                          Try([map["id" := other, "name" := "a"]], id, id, map[], NoFault)];
            && Reached(generates, fields, tries, 1) && OverlooksRow(generates, fields, tries, 1)
            && var end := EndOf(generates, FieldsAt(generates, fields, tries, 1), tries[1]);
               end.Created? && Matches(end.row, fields)
  {
    hide EndOf, FieldsAfter, IdWritten;
    var fields: Fields := map["name" := Some("a")];
    var row := map["id" := other, "name" := "a"];
    var tries := [Try([], id, id, map[], AfterInsert(true)), Try([row], id, id, map[], NoFault)];
    assert "name" in fields;
    assert Matches(tries[1].table[0], fields);
    MissOnEmptyTable(generates, fields, id);
    assert FieldsAt(generates, fields, tries, 0) == fields;
    assert WritesFirst(generates, fields, tries, 0);
    assert !Carries([row], id);
    DuplicatesExactlyWhen(generates, fields, tries, 1);
    CreatedRowMatches(generates, fields, tries, 1);
  }
}
