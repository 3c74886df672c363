/** The index part of schema sync (lib/sync-to-db.js): declared indexes are compared with the catalog by
    signature, created, rebuilt or dropped, and a second pass has nothing left to do. */
module IndexSync {
  import opened Wrappers
  import opened Words

  /** `cols` of an index spec: absent, a raw SQL column list, or columns. */
  datatype Cols = NoCols | RawSql(text: string) | Columns(list: seq<string>)

  datatype IndexSpec = IndexSpec(cols: Cols, fulltext: bool, unique: bool, where: Option<string>)

  /** What CREATE INDEX is asked for. */
  datatype Definition = Definition(columns: seq<string>, fulltext: bool, unique: bool, where: Option<string>)

  /** What buildIndexSignature serialises; two serialised signatures are equal exactly when these are. */
  datatype Signature = Signature(columns: seq<string>, fulltext: bool, unique: bool, where: Option<string>)

  /** A dialect, as far as sync looks at it. `dropsIfExists` says that its DROP INDEX does not mind a missing index.
      `column` checks and tidies one column of a (full-text) index; `desired` is the signature sync wants,
      `reported` the one the catalog reader gives back after CREATE INDEX, None when the server refuses that;
      `reportedRaw` is the same for a raw index. `inherited` are the names that every object has, and
      `readerGroups` says that the catalog reader collects its rows in a plain object. */
  datatype Dialect = Dialect(supportsFullText: bool, supportsPartial: bool, dropsIfExists: bool,
                             column: (string, bool) -> Option<string>,
                             desired: Definition -> Signature, reported: Definition -> Option<Signature>,
                             reportedRaw: string -> Option<Signature>,
                             inherited: set<string>, readerGroups: bool)

  datatype Decision = Leave | CreateRaw(text: string) | Manage(def: Definition)

  const PrimaryKey := "PRIMARY"

  // ---------------------------------------------------------------- gates

  /** The columns of an index if all of them are usable. */
  function ValidatedColumns(d: Dialect, list: seq<string>, fulltext: bool): Option<seq<string>> {
    if list == [] then Some([]) else
      match d.column(list[0], fulltext)
      case None => None
      case Some(col) =>
        match ValidatedColumns(d, list[1..], fulltext)
        case None => None
        case Some(rest) => Some([col] + rest)
  }

  /** An empty predicate is none. */
  function GivenWhere(where: Option<string>): Option<string> {
    if where == Some("") then None else where
  }

  /** What sync decides for one declared index, given whether it finds it in the catalog. */
  function Decide(d: Dialect, spec: IndexSpec, present: bool): Decision {
    var marked := !spec.fulltext && spec.cols.Columns? && spec.cols.list != []
                  && Lower(spec.cols.list[0]) == "fulltext";
    var fulltext := spec.fulltext || marked;
    match spec.cols
    case NoCols => Leave
    case RawSql(text) =>
      if (fulltext && spec.unique) || present || text == "" || text[0] != '(' || text[|text| - 1] != ')' then Leave
      else CreateRaw(text)
    case Columns(all) =>
      var list := if marked then all[1..] else all;
      if (fulltext && spec.unique) || list == [] || (fulltext && !d.supportsFullText) then Leave
      else
        match ValidatedColumns(d, list, fulltext)
        case None => Leave
        case Some(columns) =>
          var where := GivenWhere(spec.where);
          if where.Some? && !d.supportsPartial && spec.unique then Leave
          else Manage(Definition(columns, fulltext, spec.unique, if d.supportsPartial then where else None))
  }

  /** A raw index is created when it is missing and its text stands in parentheses. */
  lemma RawIsCreatedExactlyWhen(d: Dialect, text: string, fulltext: bool, unique: bool, where: Option<string>,
                                present: bool)
    ensures Decide(d, IndexSpec(RawSql(text), fulltext, unique, where), present)
            == if !present && !(fulltext && unique) && exists inner :: text == "(" + inner + ")"
               then CreateRaw(text) else Leave
  {
    if |text| >= 2 && text[0] == '(' && text[|text| - 1] == ')' {
      assert text == "(" + text[1..|text| - 1] + ")";
    }
  }

  /** An index without columns is left alone, and so is one of which nothing but the mark is declared. */
  lemma NothingIsLeft(d: Dialect, mark: string, fulltext: bool, unique: bool, where: Option<string>, present: bool)
    requires Spells(mark, "fulltext")
    ensures Decide(d, IndexSpec(NoCols, fulltext, unique, where), present) == Leave
    ensures Decide(d, IndexSpec(Columns([]), fulltext, unique, where), present) == Leave
    ensures Decide(d, IndexSpec(Columns([mark]), false, unique, where), present) == Leave
  {
    SpellsExactlyWhen(mark, "fulltext");
    assert [mark][1..] == [];
  }

  // ---------------------------------------------------------------- the database

  type Catalog = map<string, Signature>

  datatype Statement =
    | Drop(name: string)
    | Create(name: string, def: Definition)
    | CreateFromRaw(name: string, text: string)

  function Lookup(c: Catalog, name: string): Option<Signature> {
    if name in c then Some(c[name]) else None
  }

  predicate Fails(d: Dialect, c: Catalog, st: Statement) {
    match st
    case Drop(name) => name !in c && !d.dropsIfExists
    case Create(name, def) => name in c || d.reported(def).None?
    case CreateFromRaw(name, text) => name in c || d.reportedRaw(text).None?
  }

  function Executed(d: Dialect, c: Catalog, st: Statement): Catalog
    requires !Fails(d, c, st)
  {
    match st
    case Drop(name) => c - {name}
    case Create(name, def) => c[name := d.reported(def).value]
    case CreateFromRaw(name, text) => c[name := d.reportedRaw(text).value]
  }

  /** The catalog maps index names to the signatures its reader reports; `log` lists the statements executed
      and `failures` those the database refused. */
  class Database {
    var catalog: Catalog
    var log: seq<Statement>
    var failures: seq<Statement>

    constructor (catalog: Catalog)
      ensures this.catalog == catalog && log == [] && failures == []
    {
      this.catalog, log, failures := catalog, [], [];
    }

    /** DROP INDEX of a missing index fails unless the dialect says IF EXISTS; CREATE INDEX fails when there is one
        of that name or the server refuses it. */
    method Execute(d: Dialect, st: Statement)
      modifies this
      ensures log == old(log) + [st]
      ensures var fails := Fails(d, old(catalog), st);
              && failures == (if fails then old(failures) + [st] else old(failures))
              && catalog == (if fails then old(catalog) else Executed(d, old(catalog), st))
    {
      log := log + [st];
      match st
      case Drop(name) =>
        if name !in catalog && !d.dropsIfExists { failures := failures + [st]; } else { catalog := catalog - {name}; }
      case Create(name, def) =>
        var signature := d.reported(def);
        if name in catalog || signature.None? {
          failures := failures + [st];
        } else {
          catalog := catalog[name := signature.value];
        }
      case CreateFromRaw(name, text) =>
        var signature := d.reportedRaw(text);
        if name in catalog || signature.None? {
          failures := failures + [st];
        } else {
          catalog := catalog[name := signature.value];
        }
    }
  }

  // ---------------------------------------------------------------- one pass

  /** Declared indexes with their physical names. */
  type Schema = seq<(string, IndexSpec)>

  predicate DistinctNames(schema: Schema) {
    && (forall i, j | 0 <= i < j < |schema| :: schema[i].0 != schema[j].0)
    && (forall i | 0 <= i < |schema| :: schema[i].0 != PrimaryKey)
  }

  /** One of the first `n` declared indexes has that name. */
  predicate DeclaredFirst(schema: Schema, n: nat, name: string)
    requires n <= |schema|
  {
    exists i | 0 <= i < n :: schema[i].0 == name
  }

  predicate Declared(schema: Schema, name: string) {
    DeclaredFirst(schema, |schema|, name)
  }

  /** `existingIndexByName[name]` is there for the names of the catalog, and for those that every object inherits. */
  predicate Seen(d: Dialect, c: Catalog, name: string) {
    name in c || name in d.inherited
  }

  function DecideFor(d: Dialect, c: Catalog, index: (string, IndexSpec)): Decision {
    Decide(d, index.1, Seen(d, c, index.0))
  }

  /** The signature a declared index has after a pass; None when it does not exist. */
  function After(d: Dialect, c: Catalog, index: (string, IndexSpec)): Option<Signature> {
    match DecideFor(d, c, index)
    case Leave => Lookup(c, index.0)
    case CreateRaw(text) => d.reportedRaw(text)
    case Manage(def) => if Lookup(c, index.0) == Some(d.desired(def)) then Lookup(c, index.0) else d.reported(def)
  }

  /** The statements of a pass that fail for a declared index: the DROP of an index that only seemed to be there, and
      what the server refuses to create. */
  function Failing(d: Dialect, c: Catalog, index: (string, IndexSpec)): seq<Statement> {
    match DecideFor(d, c, index)
    case Leave => []
    case CreateRaw(text) => if d.reportedRaw(text).None? then [CreateFromRaw(index.0, text)] else []
    case Manage(def) =>
      if Lookup(c, index.0) == Some(d.desired(def)) then []
      else
        (if index.0 !in c && index.0 in d.inherited && !d.dropsIfExists then [Drop(index.0)] else [])
        + if d.reported(def).None? then [Create(index.0, def)] else []
  }

  function AllFailing(d: Dialect, c: Catalog, schema: Schema): seq<Statement> {
    if schema == [] then []
    else AllFailing(d, c, schema[..|schema| - 1]) + Failing(d, c, schema[|schema| - 1])
  }

  /** Nothing to do for a declared index. */
  predicate InPlace(d: Dialect, c: Catalog, index: (string, IndexSpec)) {
    match DecideFor(d, c, index)
    case Leave => true
    case CreateRaw(_) => false
    case Manage(def) => Lookup(c, index.0) == Some(d.desired(def))
  }

  /** Nothing to do at all: every declared index is in place and nothing undeclared is left. */
  predicate Settled(d: Dialect, c: Catalog, schema: Schema) {
    && (forall i | 0 <= i < |schema| :: InPlace(d, c, schema[i]))
    && (forall name | name in c :: name == PrimaryKey || Declared(schema, name))
  }

  /** `after` is the catalog a pass over `before` has to produce. */
  ghost predicate Synced(d: Dialect, before: Catalog, after: Catalog, schema: Schema) {
    && (forall i | 0 <= i < |schema| :: Lookup(after, schema[i].0) == After(d, before, schema[i]))
    && (forall name | name in after :: name == PrimaryKey || Declared(schema, name))
    && Lookup(after, PrimaryKey) == Lookup(before, PrimaryKey)
  }

  /** Bring one declared index up to date; `existing` is the catalog read at the start of the pass. */
  method SyncIndex(db: Database, d: Dialect, existing: Catalog, index: (string, IndexSpec))
    requires Lookup(db.catalog, index.0) == Lookup(existing, index.0)
    modifies db
    ensures forall name | name != index.0 :: Lookup(db.catalog, name) == Lookup(old(db.catalog), name)
    ensures Lookup(db.catalog, index.0) == After(d, existing, index)
    ensures db.failures == old(db.failures) + Failing(d, existing, index) && old(db.log) <= db.log
    ensures db.log == old(db.log) <==> InPlace(d, existing, index)
  {
    var (name, spec) := index;
    var seen := name in existing || name in d.inherited;
    match Decide(d, spec, seen)
    case Leave =>
    case CreateRaw(text) => db.Execute(d, CreateFromRaw(name, text));
    case Manage(def) =>
      if name in existing && existing[name] == d.desired(def) { return; }
      if seen { db.Execute(d, Drop(name)); }
      db.Execute(d, Create(name, def));
  }

  /** The first loop: declared indexes, one after the other. */
  method SyncDeclared(db: Database, d: Dialect, existing: Catalog, schema: Schema)
    requires DistinctNames(schema) && db.catalog == existing
    modifies db
    ensures forall k | 0 <= k < |schema| :: Lookup(db.catalog, schema[k].0) == After(d, existing, schema[k])
    ensures forall name | !Declared(schema, name) :: Lookup(db.catalog, name) == Lookup(existing, name)
    ensures db.failures == old(db.failures) + AllFailing(d, existing, schema) && old(db.log) <= db.log
    ensures db.log == old(db.log) <==> forall k | 0 <= k < |schema| :: InPlace(d, existing, schema[k])
  {
    hide After, Failing, InPlace;
    for i := 0 to |schema|
      invariant forall k | 0 <= k < i :: Lookup(db.catalog, schema[k].0) == After(d, existing, schema[k])
      invariant forall name | !DeclaredFirst(schema, i, name) :: Lookup(db.catalog, name) == Lookup(existing, name)
      invariant db.failures == old(db.failures) + AllFailing(d, existing, schema[..i]) && old(db.log) <= db.log
      invariant db.log == old(db.log) <==> forall k | 0 <= k < i :: InPlace(d, existing, schema[k])
    {
      DeclaredNext(schema, i);
      assert schema[..i + 1][..i] == schema[..i];
      SyncIndex(db, d, existing, schema[i]);
    }
    assert schema[..|schema|] == schema;
  }

  lemma DeclaredNext(schema: Schema, i: nat)
    requires DistinctNames(schema) && i < |schema|
    ensures forall name :: DeclaredFirst(schema, i + 1, name) <==> DeclaredFirst(schema, i, name) || name == schema[i].0
    ensures !DeclaredFirst(schema, i, schema[i].0)
  {
  }

  /** The second loop: whatever the catalog held at the start and the schema does not declare is dropped. */
  method DropUndeclared(db: Database, d: Dialect, existing: Catalog, schema: Schema)
    requires forall name | !Declared(schema, name) :: Lookup(db.catalog, name) == Lookup(existing, name)
    modifies db
    ensures forall name | Declared(schema, name) || name == PrimaryKey ::
              Lookup(db.catalog, name) == Lookup(old(db.catalog), name)
    ensures forall name | name in db.catalog :: name == PrimaryKey || Declared(schema, name)
    ensures db.failures == old(db.failures) && old(db.log) <= db.log
    ensures db.log == old(db.log) <==> forall name | name in existing :: name == PrimaryKey || Declared(schema, name)
  {
    var rest := existing.Keys;
    while rest != {}
      invariant rest <= existing.Keys
      invariant forall name | Declared(schema, name) || name == PrimaryKey ::
                  Lookup(db.catalog, name) == Lookup(old(db.catalog), name)
      invariant forall name | name in rest && !Declared(schema, name) :: name in db.catalog
      invariant forall name | name in db.catalog :: name in rest || name == PrimaryKey || Declared(schema, name)
      invariant db.failures == old(db.failures) && old(db.log) <= db.log
      invariant db.log == old(db.log) <==>
                forall name | name in existing.Keys - rest :: name == PrimaryKey || Declared(schema, name)
      decreases rest
    {
      var keyName :| keyName in rest;
      if keyName != PrimaryKey && !Declared(schema, keyName) {
        db.Execute(d, Drop(keyName));
      }
      assert keyName in existing.Keys - (rest - {keyName});
      rest := rest - {keyName};
    }
  }

  /** A reader that groups its rows in a plain object trips over an index of an inherited name. */
  predicate Readable(d: Dialect, c: Catalog) {
    d.readerGroups ==> forall name | name in c :: name !in d.inherited
  }

  /** The index part of mysqlSchemaUpdate. Without a readable catalog nothing is done at all. Otherwise every declared
      index is as its gates and the catalog call for, no undeclared one is left, the primary key and whatever the
      gates leave alone are untouched, the statements that fail are those listed, and nothing is executed exactly
      when there was nothing to do. */
  method SyncIndexes(db: Database, d: Dialect, schema: Schema) returns (ok: bool)
    requires DistinctNames(schema)
    modifies db
    ensures ok <==> Readable(d, old(db.catalog))
    ensures !ok ==> db.catalog == old(db.catalog) && db.log == old(db.log) && db.failures == old(db.failures)
    ensures ok ==>
              && Synced(d, old(db.catalog), db.catalog, schema)
              && db.failures == old(db.failures) + AllFailing(d, old(db.catalog), schema) && old(db.log) <= db.log
              && (db.log == old(db.log) <==> Settled(d, old(db.catalog), schema))
  {
    hide After, InPlace, AllFailing;
    var existing := db.catalog;
    ok := !d.readerGroups || existing.Keys !! d.inherited;
    if !ok { return; }
    SyncDeclared(db, d, existing, schema);
    ghost var middle := db.log;
    DropUndeclared(db, d, existing, schema);
    assert forall k | 0 <= k < |schema| :: Declared(schema, schema[k].0);
    assert !Declared(schema, PrimaryKey);
  }

  // ---------------------------------------------------------------- when a pass does what was declared

  /** What the schema asks for an index, by whether the catalog really has it. */
  function Due(d: Dialect, c: Catalog, index: (string, IndexSpec)): Decision {
    Decide(d, index.1, index.0 in c)
  }

  /** `now` is what the declaration asks for: the index is there with the signature it was declared or created with,
      or left as it was. */
  predicate AsDeclared(d: Dialect, before: Catalog, index: (string, IndexSpec), now: Option<Signature>) {
    match Due(d, before, index)
    case Leave => now == Lookup(before, index.0)
    case CreateRaw(text) => now.Some? && now == d.reportedRaw(text)
    case Manage(def) => now.Some? && (now == Some(d.desired(def)) || now == d.reported(def))
  }

  /** The index is in place already; or the server takes it, and its name is in the catalog or not one that every
      object inherits. A DROP that does not mind saves a managed index, but not a raw one. */
  predicate GoesWell(d: Dialect, c: Catalog, index: (string, IndexSpec)) {
    var apart := index.0 in c || index.0 !in d.inherited;
    match Due(d, c, index)
    case Leave => true
    case CreateRaw(text) => apart && d.reportedRaw(text).Some?
    case Manage(def) =>
      Lookup(c, index.0) == Some(d.desired(def)) || (d.reported(def).Some? && (apart || d.dropsIfExists))
  }

  lemma GoesWellExactlyWhen(d: Dialect, c: Catalog, index: (string, IndexSpec))
    ensures Failing(d, c, index) == [] && AsDeclared(d, c, index, After(d, c, index)) <==> GoesWell(d, c, index)
  {
    DecisionsAgree(d, index.1);
  }

  lemma {:induction false} NoneFailing(d: Dialect, c: Catalog, schema: Schema)
    ensures AllFailing(d, c, schema) == [] <==> forall i | 0 <= i < |schema| :: Failing(d, c, schema[i]) == []
  {
    hide Failing;
    if schema != [] {
      var init, last := schema[..|schema| - 1], schema[|schema| - 1];
      NoneFailing(d, c, init);
      assert forall i | 0 <= i < |init| :: schema[i] == init[i];
    }
  }

  /** A pass over a readable catalog executes no statement that fails, and leaves every declared index as declared,
      exactly when each of them goes well. */
  lemma PassGoesWellExactlyWhen(d: Dialect, before: Catalog, after: Catalog, schema: Schema)
    requires Synced(d, before, after, schema)
    ensures AllFailing(d, before, schema) == []
              && (forall i | 0 <= i < |schema| :: AsDeclared(d, before, schema[i], Lookup(after, schema[i].0)))
            <==> forall i | 0 <= i < |schema| :: GoesWell(d, before, schema[i])
  {
    hide Failing, AsDeclared, GoesWell, After;
    NoneFailing(d, before, schema);
    forall i | 0 <= i < |schema|
      ensures Failing(d, before, schema[i]) == [] && AsDeclared(d, before, schema[i], Lookup(after, schema[i].0))
              <==> GoesWell(d, before, schema[i])
    {
      GoesWellExactlyWhen(d, before, schema[i]);
    }
  }

  // ---------------------------------------------------------------- convergence

  /** The catalog reader gives back the signature sync asked for, for every managed index of the schema whose
      present signature is another one, and the server takes every raw one. */
  predicate Faithful(d: Dialect, before: Catalog, schema: Schema) {
    forall i | 0 <= i < |schema| :: FaithfulFor(d, before, schema[i])
  }

  predicate FaithfulFor(d: Dialect, before: Catalog, index: (string, IndexSpec)) {
    match DecideFor(d, before, index)
    case Leave => true
    case CreateRaw(text) => d.reportedRaw(text).Some?
    case Manage(def) => Lookup(before, index.0) == Some(d.desired(def)) || d.reported(def) == Some(d.desired(def))
  }

  lemma DecisionsAgree(d: Dialect, spec: IndexSpec)
    ensures Decide(d, spec, true) == Decide(d, spec, false)
            || (Decide(d, spec, true) == Leave && Decide(d, spec, false).CreateRaw?)
  {
  }

  lemma SettlesExactlyWhen(d: Dialect, before: Catalog, after: Catalog, index: (string, IndexSpec))
    requires Lookup(after, index.0) == After(d, before, index)
    ensures InPlace(d, after, index) <==> FaithfulFor(d, before, index)
    ensures Failing(d, before, index) == [] ==> Failing(d, after, index) == []
    ensures FaithfulFor(d, before, index) && After(d, before, index).None? ==> DecideFor(d, before, index) == Leave
  {
    DecisionsAgree(d, index.1);
  }

  /** One pass is enough, exactly when the reader is faithful: what a pass leaves behind is settled if and only
      if every index it built reads back with the signature it was built for. */
  lemma OnePassSettles(d: Dialect, before: Catalog, after: Catalog, schema: Schema)
    requires DistinctNames(schema) && Synced(d, before, after, schema)
    ensures Settled(d, after, schema) <==> Faithful(d, before, schema)
    ensures AllFailing(d, before, schema) == [] ==> AllFailing(d, after, schema) == []
  {
    hide InPlace, FaithfulFor, Failing, After;
    NoneFailing(d, before, schema);
    NoneFailing(d, after, schema);
    forall i | 0 <= i < |schema|
      ensures InPlace(d, after, schema[i]) <==> FaithfulFor(d, before, schema[i])
      ensures Failing(d, before, schema[i]) == [] ==> Failing(d, after, schema[i]) == []
    {
      SettlesExactlyWhen(d, before, after, schema[i]);
    }
  }

  /** What a pass leaves in the catalog can be read again. */
  predicate ReadableAfter(d: Dialect, before: Catalog, schema: Schema) {
    d.readerGroups ==>
      && PrimaryKey !in d.inherited
      && forall i | 0 <= i < |schema| :: After(d, before, schema[i]).Some? ==> schema[i].0 !in d.inherited
  }

  lemma ReadableAfterExactlyWhen(d: Dialect, before: Catalog, after: Catalog, schema: Schema)
    requires Synced(d, before, after, schema) && (d.readerGroups ==> PrimaryKey !in d.inherited)
    ensures Readable(d, after) <==> ReadableAfter(d, before, schema)
  {
    hide After;
    if d.readerGroups {
      forall i | 0 <= i < |schema| && After(d, before, schema[i]).Some? ensures schema[i].0 in after {
        assert Lookup(after, schema[i].0).Some?;
      }
      if ReadableAfter(d, before, schema) {
        forall name | name in after ensures name !in d.inherited {
          if name != PrimaryKey {
            var i :| 0 <= i < |schema| && schema[i].0 == name;
            assert Lookup(after, name).Some?;
          }
        }
      }
    }
  }

  /** Syncing an unchanged schema again. Both passes go through exactly when the catalog can be read before and
      after the first; then the second emits no statement if and only if the reader is faithful. No statement of
      either pass fails exactly when none of the first does. */
  method SyncTwice(db: Database, d: Dialect, schema: Schema) returns (ok: bool, ghost first: seq<Statement>)
    requires DistinctNames(schema) && PrimaryKey !in d.inherited
    modifies db
    ensures old(db.log) <= first <= db.log
    ensures ok <==> Readable(d, old(db.catalog)) && ReadableAfter(d, old(db.catalog), schema)
    ensures if ok then db.log == first <==> Faithful(d, old(db.catalog), schema) else db.log == first
    ensures db.failures == old(db.failures)
            <==> (Readable(d, old(db.catalog)) ==> AllFailing(d, old(db.catalog), schema) == [])
  {
    hide Synced, Settled, Faithful, Readable, ReadableAfter, AllFailing;
    ghost var before, start := db.catalog, db.failures;
    ok := SyncIndexes(db, d, schema);
    first := db.log;
    if !ok { return; }
    ghost var between := db.catalog;
    OnePassSettles(d, before, between, schema);
    ReadableAfterExactlyWhen(d, before, between, schema);
    ok := SyncIndexes(db, d, schema);
    if ok {
      assert db.failures == start + AllFailing(d, before, schema) + AllFailing(d, between, schema);
    }
    NothingAppended(start, AllFailing(d, before, schema), AllFailing(d, between, schema));
  }

  lemma NothingAppended(start: seq<Statement>, a: seq<Statement>, b: seq<Statement>)
    ensures start + a == start <==> a == []
    ensures a != [] ==> start + a + b != start
    ensures a == [] && b == [] ==> start + a + b == start
  {
    assert |start + a + b| == |start| + |a| + |b|;
  }
}
