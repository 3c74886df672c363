/** Index sync on SQLite: the dialect the general reconciliation is given, and which schemas settle in one pass
    (lib/sync-to-db.js, lib/dialects/SQLiteDialect.js). */
module SqliteSync {
  import opened Wrappers
  import opened Texts
  import opened Words
  import opened IndexColumns
  import opened IndexSpecs
  import opened QuotedIndex
  import opened SqliteIndexText
  import opened IndexStatements
  import opened IndexSync
  import opened IndexEntries

  /** The columns of a table; how the index and the table are called in CREATE INDEX plays no part, as long as no
      name has a parenthesis. `canonical` is the comparison form of a predicate. */
  datatype Table = Table(fields: set<string>, inherited: Inherited, quotedIndex: string, quotedTable: string,
                         canonical: string -> string)

  predicate IsTable(t: Table) {
    HasNoBracket(t.quotedIndex) && HasNoBracket(t.quotedTable)
  }

  predicate HasNoBracket(name: string) {
    '(' !in name && ')' !in name
  }

  /** `replace(/(\w+)->>["'](\$\.[^"']+)["']/g, "json_extract($1, '$2')")` on a single accessor. */
  function ExtractCall(col: string): string {
    var n := WordEnd(col);
    if n > 0 && |col| >= n + 8 && col[n..n + 3] == "->>" && IsQuote(col[n + 3]) && col[n + 4..n + 6] == "$."
       && NoQuotes(col[n + 4..|col| - 1]) && IsQuote(col[|col| - 1])
    then "json_extract(" + (col[..n] + (", '" + (col[n + 4..|col| - 1] + "')"))) else col
  }

  /** One entry of the column list of generateCreateIndex. */
  function PrintedColumn(col: string): string {
    if HasAccessor(col) then "(" + (ExtractCall(col) + ")") else GenerateColumn(col)
  }

  function PrintedColumns(cols: seq<string>): seq<string> {
    seq(|cols|, i requires 0 <= i < |cols| => PrintedColumn(cols[i]))
  }

  /** A row of index_xinfo as the reader sees it: a name, with DESC where it is descending, or no name for an
      expression. */
  function CatalogColumn(printed: string): Option<string> {
    match ReadColumn(printed)
    case None => None
    case Some(column) => Some(column.name + Direction(column.descending))
  }

  function CatalogColumns(printed: seq<string>): seq<Option<string>> {
    seq(|printed|, i requires 0 <= i < |printed| => CatalogColumn(printed[i]))
  }

  /** The statement that creates an index. */
  function StatementText(t: Table, def: Definition): string {
    CreateIndexText(IndexType(def.unique), t.quotedIndex, t.quotedTable, PrintedColumns(def.columns), def.where)
  }

  /** What getTableIndexes gives for the columns of an index: names from the catalog, expressions from the stored
      statement. */
  function ReportedColumns(sql: string, columns: seq<string>): seq<string> {
    ReadColumns(CatalogColumns(columns), Extract(sql))
  }

  /** What sync compares: the reader looks for a predicate only where the catalog says that there is one. */
  function ReportedSignature(t: Table, sql: string, stored: Stored): Signature {
    Signature(NormalizeAll(ReportedColumns(sql, stored.columns)), stored.fulltext, stored.unique,
              Canonical(t.canonical, if stored.where.Some? then FindWhere(sql) else None))
  }

  /** SQLite has partial indexes and no full-text ones. */
  function Sqlite(t: Table): Dialect {
    Dialect(false, true, true,
            (col: string, fulltext: bool) => CheckColumn(t.fields, col, fulltext),
            (def: Definition) =>
              Signature(NormalizeAll(DesiredColumns(t.inherited, def.columns)), def.fulltext, def.unique,
                        Canonical(t.canonical, def.where)),
            (def: Definition) =>
              (match ReadCreateIndex(StatementText(t, def))
               case None => None
               case Some(stored) => Some(ReportedSignature(t, StatementText(t, def), stored))),
            (text: string) => Some(Signature([text], false, false, None)),
            t.inherited.Keys, false)
  }

  // ---------------------------------------------------------------- columns of a schema

  /** Any path without blanks, quotes and backslashes. */
  predicate IsPath(path: string) {
    AllGraphic(path) && '\\' !in path
  }

  predicate IsSqliteEntry(t: Table, e: Entry) {
    IsEntry(t.fields, e) && (e.Json? ==> IsPath(e.path))
  }

  predicate AreSqliteEntries(t: Table, entries: seq<Entry>) {
    forall i | 0 <= i < |entries| :: IsSqliteEntry(t, entries[i])
  }

  /** The entries whose column is reported with the spelling sync wants. */
  predicate Stays(t: Table, e: Entry) {
    e.Column? && StaysAsWritten(e.spec) && e.spec.name !in t.inherited
  }

  predicate AllStay(t: Table, entries: seq<Entry>) {
    forall i | 0 <= i < |entries| :: Stays(t, entries[i])
  }

  // ---------------------------------------------------------------- the printed columns

  /** The accessor behind the opening parenthesis. */
  lemma CallIsNested(field: string, path: string)
    requires IsIdentifier(field) && IsPath(path) && NoQuotes(path)
    ensures WellNested("json_extract(" + (field + (", '" + (path + "')"))) + ")", 1, None)
  {
    hide WellNested;
    var tail := path + ['\''] + "))";
    var quoted := ['\''] + tail;
    IdentifierIsHarmless(field);
    BracketsClose();
    QuoteOpens('\'', path, 2, "))");
    CommaPasses(quoted, 2);
    HarmlessPasses(field, 2, ", " + quoted);
    BracketOpens(field + (", " + quoted), 1);
    HarmlessPasses("json_extract", 1, "(" + (field + (", " + quoted)));
    assert "json_extract(" + (field + (", '" + (path + "')"))) + ")"
        == "json_extract" + ("(" + (field + (", " + quoted)));
  }

  lemma AccessorIsNested(field: string, quote: char, path: string)
    requires IsIdentifier(field) && IsPath(path) && NoQuotes(path) && (quote == '"' || quote == '\'')
    ensures WellNested(field + "->>" + [quote] + path + [quote] + ")", 1, None)
  {
    hide WellNested;
    var quoted := [quote] + (path + [quote] + ")");
    IdentifierIsHarmless(field);
    BracketsClose();
    QuoteOpens(quote, path, 1, ")");
    HarmlessPasses("->>", 1, quoted);
    HarmlessPasses(field, 1, "->>" + quoted);
    assert field + "->>" + [quote] + path + [quote] + ")" == field + ("->>" + quoted);
  }

  lemma CallIsExtracted(field: string, q: char, path: string, r: char)
    requires IsIdentifier(field) && IsQuote(q) && IsQuote(r) && NoQuotes(path)
    ensures var col := field + "->>" + [q] + path + [r];
            ExtractCall(col) == if |path| > 2 && path[0] == '$' && path[1] == '.'
                                then "json_extract(" + (field + (", '" + (path + "')"))) else col
  {
    var col, n := field + "->>" + [q] + path + [r], |field|;
    assert col == field + ("->>" + [q] + path + [r]);
    IdentifierThen(field, "->>" + [q] + path + [r]);
    hide WordEnd;
    assert col[..n] == field && col[n..n + 3] == "->>" && col[n + 3] == q && col[n + 4..|col| - 1] == path;
    assert col[|col| - 1] == r;
    if |path| > 2 { assert col[n + 4..n + 6] == [path[0], path[1]]; }
  }

  /** The entry of an accessor, in quotes of either kind: a path below the root is a call of json_extract, any other
      accessor stays as it is. */
  lemma AccessorIsPrinted(field: string, q: char, path: string, r: char)
    requires IsIdentifier(field) && IsQuote(q) && IsQuote(r) && NoQuotes(path)
    ensures var col := field + "->>" + [q] + path + [r];
            PrintedColumn(col)
            == if |path| > 2 && path[0] == '$' && path[1] == '.'
               then "(" + ("json_extract(" + (field + (", '" + (path + "')"))) + ")") else "(" + (col + ")")
  {
    var col := field + "->>" + [q] + path + [r];
    assert col == field + ("->>" + [q] + path + [r]);
    AccessorIsThere(field, "->>" + [q] + path + [r]);
    CallIsExtracted(field, q, path, r);
    hide HasAccessor, ExtractCall, GenerateColumn, IsIdentifier, NoQuotes;
  }

  /** No white space stands behind a closing parenthesis of an entry. */
  lemma EntryIsTight(t: Table, e: Entry)
    requires IsSqliteEntry(t, e)
    ensures IsTight(PrintedColumn(EntryText(e)))
  {
    match e
    case Json(field, quote, path) =>
      JsonEntry(t.fields, e);
      CallIsExtracted(field, quote, path, quote);
      hide ExtractCall, GenerateColumn, HasAccessor, IsTight;
      AccessorIsTight(field, quote, path);
    case Column(spec) =>
      ColumnIsTight(spec);
  }

  lemma ColumnIsTight(spec: Spec)
    requires IsSpec(spec)
    ensures IsTight(PrintedColumn(SpecText(spec)))
  {
    NameOfSpec(spec);
    SpecIsGenerated(spec);
    IdentifierIsHarmless(spec.name);
    DirectionIsHarmless(spec);
    hide GenerateColumn, HasAccessor, SpecText, IsSpec;
    assert ')' !in "\"" + spec.name + "\"" && ')' !in spec.direction;
  }

  lemma TightBehind(plain: string, tail: string)
    requires ')' !in plain && AllGraphic(tail)
    ensures IsTight(plain + tail)
  {
    var e := plain + tail;
    forall i | 0 <= i < |e| && e[i] == ')' ensures AllGraphic(e[i..]) {
      assert forall j | 0 <= j < |plain| :: e[j] == plain[j] && plain[j] in plain;
      assert i >= |plain|;
      assert forall j | i <= j < |e| :: e[j] == tail[j - |plain|];
    }
  }

  lemma AccessorIsTight(field: string, quote: char, path: string)
    requires IsIdentifier(field) && IsPath(path) && (quote == '"' || quote == '\'')
    ensures IsTight("(" + ("json_extract(" + (field + (", '" + (path + "')"))) + ")"))
    ensures IsTight("(" + (field + "->>" + [quote] + path + [quote] + ")"))
  {
    IdentifierIsGraphic(field);
    IdentifierIsHarmless(field);
    var front := "(json_extract(" + field + ", ";
    var tail := "'" + path + "'))";
    assert front + tail == "(" + ("json_extract(" + (field + (", '" + (path + "')"))) + ")");
    assert ')' !in field;
    TightBehind(front, tail);
    var all := "(" + (field + "->>" + [quote] + path + [quote] + ")");
    assert AllGraphic(all);
    assert "" + all == all;
    TightBehind("", all);
  }

  /** An entry is printed as one expression; an accessor in parentheses and without a name in the catalog, a plain
      column with one. */
  lemma EntryIsPrinted(t: Table, e: Entry)
    requires IsSqliteEntry(t, e)
    ensures IsExpression(PrintedColumn(EntryText(e)))
    ensures e.Json? ==> PrintedColumn(EntryText(e))[0] == '(' && CatalogColumn(PrintedColumn(EntryText(e))).None?
    ensures e.Column? ==>
              && PrintedColumn(EntryText(e))[0] == '"'
              && CatalogColumn(PrintedColumn(EntryText(e)))
                 == Some(e.spec.name + Direction(ColumnOf(e.spec).descending))
  {
    hide WellNested, IsTrimmed, GenerateColumn, ReadColumn;
    match e
    case Json(field, quote, path) =>
      JsonEntry(t.fields, e);
      CallIsNested(field, path);
      AccessorIsNested(field, quote, path);
      BracketedIsExpression(ExtractCall(EntryText(e)));
      NoNameInBrackets(ExtractCall(EntryText(e)));
    case Column(spec) =>
      NameOfSpec(spec);
      NamedColumnIsExpression(spec);
      QuotedReadsBackExactlyWhen(spec);
  }

  lemma NoNameInBrackets(inner: string)
    ensures ReadColumn("(" + (inner + ")")).None?
  {
  }

  // ---------------------------------------------------------------- what is reported

  predicate HasNoArrow(s: string) {
    forall i | 0 <= i < |s| :: s[i] != '>'
  }

  lemma PlainHasNoArrow(raw: string)
    ensures AsPlain(raw).Some? ==> HasNoArrow(AsPlain(raw).value.name + AsPlain(raw).value.direction)
  {
    if AsPlain(raw).Some? {
      var p := AsPlain(raw).value;
      WordEndStops(DropQuote(raw));
      assert HasNoArrow(p.name) && HasNoArrow(p.direction);
    }
  }

  lemma AccessorTextHasArrow(field: string, path: string)
    requires IsIdentifier(field)
    ensures !HasNoArrow(AccessorText(Accessor(field, path)))
    ensures IsWordChar(AccessorText(Accessor(field, path))[0])
  {
    var text := AccessorText(Accessor(field, path));
    assert text == field + ("->>\"" + path + "\"");
    assert text[|field| + 1] == '>';
  }

  /** A text that begins with a quote or a parenthesis is never taken for an accessor. */
  lemma NeverAnAccessor(printed: string, field: string, path: string)
    requires printed != "" && IsTrimmed(printed) && (printed[0] == '"' || printed[0] == '(') && IsIdentifier(field)
    ensures NormalizeSpec(printed) != AccessorText(Accessor(field, path))
  {
    hide AsPlain, AccessorText, Collapse, Trim, HasNoArrow;
    TrimTrimmed(printed);
    CollapseCollapses(printed);
    GraphicIsNoSpace(printed[0]);
    var raw := Collapse(printed);
    assert raw[0] == printed[0] && WordEnd(raw) == 0;
    PlainHasNoArrow(raw);
    AccessorTextHasArrow(field, path);
  }

  lemma DesiredAccessor(t: Table, e: Entry, length: Option<string>)
    requires IsSqliteEntry(t, e) && e.Json?
    ensures NormalizeSpec(DesiredColumn(EntryText(e), length)) == AccessorText(Accessor(e.field, Rooted(e.path)))
  {
    var text := EntryText(e);
    JsonEntry(t.fields, e);
    IdentifierIsGraphic(e.field);
    GraphicConcat(e.field, "->>");
    GraphicConcat(e.field + "->>", [e.quote]);
    GraphicConcat(e.field + "->>" + [e.quote], e.path);
    GraphicConcat(e.field + "->>" + [e.quote] + e.path, [e.quote]);
    GraphicIsCollapsed(text);
    NormalOf(text);
    RawAccessor(text, e.field, e.path);
  }

  /** What the report of a plain column is worth. */
  lemma PlainReadsBackExactlyWhen(t: Table, s: Spec)
    requires IsSpec(s)
    ensures var reported := s.name + Direction(ColumnOf(s).descending);
            NormalizeSpec(reported) == NormalizeSpec(DesiredColumn(SpecText(s), InheritedText(t.inherited, s.name)))
            <==> StaysAsWritten(s) && s.name !in t.inherited
  {
    hide NormalizeSpec, DesiredColumn, IsSpec;
    QuotedReadsBackExactlyWhen(s);
    DesiredOfSpec(s, InheritedText(t.inherited, s.name));
    if s.name in t.inherited && s.prefix.None? {
      InheritedIsNeverReported(s, t.inherited[s.name], Direction(ColumnOf(s).descending));
    }
  }

  function Defined(entries: seq<Entry>, unique: bool, where: Option<string>): Definition {
    Definition(EntryTexts(entries), false, unique, where)
  }

  /** What is reported for the columns of a definition. */
  function Reported(t: Table, def: Definition): seq<string> {
    ReportedColumns(StatementText(t, def), PrintedColumns(def.columns))
  }

  /** What the catalog and the stored statement hold of an index. */
  lemma PrintedParts(t: Table, entries: seq<Entry>, unique: bool, where: Option<string>)
    requires IsTable(t) && AreSqliteEntries(t, entries) && entries != []
    ensures var printed := PrintedColumns(EntryTexts(entries));
            && Extract(StatementText(t, Defined(entries, unique, where))) == printed
            && ReadCreateIndex(StatementText(t, Defined(entries, unique, where)))
               == Some(Stored(unique, false, printed, Printed(where)))
            && (where.Some? && where.value != "" ==>
                  FindWhere(StatementText(t, Defined(entries, unique, where))) == Some(ReadPredicate(where.value)))
  {
    hide IsExpression, PrintedColumn, IsEntry, EntryText, FindWhere, Extract, ReadCreateIndex, CreateIndexText, IsTight;
    var printed := PrintedColumns(EntryTexts(entries));
    forall i | 0 <= i < |printed| ensures IsExpression(printed[i]) && IsTight(printed[i]) {
      EntryIsPrinted(t, entries[i]);
      EntryIsTight(t, entries[i]);
    }
    ExtractReadsWhatWasPrinted(IndexType(unique), t.quotedIndex, t.quotedTable, printed, where);
    StatementIsRead(unique, false, t.quotedIndex, t.quotedTable, printed, where);
    if where.Some? && where.value != "" {
      WhereIsFound(IndexType(unique), t.quotedIndex, t.quotedTable, printed, where.value);
    }
  }

  /** Column `k`: a plain one with its own name, an accessor with the printed text of some entry up to it. */
  lemma ReportedAt(t: Table, entries: seq<Entry>, unique: bool, where: Option<string>, k: nat)
    requires IsTable(t) && AreSqliteEntries(t, entries) && k < |entries|
    ensures var printed := PrintedColumns(EntryTexts(entries));
            var reported := Reported(t, Defined(entries, unique, where));
            && |reported| == |entries|
            && (if entries[k].Column?
                then reported[k] == entries[k].spec.name + Direction(ColumnOf(entries[k].spec).descending)
                else reported[k] == printed[ExpressionsBefore(CatalogColumns(printed), k)])
  {
    hide PrintedColumn, CatalogColumn, Extract, IsEntry, EntryText;
    var printed := PrintedColumns(EntryTexts(entries));
    PrintedParts(t, entries, unique, where);
    ReadColumnAt(CatalogColumns(printed), printed, k);
    EntryIsPrinted(t, entries[k]);
  }

  /** A column has the spelling sync wants exactly when it is a plain one without length and ascending order, and not
      called like a property of every object. */
  lemma ColumnReadsBackExactlyWhen(t: Table, entries: seq<Entry>, unique: bool, where: Option<string>, k: nat)
    requires IsTable(t) && AreSqliteEntries(t, entries) && k < |entries|
    ensures var def := Defined(entries, unique, where);
            && |Reported(t, def)| == |entries| == |DesiredColumns(t.inherited, def.columns)|
            && (NormalizeSpec(Reported(t, def)[k]) == NormalizeSpec(DesiredColumns(t.inherited, def.columns)[k])
                <==> Stays(t, entries[k]))
  {
    hide PrintedColumn, CatalogColumn, Extract, NormalizeSpec, ReportedColumns, DesiredColumn, IsSpec;
    ReportedAt(t, entries, unique, where, k);
    var printed := PrintedColumns(EntryTexts(entries));
    match entries[k]
    case Column(spec) =>
      NameOfSpec(spec);
      PlainReadsBackExactlyWhen(t, spec);
      assert EntryText(entries[k]) == SpecText(spec);
    case Json(field, _, path) =>
      var j := ExpressionsBefore(CatalogColumns(printed), k);
      EntryIsPrinted(t, entries[j]);
      NeverAnAccessor(printed[j], field, Rooted(path));
      DesiredAccessor(t, entries[k], InheritedText(t.inherited, NameOf(EntryText(entries[k]))));
  }

  /** The signature the catalog leads to is the one sync wants exactly when every column and the predicate read
      back. */
  lemma SignatureReadsBackExactlyWhen(t: Table, entries: seq<Entry>, unique: bool, where: Option<string>)
    requires IsTable(t) && AreSqliteEntries(t, entries) && entries != []
    ensures var def := Defined(entries, unique, where);
            Sqlite(t).reported(def) == Some(Sqlite(t).desired(def))
            <==> AllStay(t, entries) && where != Some("") && WhereReadsBack(t.canonical, ReadPredicate, where)
  {
    hide Stays, ReportedColumns, NormalizeSpec, NormalizeAll, IsSqliteEntry, EntryText, DesiredColumns;
    var def := Defined(entries, unique, where);
    var reported, desired := Reported(t, def), DesiredColumns(t.inherited, def.columns);
    var same := seq(|entries|, i requires 0 <= i < |entries| => Stays(t, entries[i]));
    ColumnReadsBackExactlyWhen(t, entries, unique, where, 0);
    forall i | 0 <= i < |entries| ensures NormalizeSpec(reported[i]) == NormalizeSpec(desired[i]) <==> same[i] {
      ColumnReadsBackExactlyWhen(t, entries, unique, where, i);
    }
    SameListsExactlyWhen(reported, desired, same);
    assert forall i | 0 <= i < |entries| :: same[i] == Stays(t, entries[i]);
    if forall i | 0 <= i < |same| :: same[i] {
      assert AllStay(t, entries);
    } else {
      var i :| 0 <= i < |same| && !same[i];
      assert !Stays(t, entries[i]);
    }
    PrintedParts(t, entries, unique, where);
    assert Sqlite(t).reported(def)
        == Some(Signature(NormalizeAll(reported), false, unique,
                          Canonical(t.canonical, Reread(ReadPredicate, Printed(where)))));
    assert Sqlite(t).desired(def) == Signature(NormalizeAll(desired), false, unique, Canonical(t.canonical, where));
  }

  // ---------------------------------------------------------------- whole schemas

  /** On SQLite sync manages every index but a full-text one. */
  lemma ManagedExactlyWhen(t: Table, index: Index)
    ensures IsManaged(Sqlite(t), index) <==> !index.fulltext && index.mark.None?
    ensures DefinitionOf(Sqlite(t), index).where == if index.where == Some("") then None else index.where
  {
  }

  predicate IsIndex(t: Table, index: Index) {
    HasColumns(index) && AreSqliteEntries(t, index.entries)
  }

  predicate ReadsBack(t: Table, index: Index) {
    AllStay(t, index.entries) && WhereReadsBack(t.canonical, ReadPredicate, GivenWhere(index.where))
  }

  lemma IndexTells(t: Table, before: Catalog, index: Index)
    requires IsTable(t) && IsIndex(t, index)
    ensures Tells(Sqlite(t), before, index, ReadsBack(t, index))
  {
    if !IsFulltext(index) {
      forall i | 0 <= i < |index.entries|
        ensures Sqlite(t).column(EntryText(index.entries[i]), false) == Some(Checked(false, index.entries[i]))
      {
        EntryIsChecked(t.fields, false, index.entries[i]);
      }
    }
    assert CheckedTexts(false, index.entries) == EntryTexts(index.entries);
    hide CheckColumn, EntryText, Checked, ReportedColumns, NormalizeAll, AllStay, WhereReadsBack, AreSqliteEntries;
    hide DesiredColumns;
    DecisionIs(Sqlite(t), before, index);
    SignatureReadsBackExactlyWhen(t, index.entries, index.unique, GivenWhere(index.where));
  }

  /** Two passes over an unchanged SQLite schema: the second one is silent exactly when every index is a full-text
      one, or was in place to begin with, or has a predicate that reads back and only plain columns without length
      and ascending order, none called like a property of every object. No statement fails. */
  method SyncSqliteTwice(db: Database, t: Table, indexes: seq<Index>) returns (ok: bool, ghost first: seq<Statement>)
    requires IsTable(t) && PrimaryKey !in t.inherited && DistinctNames(Declarations(indexes))
    requires forall i | 0 <= i < |indexes| :: IsIndex(t, indexes[i])
    modifies db
    ensures ok && old(db.log) <= first <= db.log && db.failures == old(db.failures)
    ensures db.log == first
            <==> forall i | 0 <= i < |indexes| ::
                   Settles(Sqlite(t), old(db.catalog), indexes[i], ReadsBack(t, indexes[i]))
  {
    SchemaSettlesExactlyWhen(t, db.catalog, indexes);
    hide Settles, ReadsBack, AllFailing, Faithful, IsIndex;
    ok, first := SyncTwice(db, Sqlite(t), Declarations(indexes));
  }

  lemma DefinitionIs(t: Table, index: Index)
    requires !IsFulltext(index)
    ensures DefinitionOf(Sqlite(t), index) == Defined(index.entries, index.unique, GivenWhere(index.where))
  {
    assert CheckedTexts(false, index.entries) == EntryTexts(index.entries);
  }

  lemma StatementIsTaken(t: Table, entries: seq<Entry>, unique: bool, where: Option<string>)
    requires IsTable(t) && AreSqliteEntries(t, entries) && entries != []
    ensures Sqlite(t).reported(Defined(entries, unique, where)).Some? && Sqlite(t).dropsIfExists
  {
    hide ReadCreateIndex, ReportedSignature, StatementText, FindWhere, Extract, AreSqliteEntries;
    PrintedParts(t, entries, unique, where);
  }

  lemma ManagedIsTaken(t: Table, index: Index)
    requires IsTable(t) && IsIndex(t, index)
    ensures IsManaged(Sqlite(t), index) ==> Sqlite(t).reported(DefinitionOf(Sqlite(t), index)).Some?
    ensures Sqlite(t).dropsIfExists
  {
    assert IsFulltext(index) ==> !IsManaged(Sqlite(t), index);
    hide Sqlite, DefinitionOf, IsManaged, IsTable;
    StatementIsTaken(t, index.entries, index.unique, GivenWhere(index.where));
    if !IsFulltext(index) { DefinitionIs(t, index); }
  }

  lemma NothingFails(t: Table, before: Catalog, index: Index)
    requires IsTable(t) && IsIndex(t, index)
    ensures Failing(Sqlite(t), before, Declaration(index)) == []
  {
    hide Sqlite, DefinitionOf, IsManaged, DecideFor, ReadsBack, IsIndex, Failing, Tells, IsTable;
    ManagedIsTaken(t, index);
    IndexTells(t, before, index);
    TakenNeverFails(Sqlite(t), before, index, ReadsBack(t, index));
  }

  lemma SchemaSettlesExactlyWhen(t: Table, before: Catalog, indexes: seq<Index>)
    requires IsTable(t) && forall i | 0 <= i < |indexes| :: IsIndex(t, indexes[i])
    ensures Faithful(Sqlite(t), before, Declarations(indexes))
            <==> forall i | 0 <= i < |indexes| ::
                   Settles(Sqlite(t), before, indexes[i], ReadsBack(t, indexes[i]))
    ensures AllFailing(Sqlite(t), before, Declarations(indexes)) == []
  {
    hide Tells, Settles, ReadsBack, Failing, Faithful, IsIndex;
    var d, readsBack := Sqlite(t), (index: Index) => ReadsBack(t, index);
    forall i | 0 <= i < |indexes|
      ensures Tells(d, before, indexes[i], readsBack(indexes[i]))
      ensures Failing(d, before, Declaration(indexes[i])) == []
    {
      IndexTells(t, before, indexes[i]);
      NothingFails(t, before, indexes[i]);
    }
    AllFaithfulExactlyWhen(d, before, indexes, readsBack);
    NoneFailing(d, before, Declarations(indexes));
  }

  // ---------------------------------------------------------------- an index that never settles

  /** An index over a column and, behind it, a JSON accessor: the accessor is given the text of the column in front
      of it, and the index is rebuilt on every pass. */
  lemma AccessorBehindColumn(t: Table, name: string, field: string, unique: bool)
    requires IsTable(t) && IsIdentifier(name) && name[0] != '_' && name in t.fields
    requires IsIdentifier(field) && field in t.fields
    ensures var entries := [Column(Spec(name, None, "")), Json(field, '"', "$.x")];
            var def := Defined(entries, unique, None);
            var printed := PrintedColumns(def.columns);
            && |ReadColumns(CatalogColumns(printed), printed)| == |printed| == |CatalogColumns(printed)|
            && !ReadsRight(CatalogColumns(printed), printed)
            && Reported(t, def) == [name, "\"" + name + "\""]
            && Sqlite(t).reported(def) != Some(Sqlite(t).desired(def))
  {
    var entries := [Column(Spec(name, None, "")), Json(field, '"', "$.x")];
    assert IsSqliteEntry(t, entries[0]) && IsSqliteEntry(t, entries[1]);
    assert !Stays(t, entries[1]);
    hide PrintedColumn, CatalogColumn, NormalizeSpec, ReportedColumns, EntryText, IsSqliteEntry, Stays, Sqlite;
    SignatureReadsBackExactlyWhen(t, entries, unique, None);
    PlainColumnIsQuoted(name);
    BehindColumn(t, entries, unique);
    assert EntryText(entries[0]) == SpecText(entries[0].spec) by { TextOfColumn(entries[0].spec); }
    assert name + "" == name;
  }

  lemma TextOfColumn(s: Spec)
    ensures EntryText(Column(s)) == SpecText(s)
  {
  }

  /** What is reported for any accessor behind any column. */
  lemma BehindColumn(t: Table, entries: seq<Entry>, unique: bool)
    requires IsTable(t) && AreSqliteEntries(t, entries) && |entries| == 2 && entries[0].Column? && entries[1].Json?
    ensures var printed, s := PrintedColumns(EntryTexts(entries)), entries[0].spec;
            && |ReadColumns(CatalogColumns(printed), printed)| == |printed| == |CatalogColumns(printed)|
            && !ReadsRight(CatalogColumns(printed), printed)
            && Reported(t, Defined(entries, unique, None))
               == [s.name + Direction(ColumnOf(s).descending), PrintedColumn(EntryText(entries[0]))]
  {
    hide PrintedColumn, CatalogColumn, ReportedColumns, EntryText, IsEntry, ReadColumns, ReadsRight, IsExpression;
    var printed := PrintedColumns(EntryTexts(entries));
    ReportedAt(t, entries, unique, None, 0);
    ReportedAt(t, entries, unique, None, 1);
    EntryIsPrinted(t, entries[0]);
    EntryIsPrinted(t, entries[1]);
    ReadsRightExactlyWhen(CatalogColumns(printed), printed);
    assert ExpressionsBefore(CatalogColumns(printed), 0) == 0;
    assert ExpressionsBefore(CatalogColumns(printed), 1) == 0;
    assert printed[0] != printed[1];
    assert CatalogColumns(printed)[0].Some? && CatalogColumns(printed)[1].None?;
  }

  lemma PlainColumnIsQuoted(name: string)
    requires IsIdentifier(name) && name[0] != '_'
    ensures PrintedColumn(SpecText(Spec(name, None, ""))) == "\"" + name + "\""
  {
    var s := Spec(name, None, "");
    NameOfSpec(s);
    SpecIsGenerated(s);
    assert "\"" + name + "\"" + "" == "\"" + name + "\"";
  }
}
