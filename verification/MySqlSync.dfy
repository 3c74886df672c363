/** Index sync on MySQL: the dialect the general reconciliation is given, and which schemas settle in one pass
    (lib/sync-to-db.js, lib/dialects/MySQLDialect.js). */
module MySqlSync {
  import opened Wrappers
  import opened Texts
  import opened Words
  import opened Numerals
  import opened IndexColumns
  import opened IndexSpecs
  import opened SqliteIndexText
  import opened IndexStatements
  import opened MySqlIndex
  import opened MySqlJsonIndex
  import opened IndexSync
  import opened IndexEntries

  /** The columns of a table and those of a text type; how the index and the table are called in CREATE INDEX;
      `style` and `tail` say how this server prints the expression of a functional index. */
  datatype Table = Table(fields: set<string>, text: set<string>, inherited: Inherited,
                         quotedIndex: string, quotedTable: string, style: Style, tail: string)

  /** The text of an inherited property is no number, and closes what it opens. */
  predicate IsTable(t: Table) {
    && IsCollapsed(t.tail) && IsStyle(t.style) && '(' !in t.quotedIndex && '(' !in t.quotedTable
    && forall name | name in t.inherited ::
         t.inherited[name] != "" && !IsDigit(t.inherited[name][0]) && WellNested(t.inherited[name] + ")", 1, None)
  }

  // ---------------------------------------------------------------- the statement

  /** What `textLengths[name]` gives: the length recorded for a text column, or what the object inherits. */
  function LengthOf(t: Table, fulltext: bool, name: string): Option<string> {
    if !fulltext && name in t.text then Some("255") else InheritedText(t.inherited, name)
  }

  function PrintedColumn(t: Table, col: string, fulltext: bool): string {
    GenerateColumn(col, LengthOf(t, fulltext, NameOf(col)))
  }

  function PrintedColumns(t: Table, cols: seq<string>, fulltext: bool): seq<string> {
    seq(|cols|, i requires 0 <= i < |cols| => PrintedColumn(t, cols[i], fulltext))
  }

  function IndexTypeOf(fulltext: bool, unique: bool): string {
    if fulltext then "FULLTEXT INDEX" else if unique then "UNIQUE INDEX" else "INDEX"
  }

  function StatementText(t: Table, def: Definition): string {
    CreateIndexText(IndexTypeOf(def.fulltext, def.unique), t.quotedIndex, t.quotedTable,
                    PrintedColumns(t, def.columns, def.fulltext), None)
  }

  // ---------------------------------------------------------------- what the catalog reports

  /** A functional key part over a JSON accessor. */
  function ReadFunctional(text: string): Option<Accessor> {
    var front, back := "(CAST(", " as CHAR(255)) COLLATE utf8mb4_bin)";
    if |text| >= |front| + |back| && text[..|front|] == front && text[|text| - |back|..] == back then
      AsAccessor(text[|front|..|text| - |back|])
    else None
  }

  /** The text getTableIndexes gives for an entry of the column list; None when the server refuses it. */
  function ReportedColumn(t: Table, printed: string, fulltext: bool): Option<string> {
    match ReadFunctional(printed)
    case Some(a) => Some(NormalizeMySqlExpression(CatalogExpression(a.field, a.path, t.style, t.tail)))
    case None =>
      match ReadKeyPart(printed)
      case None => None
      case Some(part) => Some(ReportColumn(if fulltext then FulltextPart(part) else part))
  }

  predicate AllTaken(t: Table, printed: seq<string>, fulltext: bool) {
    forall i | 0 <= i < |printed| :: ReportedColumn(t, printed[i], fulltext).Some?
  }

  function ReportedColumns(t: Table, printed: seq<string>, fulltext: bool): seq<string>
    requires AllTaken(t, printed, fulltext)
  {
    seq(|printed|, i requires 0 <= i < |printed| => ReportedColumn(t, printed[i], fulltext).value)
  }

  function Reported(t: Table, def: Definition): Option<Signature> {
    match ReadCreateIndex(StatementText(t, def))
    case None => None
    case Some(stored) => ReportedSignature(t, stored)
  }

  function ReportedSignature(t: Table, stored: Stored): Option<Signature> {
    if AllTaken(t, stored.columns, stored.fulltext) then
      Some(Signature(NormalizeAll(ReportedColumns(t, stored.columns, stored.fulltext)), stored.fulltext, stored.unique,
                     None))
    else None
  }

  function WantedColumns(t: Table, cols: seq<string>, fulltext: bool): seq<string> {
    seq(|cols|, i requires 0 <= i < |cols| => DesiredColumn(cols[i], LengthOf(t, fulltext, NameOf(cols[i]))))
  }

  /** MySQL has full-text indexes and no partial ones; its DROP INDEX needs an index, and its reader groups the rows
      of the catalog by name. */
  function MySql(t: Table): Dialect {
    Dialect(true, false, false,
            (col: string, fulltext: bool) => CheckColumn(t.fields, col, fulltext),
            (def: Definition) =>
              Signature(NormalizeAll(WantedColumns(t, def.columns, def.fulltext)), def.fulltext, def.unique, def.where),
            (def: Definition) => Reported(t, def),
            (text: string) => Some(Signature([text], false, false, None)),
            t.inherited.Keys, true)
  }

  // ---------------------------------------------------------------- columns

  /** Accessors have a plain path, and a full-text index has plain columns without a direction. */
  predicate IsMySqlEntry(t: Table, fulltext: bool, e: Entry) {
    && IsEntry(t.fields, e)
    && (e.Json? ==> !fulltext && IsPlainPath(e.path))
    && (fulltext ==> e.Column? && e.spec.direction == "")
  }

  predicate AreMySqlEntries(t: Table, fulltext: bool, entries: seq<Entry>) {
    forall i | 0 <= i < |entries| :: IsMySqlEntry(t, fulltext, entries[i])
  }

  /** Sync finds a length for the column that it never recorded. */
  predicate InheritsLength(t: Table, fulltext: bool, name: string) {
    name in t.inherited && (fulltext || name !in t.text)
  }

  predicate EntryReadsBack(t: Table, fulltext: bool, e: Entry) {
    e.Json?
    || (!InheritsLength(t, fulltext, e.spec.name) && (fulltext || ReadsBack(e.spec, e.spec.name in t.text)))
  }

  predicate AllReadBack(t: Table, fulltext: bool, entries: seq<Entry>) {
    forall i | 0 <= i < |entries| :: EntryReadsBack(t, fulltext, entries[i])
  }

  /** A length that is no number makes no key part. */
  lemma InheritedIsRefused(s: Spec, text: string)
    requires IsSpec(s) && text != "" && !IsDigit(text[0])
    ensures ReadKeyPart(GenerateColumn(SpecText(s), Some(text))) == None
  {
    SpecIsGenerated(s, Some(text));
    KeyPartIsRead(s.name, "(" + text + ")");
    var rest := "(" + text + ")";
    assert rest[1..] == text + ")" && rest[1..][0] == text[0];
    assert ReadLength(rest) == None;
  }

  // ---------------------------------------------------------------- the printed columns

  lemma FunctionalIsRead(field: string, quote: char, path: string)
    requires IsIdentifier(field) && NoQuotes(path) && path != "" && (quote == '"' || quote == '\'')
    ensures var col := field + "->>" + [quote] + path + [quote];
            ReadFunctional("(CAST(" + col + " as CHAR(255)) COLLATE utf8mb4_bin)") == Some(Accessor(field, path))
  {
    AccessorIsRead(field, quote, path);
    var inner := field + "->>" + [quote] + path + [quote];
    InnerText("(CAST(", inner, " as CHAR(255)) COLLATE utf8mb4_bin)");
    hide AsAccessor;
  }

  lemma InnerText(front: string, inner: string, back: string)
    ensures var text := front + inner + back;
            && text[..|front|] == front && text[|text| - |back|..] == back
            && text[|front|..|text| - |back|] == inner
  {
  }

  lemma CollationTail()
    ensures WellNested(")) COLLATE utf8mb4_bin)", 3, None)
  {
    hide WellNested;
    var collation := " COLLATE utf8mb4_bin";
    NothingIsNested();
    BracketCloses("", 1);
    assert ")" + "" == ")";
    HarmlessPasses(collation, 1, ")");
    BracketCloses(collation + ")", 2);
    BracketCloses(")" + (collation + ")"), 3);
    assert ")) COLLATE utf8mb4_bin)" == ")" + (")" + (collation + ")"));
  }

  lemma CastTail()
    ensures WellNested(" as CHAR(255)) COLLATE utf8mb4_bin)", 2, None)
  {
    hide WellNested;
    var tail := ")) COLLATE utf8mb4_bin)";
    CollationTail();
    HarmlessPasses("255", 3, tail);
    BracketOpens("255" + tail, 2);
    HarmlessPasses(" as CHAR", 2, "(" + ("255" + tail));
    CastTailText();
  }

  lemma CastTailText()
    ensures " as CHAR(255)) COLLATE utf8mb4_bin)" == " as CHAR" + ("(" + ("255" + ")) COLLATE utf8mb4_bin)"))
  {
    var tail := ")) COLLATE utf8mb4_bin)";
    assert " as CHAR(255)) COLLATE utf8mb4_bin)" == " as CHAR(255" + tail;
    CastFront();
    assert " as CHAR" + "(" + "255" + tail == " as CHAR" + ("(" + ("255" + tail));
  }

  lemma CastFront()
    ensures " as CHAR(255" == " as CHAR" + "(" + "255"
  {
  }

  lemma FunctionalIsExpression(field: string, quote: char, path: string)
    requires IsIdentifier(field) && NoQuotes(path) && '\\' !in path && (quote == '"' || quote == '\'')
    ensures IsExpression("(CAST(" + (field + "->>" + [quote] + path + [quote]) + " as CHAR(255)) COLLATE utf8mb4_bin)")
  {
    hide WellNested;
    var tail := " as CHAR(255)) COLLATE utf8mb4_bin)";
    var quoted := [quote] + (path + [quote] + tail);
    IdentifierIsHarmless(field);
    CastTail();
    QuoteOpens(quote, path, 2, tail);
    HarmlessPasses("->>", 2, quoted);
    HarmlessPasses(field, 2, "->>" + quoted);
    BracketOpens(field + ("->>" + quoted), 1);
    HarmlessPasses("CAST", 1, "(" + (field + ("->>" + quoted)));
    BracketOpens("CAST" + ("(" + (field + ("->>" + quoted))), 0);
    var text := "(CAST(" + (field + "->>" + [quote] + path + [quote]) + tail;
    assert text == "(" + ("CAST" + ("(" + (field + ("->>" + quoted))));
    GraphicIsNoSpace('(');
    GraphicIsNoSpace(')');
    assert text[|text| - 1] == tail[|tail| - 1] == ')';
  }

  /** A name in backticks, a length and a direction. */
  lemma KeyPartIsExpression(name: string, rest: string)
    requires IsIdentifier(name) && WellNested(rest, 0, None) && (rest != "" ==> !IsSpace(rest[|rest| - 1]))
    ensures IsExpression("`" + name + "`" + rest)
  {
    var text := "`" + name + "`" + rest;
    KeyPartIsNested(name, rest);
    GraphicIsNoSpace('`');
    assert text[0] == '`' && text[|text| - 1] == if rest == "" then '`' else rest[|rest| - 1];
    hide WellNested, IsIdentifier, IsSpace;
  }

  lemma KeyPartIsNested(name: string, rest: string)
    requires IsIdentifier(name) && WellNested(rest, 0, None)
    ensures WellNested("`" + name + "`" + rest, 0, None)
  {
    hide WellNested;
    IdentifierIsHarmless(name);
    HarmlessPasses("`", 0, rest);
    HarmlessPasses(name, 0, "`" + rest);
    HarmlessPasses("`", 0, name + ("`" + rest));
    assert "`" + name + "`" + rest == "`" + (name + ("`" + rest));
  }

  lemma LengthIsNested(text: string)
    requires WellNested(text + ")", 1, None)
    ensures WellNested("(" + text + ")", 0, None)
  {
    BracketOpens(text + ")", 0);
    assert "(" + text + ")" == "(" + (text + ")");
  }

  lemma NumberIsNested(n: nat, rest: string)
    ensures WellNested("(" + Decimal(n) + ")" + rest, 0, None) == WellNested(rest, 0, None)
  {
    hide WellNested, Decimal;
    var digits := Decimal(n);
    assert forall i | 0 <= i < |digits| :: IsDigit(digits[i]);
    BracketCloses(rest, 1);
    HarmlessPasses(digits, 1, ")" + rest);
    BracketOpens(digits + (")" + rest), 0);
    assert "(" + digits + ")" + rest == "(" + (digits + (")" + rest));
  }

  lemma ArgsAreNested(s: Spec)
    requires IsSpec(s)
    ensures WellNested(Args(s), 0, None) && (Args(s) != "" ==> !IsSpace(Args(s)[|Args(s)| - 1]))
  {
    hide WellNested;
    DirectionIsHarmless(s);
    NothingIsNested();
    HarmlessPasses(s.direction, 0, "");
    assert s.direction + "" == s.direction;
    GraphicIsNoSpace(')');
    if s.prefix.Some? {
      NumberIsNested(s.prefix.value, s.direction);
    } else {
      assert Args(s) == s.direction;
    }
  }

  lemma SpecIsExpression(t: Table, s: Spec, length: Option<string>)
    requires IsTable(t) && IsSpec(s)
    requires length.Some? ==> length.value == "255" || (s.name in t.inherited && length.value == t.inherited[s.name])
    ensures IsExpression(GenerateColumn(SpecText(s), length))
  {
    hide IsExpression, GenerateColumn;
    SpecIsGenerated(s, length);
    if length.None? {
      ArgsAreNested(s);
      KeyPartIsExpression(s.name, Args(s));
    } else {
      GraphicIsNoSpace(')');
      if length.value == "255" {
        FullLength();
        assert "(" + "255" + ")" == "(255)";
      } else {
        LengthIsNested(length.value);
      }
      KeyPartIsExpression(s.name, "(" + length.value + ")");
    }
  }

  lemma FullLength()
    ensures WellNested("(255)", 0, None)
  {
    assert Decimal(255) == "255" && "(255)" + "" == "(255)";
    NumberIsNested(255, "");
    NothingIsNested();
  }

  lemma EntryIsPrinted(t: Table, fulltext: bool, e: Entry)
    requires IsTable(t) && IsMySqlEntry(t, fulltext, e)
    ensures IsExpression(PrintedColumn(t, Checked(fulltext, e), fulltext))
  {
    hide IsExpression, GenerateColumn, IsTable;
    match e
    case Json(field, quote, path) =>
      JsonEntry(t.fields, e);
      FunctionalIsExpression(field, quote, path);
      AccessorIsGenerated(EntryText(e), LengthOf(t, fulltext, NameOf(EntryText(e))));
    case Column(spec) =>
      var plain := if fulltext then PlainSpec(spec) else spec;
      NameOfSpec(plain);
      SpecIsExpression(t, plain, LengthOf(t, fulltext, spec.name));
  }

  lemma AccessorIsGenerated(col: string, length: Option<string>)
    requires HasAccessor(col)
    ensures GenerateColumn(col, length) == "(CAST(" + col + " as CHAR(255)) COLLATE utf8mb4_bin)"
  {
  }

  lemma NotFunctional(text: string)
    requires text == "" || text[0] != '('
    ensures ReadFunctional(text) == None
  {
  }

  /** An entry's reported column is there and the desired one exactly when the entry reads back. */
  lemma EntryReadsBackExactlyWhen(t: Table, fulltext: bool, e: Entry)
    requires IsTable(t) && IsMySqlEntry(t, fulltext, e)
    ensures var col := Checked(fulltext, e);
            var reported := ReportedColumn(t, PrintedColumn(t, col, fulltext), fulltext);
            reported.Some?
              && NormalizeSpec(reported.value) == NormalizeSpec(DesiredColumn(col, LengthOf(t, fulltext, NameOf(col))))
            <==> EntryReadsBack(t, fulltext, e)
  {
    hide ReadKeyPart, GenerateColumn, DesiredColumn, NormalizeSpec, NormalizeMySqlExpression, CatalogExpression, IsSpec;
    hide ReadFunctional;
    match e
    case Json(field, quote, path) =>
      JsonEntry(t.fields, e);
      AccessorIsGenerated(EntryText(e), LengthOf(t, fulltext, NameOf(EntryText(e))));
      FunctionalIsRead(field, quote, path);
      AccessorReadsBack(field, quote, path, t.style, t.tail, LengthOf(t, fulltext, NameOf(EntryText(e))));
    case Column(spec) =>
      var plain := if fulltext then PlainSpec(spec) else spec;
      NameOfSpec(plain);
      SpecIsGenerated(plain, LengthOf(t, fulltext, spec.name));
      NotFunctional(PrintedColumn(t, Checked(fulltext, e), fulltext));
      if InheritsLength(t, fulltext, spec.name) {
        InheritedIsRefused(plain, t.inherited[spec.name]);
      } else {
        assert LengthOf(t, fulltext, spec.name) == Implicit(!fulltext && spec.name in t.text);
        if fulltext { FulltextReadsBack(spec); } else { ColumnReadsBackExactlyWhen(spec, spec.name in t.text); }
      }
  }

  function PlainSpec(s: Spec): (plain: Spec)
    requires IsSpec(s) && s.direction == ""
    ensures IsSpec(plain) && SpecText(plain) == s.name && plain.name == s.name
  {
    var plain := s.(prefix := None);
    assert SpecText(plain) == s.name;
    plain
  }

  // ---------------------------------------------------------------- whole indexes

  /** What is reported once the statement is read: entry by entry, from the text that was printed. */
  lemma StatementIsTaken(t: Table, entries: seq<Entry>, fulltext: bool, unique: bool)
    requires IsTable(t) && AreMySqlEntries(t, fulltext, entries) && entries != []
    ensures var cols := CheckedTexts(fulltext, entries);
            Reported(t, Definition(cols, fulltext, unique, None))
            == ReportedSignature(t, Stored(unique && !fulltext, fulltext, PrintedColumns(t, cols, fulltext), None))
  {
    hide IsExpression, PrintedColumn, Checked, IsMySqlEntry, ReadCreateIndex, CreateIndexText, ReportedSignature;
    hide IsTable;
    var cols := CheckedTexts(fulltext, entries);
    var printed := PrintedColumns(t, cols, fulltext);
    forall i | 0 <= i < |printed| ensures IsExpression(printed[i]) { EntryIsPrinted(t, fulltext, entries[i]); }
    NamesAreFree(t);
    StatementIsRead(unique && !fulltext, fulltext, t.quotedIndex, t.quotedTable, printed, None);
  }

  lemma NamesAreFree(t: Table)
    requires IsTable(t)
    ensures '(' !in t.quotedIndex && '(' !in t.quotedTable
  {
  }

  /** The signature the catalog leads to is the one sync wants exactly when every column reads back; a full-text
      index is never unique. */
  lemma SignatureReadsBackExactlyWhen(t: Table, entries: seq<Entry>, fulltext: bool, unique: bool)
    requires IsTable(t) && AreMySqlEntries(t, fulltext, entries) && entries != []
    ensures var def := Definition(CheckedTexts(fulltext, entries), fulltext, unique, None);
            MySql(t).reported(def) == Some(MySql(t).desired(def))
            <==> !(fulltext && unique) && AllReadBack(t, fulltext, entries)
  {
    hide ReportedColumn, DesiredColumn, NormalizeSpec, NormalizeAll, EntryReadsBack, IsMySqlEntry, LengthOf, Checked;
    hide PrintedColumn, Reported;
    var cols := CheckedTexts(fulltext, entries);
    var printed := PrintedColumns(t, cols, fulltext);
    StatementIsTaken(t, entries, fulltext, unique);
    forall i | 0 <= i < |entries|
      ensures var reported := ReportedColumn(t, printed[i], fulltext);
              reported.Some? && NormalizeSpec(reported.value) == NormalizeSpec(WantedColumns(t, cols, fulltext)[i])
              <==> EntryReadsBack(t, fulltext, entries[i])
    {
      EntryReadsBackExactlyWhen(t, fulltext, entries[i]);
    }
    if AllTaken(t, printed, fulltext) {
      var same := seq(|entries|, i requires 0 <= i < |entries| => EntryReadsBack(t, fulltext, entries[i]));
      SameListsExactlyWhen(ReportedColumns(t, printed, fulltext), WantedColumns(t, cols, fulltext), same);
    } else {
      var i :| 0 <= i < |printed| && ReportedColumn(t, printed[i], fulltext).None?;
      assert !EntryReadsBack(t, fulltext, entries[i]);
    }
  }

  /** On MySQL sync manages every index but a unique full-text one and a unique one with a predicate. */
  lemma ManagedExactlyWhen(t: Table, index: Index)
    ensures IsManaged(MySql(t), index)
            <==> !(index.unique && (index.fulltext || index.mark.Some? || index.where !in [None, Some("")]))
    ensures DefinitionOf(MySql(t), index).where == None
  {
  }

  predicate IsIndex(t: Table, index: Index) {
    HasColumns(index) && AreMySqlEntries(t, IsFulltext(index), index.entries)
  }

  lemma IndexTells(t: Table, before: Catalog, index: Index)
    requires IsTable(t) && IsIndex(t, index)
    ensures Tells(MySql(t), before, index, AllReadBack(t, IsFulltext(index), index.entries))
  {
    forall i | 0 <= i < |index.entries|
      ensures MySql(t).column(EntryText(index.entries[i]), IsFulltext(index))
              == Some(Checked(IsFulltext(index), index.entries[i]))
    {
      EntryIsChecked(t.fields, IsFulltext(index), index.entries[i]);
    }
    hide CheckColumn, EntryText, Checked, AllTaken, ReportedColumns, WantedColumns, AllReadBack, NormalizeAll;
    hide AreMySqlEntries, Reported;
    DecisionIs(MySql(t), before, index);
    SignatureReadsBackExactlyWhen(t, index.entries, IsFulltext(index), index.unique);
  }

  // ---------------------------------------------------------------- whole schemas

  /** Sync leaves the index alone; or its name is not one that every object inherits, and it is in place or its
      columns read back. */
  predicate SettlesOnMySql(t: Table, before: Catalog, index: Index) {
    || !IsManaged(MySql(t), index)
    || (index.name !in t.inherited
        && Settles(MySql(t), before, index, AllReadBack(t, IsFulltext(index), index.entries)))
  }

  lemma ReadableExactlyWhen(t: Table, before: Catalog, index: Index)
    requires IsTable(t) && IsIndex(t, index) && Readable(MySql(t), before)
    ensures (After(MySql(t), before, Declaration(index)).Some? ==> index.name !in t.inherited)
              && Settles(MySql(t), before, index, AllReadBack(t, IsFulltext(index), index.entries))
            <==> SettlesOnMySql(t, before, index)
  {
    IndexTells(t, before, index);
    hide AllTaken, ReportedColumns, WantedColumns, NormalizeAll, DecideFor, AllReadBack;
    var d := MySql(t);
    assert Tells(d, before, index, AllReadBack(t, IsFulltext(index), index.entries));
  }

  /** Two passes over an unchanged MySQL schema: both go through, the second one silently, exactly when no index of
      the catalog and none that sync manages has a name that every object inherits, and every managed index was in
      place to begin with or has only columns that read back. */
  method SyncMySqlTwice(db: Database, t: Table, indexes: seq<Index>) returns (ok: bool, ghost first: seq<Statement>)
    requires IsTable(t) && PrimaryKey !in t.inherited && DistinctNames(Declarations(indexes))
    requires forall i | 0 <= i < |indexes| :: IsIndex(t, indexes[i])
    modifies db
    ensures old(db.log) <= first <= db.log
    ensures ok && db.log == first
            <==> (forall name | name in old(db.catalog) :: name !in t.inherited)
                 && forall i | 0 <= i < |indexes| :: SettlesOnMySql(t, old(db.catalog), indexes[i])
    ensures db.failures == old(db.failures)
            <==> (Readable(MySql(t), old(db.catalog)) ==>
                    AllFailing(MySql(t), old(db.catalog), Declarations(indexes)) == [])
  {
    SchemaSettlesExactlyWhen(t, db.catalog, indexes);
    hide SettlesOnMySql, Faithful, ReadableAfter, AllFailing, IsIndex, Readable;
    ok, first := SyncTwice(db, MySql(t), Declarations(indexes));
  }

  lemma SchemaSettlesExactlyWhen(t: Table, before: Catalog, indexes: seq<Index>)
    requires IsTable(t) && PrimaryKey !in t.inherited
    requires forall i | 0 <= i < |indexes| :: IsIndex(t, indexes[i])
    ensures var d, schema := MySql(t), Declarations(indexes);
            Readable(d, before) && ReadableAfter(d, before, schema) && Faithful(d, before, schema)
            <==> (forall name | name in before :: name !in t.inherited)
                 && forall i | 0 <= i < |indexes| :: SettlesOnMySql(t, before, indexes[i])
  {
    var d, schema := MySql(t), Declarations(indexes);
    assert Readable(d, before) <==> forall name | name in before :: name !in t.inherited;
    hide SettlesOnMySql, Settles, After, AllReadBack, Tells, IsIndex, FaithfulFor;
    var readsBack := (index: Index) => AllReadBack(t, IsFulltext(index), index.entries);
    forall i | 0 <= i < |indexes| ensures Tells(d, before, indexes[i], readsBack(indexes[i])) {
      IndexTells(t, before, indexes[i]);
    }
    AllFaithfulExactlyWhen(d, before, indexes, readsBack);
    if Readable(d, before) {
      forall i | 0 <= i < |indexes|
        ensures (After(d, before, schema[i]).Some? ==> schema[i].0 !in t.inherited)
                  && Settles(d, before, indexes[i], readsBack(indexes[i]))
                <==> SettlesOnMySql(t, before, indexes[i])
      {
        ReadableExactlyWhen(t, before, indexes[i]);
      }
    }
  }

  // ---------------------------------------------------------------- indexes that never settle

  /** An index over `name ASC` is reported as one over `name` and rebuilt on every pass. */
  lemma AscendingIsRebuilt(t: Table, name: string, unique: bool)
    requires IsTable(t) && IsIdentifier(name) && name[0] != '_' && name in t.fields
    ensures var def := Definition([name + " ASC"], false, unique, None);
            MySql(t).reported(def) != Some(MySql(t).desired(def))
  {
    var spec := Spec(name, None, " ASC");
    var entries := [Column(spec)];
    assert " ASC"[1..] == "ASC" && Lower("ASC") == "asc";
    assert IsSpec(spec) && IsMySqlEntry(t, false, entries[0]);
    assert SpecText(spec) == name + " ASC";
    assert CheckedTexts(false, entries) == [SpecText(spec)];
    assert !EntryReadsBack(t, false, entries[0]);
    hide EntryReadsBack, MySql;
    SignatureReadsBackExactlyWhen(t, entries, false, unique);
  }

  /** An index called like a property of every object, as `constructor` is, is dropped before it is created, which
      fails; and once it is there the catalog cannot be read any more. */
  lemma InheritedNameFails(t: Table, index: Index)
    requires IsTable(t) && IsIndex(t, index) && IsManaged(MySql(t), index)
    requires index.name in t.inherited && AllReadBack(t, IsFulltext(index), index.entries)
    ensures Failing(MySql(t), map[], Declaration(index)) == [Drop(index.name)]
    ensures !ReadableAfter(MySql(t), map[], [Declaration(index)])
  {
    IndexTells(t, map[], index);
    hide AllTaken, ReportedColumns, WantedColumns, NormalizeAll, DecideFor, AllReadBack, IsManaged;
    assert [Declaration(index)][0] == Declaration(index);
  }

  /** A column of such a name has no index on MySQL: the statement that should create it is refused. */
  lemma InheritedColumnIsRefused(t: Table, name: string, unique: bool)
    requires IsTable(t) && IsIdentifier(name) && name[0] != '_' && name in t.inherited && name !in t.text
    ensures MySql(t).reported(Definition([name], false, unique, None)) == None
  {
    hide ReadCreateIndex, IsExpression, ReportedColumn, CreateIndexText, IsTable;
    var def, printed := Definition([name], false, unique, None), PrintedColumns(t, [name], false);
    NameIsRefused(t, name);
    NamesAreFree(t);
    StatementIsRead(unique, false, t.quotedIndex, t.quotedTable, printed, None);
    assert ReportedColumn(t, printed[0], false).None?;
    assert Reported(t, def) == None;
  }

  lemma NameIsRefused(t: Table, name: string)
    requires IsTable(t) && IsIdentifier(name) && name[0] != '_' && name in t.inherited && name !in t.text
    ensures IsExpression(PrintedColumn(t, name, false))
    ensures ReportedColumn(t, PrintedColumn(t, name, false), false) == None
  {
    hide IsExpression, GenerateColumn, ReadKeyPart, IsSpec, ReadFunctional;
    var spec := Spec(name, None, "");
    PlainName(name);
    NameOfSpec(spec);
    SpecIsExpression(t, spec, LengthOf(t, false, name));
    SpecIsGenerated(spec, LengthOf(t, false, name));
    NotFunctional(PrintedColumn(t, name, false));
    InheritedIsRefused(spec, t.inherited[name]);
  }

  lemma PlainName(name: string)
    requires IsIdentifier(name) && name[0] != '_'
    ensures IsSpec(Spec(name, None, "")) && SpecText(Spec(name, None, "")) == name
  {
  }
}
