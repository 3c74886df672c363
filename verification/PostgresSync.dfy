/** Index sync on PostgreSQL: the dialect the general reconciliation is given, and which schemas settle in one pass
    (lib/sync-to-db.js, lib/dialects/PostgresDialect.js). */
module PostgresSync {
  import opened Wrappers
  import opened Texts
  import opened Words
  import opened IndexColumns
  import opened IndexSpecs
  import opened QuotedIndex
  import opened SqliteIndexText
  import opened IndexStatements
  import opened PostgresJsonPath
  import opened PostgresJsonRoundTrip
  import opened IndexSync
  import opened IndexEntries
  import Names = IndexNames
  import Predicates = IndexPredicate
  import Reading = IndexPredicateMeaning
  import Comparing = IndexPredicateText

  /** The columns of a table, the names the catalog prints in quotes, how the index and the table are called in
      CREATE INDEX, how the server prints a predicate, the comparison form of one, and what is reported for a
      full-text index. */
  datatype Table = Table(fields: set<string>, inherited: Inherited, quoted: set<string>,
                         quotedIndex: string, quotedTable: string,
                         rendered: string -> string, canonical: string -> string,
                         fulltext: Definition -> Option<Signature>)

  predicate IsTable(t: Table) {
    '(' !in t.quotedIndex && '(' !in t.quotedTable
  }

  // ---------------------------------------------------------------- the statement

  /** One entry of the column list of generateCreateIndex. */
  function PrintedColumn(col: string): string {
    if HasAccessor(col) then "(" + (Convert(col) + ")") else GenerateColumn(col)
  }

  function PrintedColumns(cols: seq<string>): seq<string> {
    seq(|cols|, i requires 0 <= i < |cols| => PrintedColumn(cols[i]))
  }

  function StatementText(t: Table, def: Definition): string {
    CreateIndexText(IndexType(def.unique), t.quotedIndex, t.quotedTable, PrintedColumns(def.columns), def.where)
  }

  // ---------------------------------------------------------------- what the catalog prints

  /** A JSON accessor in parentheses: field, operator and literal. */
  function ReadFunctional(text: string): Option<(string, string, string)> {
    if |text| < 2 || text[0] != '(' || text[|text| - 1] != ')' then None
    else
      var inner := text[1..|text| - 1];
      var rest := inner[WordEnd(inner)..];
      var operator, literal := rest[..IndexOf(rest, '\'')], rest[IndexOf(rest, '\'')..];
      if operator in ["->", "->>", "#>", "#>>"] && literal != "" then Some((inner[..WordEnd(inner)], operator, literal))
      else None
  }

  /** One column of pg_get_indexdef, for an entry of the column list; a text that is neither a column nor such an
      accessor is printed as it is. */
  function CatalogColumn(t: Table, printed: string): string {
    match ReadColumn(printed)
    case Some(column) => FieldText(column.name, column.name in t.quoted) + Direction(column.descending)
    case None =>
      match ReadFunctional(printed)
      case None => printed
      case Some((field, operator, literal)) =>
        "((" + FieldText(field, field in t.quoted) + " "
        + (operator + (" " + (literal + (if operator[0] == '#' then "::text[]))" else "::text))"))))
  }

  function CatalogColumns(t: Table, printed: seq<string>): seq<string> {
    seq(|printed|, i requires 0 <= i < |printed| => CatalogColumn(t, printed[i]))
  }

  // ---------------------------------------------------------------- what the reader makes of it

  predicate Includes(s: string, p: string) {
    |s| >= |p| && (s[..|p|] == p || (s != "" && Includes(s[1..], p)))
  }

  predicate HasOperator(s: string) {
    Includes(s, "->>") || Includes(s, "#>>")
  }

  /** `replace(/^"|"$/g, '')`. */
  function DropEnds(s: string): string {
    var t := if s != "" && s[0] == '"' then s[1..] else s;
    if t != "" && t[|t| - 1] == '"' then t[..|t| - 1] else t
  }

  function PlainColumns(parts: seq<string>): seq<string> {
    if parts == [] then []
    else (if DropEnds(Trim(parts[0])) == "" then [] else [DropEnds(Trim(parts[0]))]) + PlainColumns(parts[1..])
  }

  /** getTableIndexes: a column list with a JSON operator is taken for one column. */
  function ReadColumnList(list: string): seq<string> {
    if HasOperator(list) then [NormalizeExpression(list)]
    else PlainColumns(Split(list, ',', ""))
  }

  function ReportedColumns(t: Table, cols: seq<string>): seq<string> {
    ReadColumnList(JoinList(CatalogColumns(t, PrintedColumns(cols))))
  }

  /** What sync compares, for an index as the server has it. */
  function ReportedSignature(t: Table, stored: Stored): Signature {
    Signature(NormalizeAll(ReadColumnList(JoinList(CatalogColumns(t, stored.columns)))), stored.fulltext,
              stored.unique, Canonical(t.canonical, Reread(t.rendered, stored.where)))
  }

  function Reported(t: Table, def: Definition): Option<Signature> {
    match ReadCreateIndex(StatementText(t, def))
    case None => None
    case Some(stored) => Some(ReportedSignature(t, stored))
  }

  /** PostgreSQL has full-text and partial indexes. */
  function Postgres(t: Table): Dialect {
    Dialect(true, true, true,
            (col: string, fulltext: bool) => CheckColumn(t.fields, col, fulltext),
            (def: Definition) =>
              Signature(NormalizeAll(DesiredColumns(t.inherited, def.columns)), def.fulltext, def.unique,
                        Canonical(t.canonical, def.where)),
            (def: Definition) =>
              if def.fulltext then t.fulltext(def) else Reported(t, def),
            (text: string) => Some(Signature([text], false, false, None)),
            t.inherited.Keys, false)
  }

  // ---------------------------------------------------------------- columns of a schema

  /** A path of names and subscripts, with its root or without. */
  ghost predicate IsStepPath(path: string) {
    exists steps, root :: IsSpelled(steps, root, path)
  }

  predicate IsSpelled(steps: seq<Step>, root: bool, path: string) {
    AreSteps(steps) && steps != [] && (root || steps[0].Named?) && path == Spelled(steps, root)
  }

  ghost predicate IsPgEntry(t: Table, e: Entry) {
    IsEntry(t.fields, e) && (e.Json? ==> IsStepPath(e.path))
  }

  ghost predicate ArePgEntries(t: Table, entries: seq<Entry>) {
    forall i | 0 <= i < |entries| :: IsPgEntry(t, entries[i])
  }

  /** What the catalog prints for an entry. */
  function Printed(t: Table, e: Entry): string {
    match e
    case Column(spec) => FieldText(spec.name, spec.name in t.quoted) + Direction(ColumnOf(spec).descending)
    case Json(field, _, path) => CatalogText(field, field in t.quoted, SplitJsonPath(path))
  }

  function PrintedAll(t: Table, entries: seq<Entry>): seq<string> {
    seq(|entries|, i requires 0 <= i < |entries| => Printed(t, entries[i]))
  }

  lemma EntryIsPrinted(t: Table, e: Entry)
    requires IsPgEntry(t, e)
    ensures CatalogColumn(t, PrintedColumn(EntryText(e))) == Printed(t, e)
    ensures IsExpression(PrintedColumn(EntryText(e)))
  {
    hide GenerateColumn, ReadColumn, IsExpression, Convert, CatalogText, ReadFunctional, SplitJsonPath, IsStepPath;
    match e
    case Json(field, quote, path) =>
      JsonEntry(t.fields, e);
      PathIsHarmless(path);
      AccessorIsConverted(field, quote, path);
      FunctionalIsPrinted(t, field, SplitJsonPath(path));
    case Column(spec) =>
      NameOfSpec(spec);
      NamedColumnIsExpression(spec);
      QuotedReadsBackExactlyWhen(spec);
  }

  lemma AccessorIsConverted(field: string, quote: char, path: string)
    requires IsIdentifier(field) && NoQuotes(path) && path != "" && (quote == '"' || quote == '\'')
    ensures Convert(field + "->>" + [quote] + path + [quote]) == field + OperatorAndLiteral(SplitJsonPath(path), true)
  {
    ConvertAccessor(field, true, quote, path);
  }

  /** The operator and the literal of an accessor with these keys. */
  function OperatorOf(keys: seq<string>): string {
    if |keys| == 1 then "->>" else "#>>"
  }

  function LiteralOf(keys: seq<string>): string {
    if |keys| == 1 then "'" + (Commas(keys) + "'") else "'" + ("{" + Commas(keys) + "}" + "'")
  }

  lemma OperatorIsPrinted(keys: seq<string>)
    requires AreKeys(keys) && keys != []
    ensures OperatorAndLiteral(keys, true) == OperatorOf(keys) + LiteralOf(keys)
  {
    JoinedKeys(keys);
  }

  lemma FunctionalIsRead(field: string, operator: string, literal: string)
    requires IsIdentifier(field) && literal != "" && literal[0] == '\'' && (operator == "->>" || operator == "#>>")
    ensures ReadFunctional("(" + (field + (operator + literal) + ")")) == Some((field, operator, literal))
  {
    var inner := field + (operator + literal);
    var text := "(" + (inner + ")");
    assert text[1..|text| - 1] == inner;
    IdentifierThen(field, operator + literal);
    assert inner[..|field|] == field && inner[|field|..] == operator + literal;
    IndexOfSkips(operator, '\'', literal[1..]);
    assert operator + ['\''] + literal[1..] == operator + literal;
    assert (operator + literal)[..|operator|] == operator && (operator + literal)[|operator|..] == literal;
  }

  lemma FunctionalIsExpression(field: string, operator: string, content: string)
    requires IsIdentifier(field) && (operator == "->>" || operator == "#>>") && '\'' !in content && '\\' !in content
    ensures IsExpression("(" + (field + (operator + ("'" + (content + "'"))) + ")"))
  {
    hide WellNested;
    var quoted := ['\''] + (content + ['\''] + ")");
    IdentifierIsHarmless(field);
    BracketsClose();
    QuoteOpens('\'', content, 1, ")");
    HarmlessPasses(operator, 1, quoted);
    HarmlessPasses(field, 1, operator + quoted);
    assert field + (operator + ("'" + (content + "'"))) + ")" == field + (operator + quoted);
    BracketedIsExpression(field + (operator + ("'" + (content + "'"))));
  }

  lemma ContentIsHarmless(keys: seq<string>)
    requires AreKeys(keys)
    ensures '\'' !in Commas(keys) && '\\' !in Commas(keys)
  {
    JoinedKeys(keys);
  }

  /** What the server prints for an accessor that was converted. */
  lemma FunctionalIsPrinted(t: Table, field: string, keys: seq<string>)
    requires IsIdentifier(field) && AreKeys(keys) && keys != []
    ensures var printed := "(" + (field + OperatorAndLiteral(keys, true) + ")");
            && CatalogColumn(t, printed) == CatalogText(field, field in t.quoted, keys) && IsExpression(printed)
  {
    hide ReadFunctional, IsExpression, FieldText, Commas, OperatorAndLiteral, AreKeys;
    var content := if |keys| == 1 then Commas(keys) else "{" + Commas(keys) + "}";
    ContentIsHarmless(keys);
    OperatorIsPrinted(keys);
    FunctionalIsRead(field, OperatorOf(keys), LiteralOf(keys));
    FunctionalIsExpression(field, OperatorOf(keys), content);
    assert LiteralOf(keys) == "'" + (content + "'");
    LiteralWithCast(keys);
  }

  lemma CastBehindQuote(x: string, cast: string)
    ensures "'" + (x + "'") + cast == "'" + (x + ['\''] + cast)
  {
  }

  lemma CastBehindBrace(x: string, cast: string)
    ensures "'" + ("{" + x + "}" + "'") + cast == "'{" + (x + ['}'] + ("'" + cast))
  {
  }

  lemma LiteralWithCast(keys: seq<string>)
    requires keys != []
    ensures LiteralText(keys) == LiteralOf(keys) + (if |keys| == 1 then "::text))" else "::text[]))")
    ensures CatalogTail(keys) == OperatorOf(keys) + (" " + LiteralText(keys))
    ensures OperatorOf(keys)[0] == '#' <==> |keys| != 1
  {
    if |keys| == 1 { OneKeyIsAlone(keys); }
    hide Commas;
    CastBehindQuote(Commas(keys), "::text))");
    CastBehindBrace(Commas(keys), "::text[]))");
  }

  lemma EntriesArePrinted(t: Table, entries: seq<Entry>)
    requires ArePgEntries(t, entries)
    ensures CatalogColumns(t, PrintedColumns(EntryTexts(entries))) == PrintedAll(t, entries)
    ensures forall i | 0 <= i < |entries| :: IsExpression(PrintedColumns(EntryTexts(entries))[i])
  {
    hide EntryText, IsPgEntry, CatalogColumn, Printed, PrintedColumn, IsExpression;
    forall i | 0 <= i < |entries|
      ensures CatalogColumn(t, PrintedColumn(EntryText(entries[i]))) == Printed(t, entries[i])
      ensures IsExpression(PrintedColumn(EntryText(entries[i])))
    {
      EntryIsPrinted(t, entries[i]);
    }
  }

  lemma PathIsHarmless(path: string)
    requires IsStepPath(path)
    ensures path != "" && NoQuotes(path) && AllGraphic(path)
    ensures AreKeys(SplitJsonPath(path)) && SplitJsonPath(path) != []
  {
    var steps, root :| IsSpelled(steps, root, path);
    SpelledIsHarmless(steps, root);
    PathIsSplit(steps, root);
    KeysAreKeys(steps);
  }

  // ---------------------------------------------------------------- reading plain columns

  predicate HasNoMark(s: string) {
    forall i | 0 <= i < |s| :: s[i] != '>' && s[i] != ','
  }

  lemma {:induction false} NoArrowIncluded(s: string, p: string)
    requires (forall i | 0 <= i < |s| :: s[i] != '>') && |p| == 3 && p[1] == '>'
    ensures !Includes(s, p)
  {
    if |s| >= 3 {
      assert s[..3][1] == s[1];
      NoArrowIncluded(s[1..], p);
    }
  }

  lemma PlainPrinted(t: Table, s: Spec)
    requires IsSpec(s)
    ensures var text := Printed(t, Column(s)); HasNoMark(text) && text != "" && IsTrimmed(text)
  {
    hide IsDescending;
    var field, direction := FieldText(s.name, s.name in t.quoted), Direction(ColumnOf(s).descending);
    FieldIsPlain(s.name, s.name in t.quoted);
    DirectionIsPlain(ColumnOf(s).descending);
    hide FieldText, Direction, IsSpace;
    assert HasNoMark(field + direction);
  }

  lemma FieldIsPlain(name: string, quoted: bool)
    requires IsIdentifier(name)
    ensures var text := FieldText(name, quoted);
            HasNoMark(text) && text != "" && !IsSpace(text[0]) && !IsSpace(text[|text| - 1])
  {
    WordEndStops(name);
    GraphicIsNoSpace('"');
    GraphicIsNoSpace(name[0]);
    GraphicIsNoSpace(name[|name| - 1]);
  }

  lemma DirectionIsPlain(descending: bool)
    ensures var text := Direction(descending); HasNoMark(text) && (text != "" ==> !IsSpace(text[|text| - 1]))
  {
    GraphicIsNoSpace('C');
  }

  lemma QuotedEnds(name: string)
    requires IsIdentifier(name)
    ensures DropEnds("\"" + name + "\"") == name
    ensures DropEnds("\"" + name + "\"" + " DESC") == name + "\"" + " DESC"
  {
    assert ("\"" + name + "\"")[1..] == name + "\"";
    assert ("\"" + name + "\"" + " DESC")[1..] == name + "\"" + " DESC";
  }

  lemma UnquotedEnds(text: string)
    requires text != "" && text[0] != '"' && text[|text| - 1] != '"'
    ensures DropEnds(text) == text
  {
  }

  /** The quotes around the name are dropped, or one of them by the reader and the other by the normaliser. */
  lemma PlainIsRead(t: Table, s: Spec)
    requires IsSpec(s)
    ensures var text := DropEnds(Printed(t, Column(s)));
            text != "" && NormalizeSpec(text) == s.name + Direction(ColumnOf(s).descending)
  {
    hide DropEnds, NormalizeSpec, IsDescending;
    var name, direction := s.name, Direction(ColumnOf(s).descending);
    var text := Printed(t, Column(s));
    NormalPlain(name, direction);
    QuotedEnds(name);
    if name !in t.quoted {
      WordEndStops(name);
      UnquotedEnds(name + direction);
    } else if direction == "" {
      assert text + "" == text && name + "" == name;
      assert text == "\"" + name + "\"";
    } else {
      HalfQuoted(name);
    }
  }

  lemma HalfQuotedIsPlain(name: string)
    requires IsIdentifier(name)
    ensures var raw := name + "\"" + " DESC"; AsPlain(raw) == Some(Plain(name, " DESC")) && AsAccessor(raw) == None
  {
    hide AsDirection, AsAccessor;
    var raw, rest := name + "\"" + " DESC", "\"" + " DESC";
    assert raw == name + rest;
    IdentifierThen(name, rest);
    assert raw[|name|..] == rest && raw[..|name|] == name && rest[1..] == " DESC";
    NotAnAccessor(raw);
    DirectionsRead();
    assert DropQuote(raw) == raw && DropQuote(rest) == " DESC";
  }

  lemma HalfQuotedIsNormal(name: string)
    requires IsIdentifier(name)
    ensures var raw := name + "\"" + " DESC"; IsTrimmed(raw) && IsCollapsed(raw)
  {
    hide IsTrimmed, IsCollapsed;
    IdentifierIsGraphic(name);
    GraphicConcat(name, "\"");
    GraphicIsCollapsed(name + "\"");
    GraphicIsCollapsed("DESC");
    BlankBetween(name + "\"", "DESC");
    assert name + "\"" + " " + "DESC" == name + "\"" + " DESC";
  }

  lemma HalfQuoted(name: string)
    requires IsIdentifier(name)
    ensures NormalizeSpec(name + "\"" + " DESC") == name + " DESC"
  {
    hide AsPlain, AsAccessor, NormalizeSpec, IsTrimmed, IsCollapsed;
    HalfQuotedIsNormal(name);
    NormalOf(name + "\"" + " DESC");
    HalfQuotedIsPlain(name);
  }

  /** The parts of a list joined with commas, the blanks before them included. */
  lemma {:induction false} ListIsSplit(parts: seq<string>, front: string)
    requires parts != [] && forall i | 0 <= i < |parts| :: HasNoMark(parts[i])
    ensures var split := Split(JoinList(parts), ',', front);
            |split| == |parts| && split[0] == front + parts[0]
            && forall i | 0 < i < |parts| :: split[i] == " " + parts[i]
    decreases |parts|
  {
    hide Split;
    assert ',' !in parts[0];
    if |parts| == 1 {
      SplitPlain(parts[0], "", ',', front);
      assert parts[0] + "" == parts[0];
      NothingIsSplit(front + parts[0]);
    } else {
      var more := JoinList(parts[1..]);
      JoinListMore(parts);
      SplitPlain(parts[0], ", " + more, ',', front);
      assert ", " + more == [','] + (" " + more);
      SplitAtSeparator(',', " " + more, front + parts[0]);
      SplitPlain(" ", more, ',', "");
      assert "" + " " == " ";
      ListIsSplit(parts[1..], " ");
      var rest := Split(more, ',', " ");
      assert Split(JoinList(parts), ',', front) == [front + parts[0]] + rest;
      assert forall i | 0 < i < |parts| :: parts[i] == parts[1..][i - 1];
    }
  }

  lemma NothingIsSplit(part: string)
    ensures Split("", ',', part) == [part]
  {
  }

  /** Columns none of which is empty are all kept. */
  lemma {:induction false} PlainColumnsAre(parts: seq<string>, texts: seq<string>)
    requires |parts| == |texts|
    requires forall i | 0 <= i < |parts| :: Trim(parts[i]) == texts[i] && DropEnds(texts[i]) != ""
    ensures |PlainColumns(parts)| == |texts|
    ensures forall i | 0 <= i < |texts| :: PlainColumns(parts)[i] == DropEnds(texts[i])
  {
    hide Trim, DropEnds;
    if parts != [] {
      PlainColumnsAre(parts[1..], texts[1..]);
      assert PlainColumns(parts) == [DropEnds(texts[0])] + PlainColumns(parts[1..]);
    }
  }

  predicate AllColumns(entries: seq<Entry>) {
    forall i | 0 <= i < |entries| :: entries[i].Column?
  }

  lemma TrimPart(text: string, part: string)
    requires IsTrimmed(text) && text != "" && (part == text || part == " " + text)
    ensures Trim(part) == text
  {
    TrimTrimmed(text);
    TrimBlank(text);
  }

  lemma {:induction false} ListHasNoArrow(parts: seq<string>)
    requires forall i | 0 <= i < |parts| :: HasNoMark(parts[i])
    ensures forall i | 0 <= i < |JoinList(parts)| :: JoinList(parts)[i] != '>'
  {
    if parts != [] {
      assert HasNoMark(parts[0]);
      ListHasNoArrow(parts[1..]);
    }
  }

  /** An index without accessors is reported column by column. */
  lemma PlainListIsRead(t: Table, entries: seq<Entry>)
    requires ArePgEntries(t, entries) && entries != [] && AllColumns(entries)
    ensures var reported := ReportedColumns(t, EntryTexts(entries));
            && |reported| == |entries|
            && forall i | 0 <= i < |entries| ::
                 NormalizeSpec(reported[i]) == entries[i].spec.name + Direction(ColumnOf(entries[i].spec).descending)
  {
    hide Split, JoinList, Printed, Trim, NormalizeSpec, DropEnds, PlainColumns, Direction;
    var texts := PrintedAll(t, entries);
    EntriesArePrinted(t, entries);
    forall i | 0 <= i < |texts|
      ensures HasNoMark(texts[i]) && texts[i] != "" && IsTrimmed(texts[i]) && DropEnds(texts[i]) != ""
      ensures NormalizeSpec(DropEnds(texts[i]))
              == entries[i].spec.name + Direction(ColumnOf(entries[i].spec).descending)
    {
      assert IsPgEntry(t, entries[i]);
      PlainPrinted(t, entries[i].spec);
      PlainIsRead(t, entries[i].spec);
    }
    ListHasNoArrow(texts);
    NoArrowIncluded(JoinList(texts), "->>");
    NoArrowIncluded(JoinList(texts), "#>>");
    ListIsSplit(texts, "");
    var parts := Split(JoinList(texts), ',', "");
    forall i | 0 <= i < |texts| ensures Trim(parts[i]) == texts[i] {
      assert "" + texts[0] == texts[0];
      TrimPart(texts[i], parts[i]);
    }
    PlainColumnsAre(parts, texts);
  }

  // ---------------------------------------------------------------- reading accessors

  lemma {:induction false} IncludedInside(front: string, p: string, behind: string)
    requires p != ""
    ensures Includes(front + p + behind, p)
  {
    var s := front + p + behind;
    if front == "" {
      assert s[..|p|] == p;
    } else {
      assert s[1..] == front[1..] + p + behind;
      IncludedInside(front[1..], p, behind);
    }
  }

  /** Every part stands in the list with something before and behind it. */
  lemma {:induction false} PartInList(parts: seq<string>, k: nat) returns (front: string, behind: string)
    requires k < |parts|
    ensures JoinList(parts) == front + parts[k] + behind
    decreases |parts|
  {
    if |parts| == 1 {
      front, behind := "", "";
    } else if k == 0 {
      front, behind := "", ", " + JoinList(parts[1..]);
      assert JoinList(parts) == "" + parts[0] + (", " + JoinList(parts[1..]));
    } else {
      front, behind := PartInList(parts[1..], k - 1);
      JoinListMore(parts);
      assert JoinList(parts) == (parts[0] + ", " + front) + parts[k] + behind;
      front := parts[0] + ", " + front;
    }
  }

  /** What includes a text includes it inside any other. */
  lemma IncludedAround(front: string, head: string, operator: string, tail: string, behind: string)
    requires operator == "->>" || operator == "#>>"
    ensures HasOperator(front + (head + operator + tail) + behind)
  {
    hide Includes;
    IncludedInside(front + head, operator, tail + behind);
    assert front + (head + operator + tail) + behind == (front + head) + operator + (tail + behind);
  }

  lemma AccessorHasOperator(field: string, quoted: bool, keys: seq<string>, front: string, behind: string)
    ensures HasOperator(front + CatalogText(field, quoted, keys) + behind)
  {
    hide Includes, HasOperator, LiteralText, FieldText;
    var head, operator := "((" + FieldText(field, quoted) + " ", if |keys| == 1 then "->>" else "#>>";
    var tail := " " + LiteralText(keys);
    assert CatalogText(field, quoted, keys) == head + operator + tail;
    IncludedAround(front, head, operator, tail, behind);
  }

  /** A list with an accessor is taken for one column. */
  lemma AccessorListIsOne(t: Table, entries: seq<Entry>, k: nat)
    requires ArePgEntries(t, entries) && k < |entries| && entries[k].Json?
    ensures ReportedColumns(t, EntryTexts(entries)) == [NormalizeExpression(JoinList(PrintedAll(t, entries)))]
  {
    hide NormalizeExpression, JoinList, Includes, CatalogText, CatalogColumns, EntryTexts;
    EntriesArePrinted(t, entries);
    var e, texts := entries[k], PrintedAll(t, entries);
    var front, behind := PartInList(texts, k);
    AccessorHasOperator(e.field, e.field in t.quoted, SplitJsonPath(e.path), front, behind);
    assert HasOperator(JoinList(texts));
  }

  // ---------------------------------------------------------------- signatures

  predicate HasSubscript(path: string) {
    exists i | 0 <= i < |path| :: path[i] == '['
  }

  lemma {:induction false} SubscriptsAreSeen(steps: seq<Step>)
    requires AreSteps(steps)
    ensures HasSubscript(PathText(steps)) <==> !NoSubscripts(steps)
  {
    if steps != [] {
      SubscriptsAreSeen(steps[1..]);
      assert IsStep(steps[0]);
      var first := if steps[0].Named? then "." + steps[0].key else "[" + steps[0].digits + "]";
      var rest := PathText(steps[1..]);
      assert PathText(steps) == first + rest;
      assert forall i | 0 <= i < |rest| :: (first + rest)[|first| + i] == rest[i];
      if steps[0].Named? {
        assert forall i | 0 <= i < |first| :: first[i] != '[';
        assert forall i | |first| <= i < |first + rest| :: (first + rest)[i] == rest[i - |first|];
        assert NoSubscripts(steps) <==> NoSubscripts(steps[1..]);
      } else {
        assert (first + rest)[0] == '[';
      }
    }
  }

  lemma SpelledSubscripts(steps: seq<Step>, root: bool)
    requires AreSteps(steps) && steps != [] && (root || steps[0].Named?)
    ensures HasSubscript(Spelled(steps, root)) <==> !NoSubscripts(steps)
  {
    hide PathText;
    SubscriptsAreSeen(steps);
    var text := PathText(steps);
    if root {
      assert forall i | 0 <= i < |text| :: ("$" + text)[i + 1] == text[i];
      assert forall i | 0 < i < |text| + 1 :: ("$" + text)[i] == text[i - 1];
    } else {
      NamedText(steps);
      assert forall i | 0 < i < |text| :: text[i] == text[1..][i - 1];
    }
  }

  /** The columns: either one accessor whose path has no subscript, or plain columns only, without lengths and
      ascending orders, none called like a property of every object. */
  predicate ColumnsReadBack(t: Table, entries: seq<Entry>) {
    if |entries| == 1 && entries[0].Json? then !HasSubscript(entries[0].path)
    else forall i | 0 <= i < |entries| :: Stays(t, entries[i])
  }

  predicate Stays(t: Table, e: Entry) {
    e.Column? && StaysAsWritten(e.spec) && e.spec.name !in t.inherited
  }

  lemma AccessorAlone(t: Table, e: Entry)
    requires IsPgEntry(t, e) && e.Json?
    ensures ReportedColumns(t, EntryTexts([e])) == [NormalizeExpression(Printed(t, e))]
    ensures DesiredColumns(t.inherited, EntryTexts([e])) == [EntryText(e)]
  {
    AccessorListIsOne(t, [e], 0);
    assert PrintedAll(t, [e]) == [Printed(t, e)];
    hide ReportedColumns, NormalizeExpression, Printed, EntryText, IsStepPath;
    JsonEntry(t.fields, e);
    assert EntryTexts([e]) == [EntryText(e)];
  }

  lemma AccessorAloneExactlyWhen(t: Table, e: Entry)
    requires IsPgEntry(t, e) && e.Json?
    ensures NormalizeSpec(NormalizeExpression(Printed(t, e))) == NormalizeSpec(EntryText(e)) <==> !HasSubscript(e.path)
  {
    var steps, root :| IsSpelled(steps, root, e.path);
    hide NormalizeExpression, NormalizeSpec, ReportedColumns, Spelled, AreSteps, HasSubscript, CatalogText;
    SpelledSubscripts(steps, root);
    AccessorReadsBackExactlyWhen(e.field, e.field in t.quoted, e.quote, steps, root);
  }

  /** What the report of a plain column is worth. */
  lemma PlainReadsBackExactlyWhen(t: Table, s: Spec)
    requires IsSpec(s)
    ensures s.name + Direction(ColumnOf(s).descending)
            == NormalizeSpec(DesiredColumn(SpecText(s), InheritedText(t.inherited, s.name)))
            <==> StaysAsWritten(s) && s.name !in t.inherited
  {
    hide NormalizeSpec, DesiredColumn, IsSpec;
    QuotedReadsBackExactlyWhen(s);
    DesiredOfSpec(s, InheritedText(t.inherited, s.name));
    if s.name in t.inherited && s.prefix.None? {
      InheritedIsNeverReported(s, t.inherited[s.name], Direction(ColumnOf(s).descending));
    }
  }

  lemma ColumnsAloneExactlyWhen(t: Table, entries: seq<Entry>)
    requires ArePgEntries(t, entries) && entries != [] && AllColumns(entries)
    ensures NormalizeAll(ReportedColumns(t, EntryTexts(entries)))
            == NormalizeAll(DesiredColumns(t.inherited, EntryTexts(entries)))
            <==> forall i | 0 <= i < |entries| :: Stays(t, entries[i])
  {
    hide ReportedColumns, NormalizeSpec, StaysAsWritten, Direction, NormalizeAll, DesiredColumn, IsSpec, IsStepPath;
    PlainListIsRead(t, entries);
    var reported, desired := ReportedColumns(t, EntryTexts(entries)), DesiredColumns(t.inherited, EntryTexts(entries));
    var same := seq(|entries|, i requires 0 <= i < |entries| => Stays(t, entries[i]));
    forall i | 0 <= i < |entries| ensures NormalizeSpec(reported[i]) == NormalizeSpec(desired[i]) <==> same[i] {
      assert IsPgEntry(t, entries[i]);
      NameOfSpec(entries[i].spec);
      PlainReadsBackExactlyWhen(t, entries[i].spec);
    }
    SameListsExactlyWhen(reported, desired, same);
    assert forall i | 0 <= i < |entries| :: same[i] == Stays(t, entries[i]);
    if i :| 0 <= i < |same| && !same[i] { assert !Stays(t, entries[i]); }
  }

  lemma ColumnListReadsBackExactlyWhen(t: Table, entries: seq<Entry>)
    requires ArePgEntries(t, entries) && entries != []
    ensures NormalizeAll(ReportedColumns(t, EntryTexts(entries)))
            == NormalizeAll(DesiredColumns(t.inherited, EntryTexts(entries)))
            <==> ColumnsReadBack(t, entries)
  {
    hide ReportedColumns, NormalizeSpec, NormalizeExpression, StaysAsWritten, EntryText, Printed, DesiredColumn;
    hide IsPgEntry, HasSubscript;
    if AllColumns(entries) {
      ColumnsAloneExactlyWhen(t, entries);
    } else {
      var k :| 0 <= k < |entries| && entries[k].Json?;
      assert !Stays(t, entries[k]);
      AccessorListIsOne(t, entries, k);
      if |entries| == 1 {
        assert entries == [entries[0]];
        AccessorAlone(t, entries[0]);
        AccessorAloneExactlyWhen(t, entries[0]);
        SingleListsExactlyWhen(NormalizeExpression(Printed(t, entries[0])), EntryText(entries[0]));
      }
    }
  }

  lemma SingleListsExactlyWhen(a: string, b: string)
    ensures NormalizeAll([a]) == NormalizeAll([b]) <==> NormalizeSpec(a) == NormalizeSpec(b)
  {
    hide NormalizeSpec;
    assert NormalizeAll([a])[0] == NormalizeSpec(a) && NormalizeAll([b])[0] == NormalizeSpec(b);
  }

  function Defined(entries: seq<Entry>, unique: bool, where: Option<string>): Definition {
    Definition(EntryTexts(entries), false, unique, where)
  }

  /** The server takes the statement, and reads in it what it was made for. */
  lemma StatementIsTaken(t: Table, entries: seq<Entry>, unique: bool, where: Option<string>)
    requires IsTable(t) && ArePgEntries(t, entries) && entries != []
    ensures Postgres(t).dropsIfExists
    ensures Postgres(t).reported(Defined(entries, unique, where))
            == Some(Signature(NormalizeAll(ReportedColumns(t, EntryTexts(entries))), false, unique,
                              Canonical(t.canonical, Reread(t.rendered, IndexStatements.Printed(where)))))
  {
    hide ReadColumnList, NormalizeAll, EntryText, CatalogColumns, PrintedColumn, IsExpression, ArePgEntries;
    hide ReadCreateIndex, CreateIndexText, JoinList;
    EntriesArePrinted(t, entries);
    var def, printed := Defined(entries, unique, where), PrintedColumns(EntryTexts(entries));
    StatementIsRead(unique, false, t.quotedIndex, t.quotedTable, printed, where);
    var stored := Stored(unique, false, printed, IndexStatements.Printed(where));
    assert Reported(t, def) == Some(ReportedSignature(t, stored));
    assert Postgres(t).reported(def) == Reported(t, def);
  }

  /** The signature the catalog leads to is the one sync wants exactly when the column list and the predicate read
      back. */
  lemma SignatureReadsBackExactlyWhen(t: Table, entries: seq<Entry>, unique: bool, where: Option<string>)
    requires IsTable(t) && ArePgEntries(t, entries) && entries != []
    ensures var def := Defined(entries, unique, where);
            Postgres(t).reported(def) == Some(Postgres(t).desired(def))
            <==> ColumnsReadBack(t, entries) && where != Some("") && WhereReadsBack(t.canonical, t.rendered, where)
  {
    hide ReadColumnList, NormalizeAll, DesiredColumns, ColumnsReadBack, EntryTexts, CatalogColumns, PrintedColumns;
    var def := Defined(entries, unique, where);
    StatementIsTaken(t, entries, unique, where);
    ColumnListReadsBackExactlyWhen(t, entries);
    assert Postgres(t).desired(def)
        == Signature(NormalizeAll(DesiredColumns(t.inherited, EntryTexts(entries))), false, unique,
                     Canonical(t.canonical, where));
  }

  // ---------------------------------------------------------------- predicates of partial indexes

  /** For predicates of AND, OR and NOT the comparison form is the canonical text: such a predicate reads back exactly
      when SQL reads what the server prints as the declared tree, up to the case of names. */
  lemma SkeletonReadsBackExactlyWhen(t: Table, where: string, declared: Reading.Text, printed: Reading.Text)
    requires Comparing.TextNamesOk(declared) && Comparing.TextNamesOk(printed)
    requires Comparing.IsSkeleton(Predicates.Reassociate(Reading.Parse(declared)))
    requires Comparing.IsSkeleton(Predicates.Reassociate(Reading.Parse(printed)))
    requires t.canonical(where) == Comparing.CanonicalText(declared)
    requires t.canonical(t.rendered(where)) == Comparing.CanonicalText(printed)
    ensures Comparing.IsSkeleton(Reading.Sql(declared)) && Comparing.IsSkeleton(Reading.Sql(printed))
    ensures WhereReadsBack(t.canonical, t.rendered, Some(where))
            <==> Comparing.Canonical(Reading.Sql(declared)) == Comparing.Canonical(Reading.Sql(printed))
  {
    Comparing.ComparisonIsExact(declared, printed);
  }

  /** Every connective and every NOT in parentheses of its own. */
  function Deparsed(node: Predicates.Ast): Reading.Operand
    requires Comparing.IsSkeleton(node)
  {
    match node
    case Column(name) => Reading.Name(name)
    case Unary(_, e) => Reading.Group(Reading.Last(Reading.Not(Deparsed(e))))
    case Connective(op, l, r, _) => Reading.Group(Reading.More(Deparsed(l), op, Reading.Last(Deparsed(r))))
  }

  /** SQL reads such a text as the tree it was printed from. */
  lemma {:induction false} DeparsedIsRead(node: Predicates.Ast)
    requires Comparing.IsSkeleton(node) && Comparing.NamesOk(node)
    ensures Comparing.OperandNamesOk(Deparsed(node))
    ensures Comparing.IsSkeleton(Reading.SqlOperand(Deparsed(node)))
    ensures Comparing.Canonical(Reading.SqlOperand(Deparsed(node))) == Comparing.Canonical(node)
  {
    match node
    case Column(name) =>
    case Unary(operator, e) => DeparsedIsRead(e); SingleIsRead(Reading.Not(Deparsed(e)));
    case Connective(op, l, r, _) => DeparsedIsRead(l); DeparsedIsRead(r); PairIsRead(Deparsed(l), op, Deparsed(r));
  }

  lemma SingleIsRead(o: Reading.Operand)
    ensures Reading.Sql(Reading.Last(o)) == Reading.SqlOperand(o)
  {
  }

  lemma PairIsRead(l: Reading.Operand, op: Predicates.Op, r: Reading.Operand)
    ensures Reading.Sql(Reading.More(l, op, Reading.Last(r)))
            == Predicates.Connective(op, Reading.SqlOperand(l), Reading.SqlOperand(r), false)
  {
    var text := Reading.More(l, op, Reading.Last(r));
    var a, b := Reading.SqlOperand(l), Reading.SqlOperand(r);
    var terms := Reading.Terms(text);
    assert terms == Reading.TermsRest(a, op, Reading.Last(r));
    if op.And? {
      assert terms == [] + [Predicates.Connective(Predicates.And, a, b, false)];
    } else {
      assert terms == [a] + [b] && terms[..1] == [a];
      assert Predicates.FoldOrs([a]) == a;
    }
  }

  /** So a predicate of AND, OR and NOT that the server prints in that way reads back, however it was declared. */
  lemma DeparsedReadsBack(t: Table, where: string, declared: Reading.Text)
    requires Comparing.TextNamesOk(declared)
    requires Comparing.IsSkeleton(Reading.Sql(declared))
    requires Comparing.IsSkeleton(Predicates.Reassociate(Reading.Parse(declared)))
    requires var printed := Reading.Last(Deparsed(Reading.Sql(declared)));
             && Comparing.IsSkeleton(Predicates.Reassociate(Reading.Parse(printed)))
             && t.canonical(where) == Comparing.CanonicalText(declared)
             && t.canonical(t.rendered(where)) == Comparing.CanonicalText(printed)
    ensures WhereReadsBack(t.canonical, t.rendered, Some(where))
  {
    Comparing.SqlIsFine(declared);
    DeparsedIsRead(Reading.Sql(declared));
    SingleIsRead(Deparsed(Reading.Sql(declared)));
    SkeletonReadsBackExactlyWhen(t, where, declared, Reading.Last(Deparsed(Reading.Sql(declared))));
  }

  // ---------------------------------------------------------------- whole schemas

  /** On PostgreSQL sync manages every index but a unique full-text one. */
  lemma ManagedExactlyWhen(t: Table, index: Index)
    ensures IsManaged(Postgres(t), index) <==> !(index.unique && (index.fulltext || index.mark.Some?))
    ensures DefinitionOf(Postgres(t), index).where == if index.where == Some("") then None else index.where
  {
  }

  /** Declared under the name the schema calls it. Full-text indexes are left out. */
  ghost predicate IsIndex(t: Table, index: Index) {
    HasColumns(index) && !IsFulltext(index) && ArePgEntries(t, index.entries)
  }

  ghost predicate AreIndexes(t: Table, indexes: seq<Index>) {
    forall i | 0 <= i < |indexes| :: IsIndex(t, indexes[i])
  }

  /** The indexes under the names they have in the database. */
  function Physical(m: Names.Naming, indexes: seq<Index>): seq<Index> {
    seq(|indexes|, i requires 0 <= i < |indexes| => indexes[i].(name := Names.Resolve(m, indexes[i].name)))
  }

  predicate IsNamed(m: Names.Naming, indexes: seq<Index>) {
    && (m.limit == 0 || m.limit >= 9)
    && forall i | 0 <= i < |indexes| :: Names.IsNaming(m, Names.Prefixed(m, indexes[i].name))
  }

  /** No two declared names get one physical name. */
  predicate NamesAreApart(m: Names.Naming, indexes: seq<Index>)
    requires m.limit == 0 || m.limit >= 9
  {
    forall i, j | 0 <= i < j < |indexes| :: !Names.Meet(m, indexes[i].name, indexes[j].name)
  }

  /** A physical name has an underscore, so no index takes the name PRIMARY. */
  lemma NeverPrimary(m: Names.Naming, name: string)
    requires (m.limit == 0 || m.limit >= 9) && Names.IsNaming(m, Names.Prefixed(m, name))
    ensures Names.Resolve(m, name) != PrimaryKey
  {
    var physical := Names.Resolve(m, name);
    var long := Names.Prefixed(m, name);
    if Names.IsCut(m, name) {
      Names.CutName(m, name);
      assert physical[m.limit - 9] == '_';
    } else {
      Names.PrefixedStarts(m, name);
      assert long[..|Names.Prefix(m)|][|m.table|] == '_';
      assert physical[|m.table|] == '_';
    }
    assert forall i | 0 <= i < |PrimaryKey| :: PrimaryKey[i] != '_';
  }

  lemma NamesAreDistinct(m: Names.Naming, indexes: seq<Index>)
    requires IsNamed(m, indexes) && NamesAreApart(m, indexes)
    ensures DistinctNames(Declarations(Physical(m, indexes)))
  {
    var schema := Declarations(Physical(m, indexes));
    forall i, j | 0 <= i < j < |schema| ensures schema[i].0 != schema[j].0 {
      Names.SameNameExactlyWhen(m, indexes[i].name, indexes[j].name);
    }
    forall i | 0 <= i < |schema| ensures schema[i].0 != PrimaryKey { NeverPrimary(m, indexes[i].name); }
  }

  predicate ReadsBack(t: Table, index: Index) {
    ColumnsReadBack(t, index.entries) && WhereReadsBack(t.canonical, t.rendered, GivenWhere(index.where))
  }

  lemma IndexTells(t: Table, before: Catalog, index: Index)
    requires IsTable(t) && IsIndex(t, index)
    ensures Tells(Postgres(t), before, index, ReadsBack(t, index))
    ensures Failing(Postgres(t), before, Declaration(index)) == []
  {
    forall i | 0 <= i < |index.entries|
      ensures Postgres(t).column(EntryText(index.entries[i]), false) == Some(Checked(false, index.entries[i]))
    {
      assert IsPgEntry(t, index.entries[i]);
      EntryIsChecked(t.fields, false, index.entries[i]);
    }
    assert CheckedTexts(false, index.entries) == EntryTexts(index.entries);
    hide CheckColumn, EntryText, Checked, ReportedColumns, NormalizeAll, ColumnsReadBack, WhereReadsBack, ArePgEntries;
    hide DesiredColumns, DecideFor, StatementText, ReadCreateIndex, ReportedSignature;
    StatementIsTaken(t, index.entries, index.unique, GivenWhere(index.where));
    DecisionIs(Postgres(t), before, index);
    SignatureReadsBackExactlyWhen(t, index.entries, index.unique, GivenWhere(index.where));
  }

  lemma SchemaSettlesExactlyWhen(t: Table, before: Catalog, indexes: seq<Index>)
    requires IsTable(t) && AreIndexes(t, indexes)
    ensures Faithful(Postgres(t), before, Declarations(indexes))
            <==> forall i | 0 <= i < |indexes| ::
                   Settles(Postgres(t), before, indexes[i], ReadsBack(t, indexes[i]))
    ensures AllFailing(Postgres(t), before, Declarations(indexes)) == []
  {
    hide Tells, Settles, ReadsBack, Failing, Faithful, IsIndex;
    var d, readsBack := Postgres(t), (index: Index) => ReadsBack(t, index);
    forall i | 0 <= i < |indexes|
      ensures Tells(d, before, indexes[i], readsBack(indexes[i]))
      ensures Failing(d, before, Declaration(indexes[i])) == []
    {
      IndexTells(t, before, indexes[i]);
    }
    AllFaithfulExactlyWhen(d, before, indexes, readsBack);
    NoneFailing(d, before, Declarations(indexes));
  }

  /** Two passes over an unchanged PostgreSQL schema whose names are apart: the second one is silent exactly when
      every index was in place to begin with, under its physical name, or has columns and a predicate that read
      back. No statement fails. */
  method SyncPostgresTwice(db: Database, t: Table, m: Names.Naming, indexes: seq<Index>)
    returns (ok: bool, ghost first: seq<Statement>)
    requires IsTable(t) && PrimaryKey !in t.inherited
    requires AreIndexes(t, indexes) && IsNamed(m, indexes) && NamesAreApart(m, indexes)
    modifies db
    ensures ok && old(db.log) <= first <= db.log && db.failures == old(db.failures)
    ensures db.log == first
            <==> var physical := Physical(m, indexes);
                 forall i | 0 <= i < |physical| ::
                   Settles(Postgres(t), old(db.catalog), physical[i], ReadsBack(t, physical[i]))
  {
    NamesAreDistinct(m, indexes);
    var physical := Physical(m, indexes);
    assert AreIndexes(t, physical) by {
      assert forall i | 0 <= i < |indexes| :: IsIndex(t, indexes[i]);
      assert forall i | 0 <= i < |indexes| :: physical[i].entries == indexes[i].entries;
    }
    SchemaSettlesExactlyWhen(t, db.catalog, physical);
    hide Settles, ReadsBack, AllFailing, Faithful, IsIndex, Physical;
    ok, first := SyncTwice(db, Postgres(t), Declarations(physical));
  }

  // ---------------------------------------------------------------- indexes that never settle

  lemma ItemsPathHasSubscript()
    ensures IsStepPath("$.items[0]") && HasSubscript("$.items[0]")
  {
    var steps := [Named("items"), Subscript("0")];
    assert IsStep(steps[0]) && IsStep(steps[1]);
    assert steps[1..] == [Subscript("0")] && [Subscript("0")][1..] == [];
    assert PathText([Subscript("0")]) == "[0]" && PathText(steps) == ".items[0]";
    assert IsSpelled(steps, true, "$.items[0]");
    assert "$.items[0]"[7] == '[';
  }

  /** The accessor `field->>'$.items[0]'` is created as `field #>> '{items,0}'` and reported as
      `field->>"$.items.0"`. */
  lemma SubscriptIsRebuilt(t: Table, field: string, unique: bool)
    requires IsTable(t) && IsIdentifier(field) && field in t.fields
    ensures var def := Defined([Json(field, '\'', "$.items[0]")], unique, None);
            Postgres(t).reported(def) != Some(Postgres(t).desired(def))
  {
    hide Postgres, IsStepPath, HasSubscript;
    ItemsPathHasSubscript();
    var entries := [Json(field, '\'', "$.items[0]")];
    assert IsPgEntry(t, entries[0]);
    SignatureReadsBackExactlyWhen(t, entries, unique, None);
  }

  /** An accessor beside any other column is reported together with it as one column. */
  lemma AccessorBesideColumn(t: Table, name: string, field: string, unique: bool)
    requires IsTable(t) && IsIdentifier(name) && name[0] != '_' && name in t.fields
    requires IsIdentifier(field) && field in t.fields
    ensures var def := Defined([Column(Spec(name, None, "")), Json(field, '\'', "$.x")], unique, None);
            |ReportedColumns(t, def.columns)| == 1 && Postgres(t).reported(def) != Some(Postgres(t).desired(def))
  {
    var steps := [Named("x")];
    var entries := [Column(Spec(name, None, "")), Json(field, '\'', "$.x")];
    assert IsStep(steps[0]) && steps[1..] == [];
    assert PathText(steps) == ".x";
    assert IsSpelled(steps, true, "$.x");
    assert IsPgEntry(t, entries[0]) && IsPgEntry(t, entries[1]);
    assert !Stays(t, entries[1]);
    hide Postgres, IsStepPath, ReportedColumns;
    AccessorListIsOne(t, entries, 1);
    SignatureReadsBackExactlyWhen(t, entries, unique, None);
  }

  /** A partial index over a plain column whose predicate is printed in another form, as `a BETWEEN 1 AND 5` is
      printed `((a >= 1) AND (a <= 5))`, is rebuilt on every pass. */
  lemma RewrittenPredicateIsRebuilt(t: Table, name: string, where: string, unique: bool)
    requires IsTable(t) && IsIdentifier(name) && name[0] != '_' && name in t.fields
    requires t.canonical(t.rendered(where)) != t.canonical(where)
    ensures var def := Defined([Column(Spec(name, None, ""))], unique, Some(where));
            Postgres(t).reported(def) != Some(Postgres(t).desired(def))
  {
    var entries := [Column(Spec(name, None, ""))];
    assert IsPgEntry(t, entries[0]);
    hide Postgres, ColumnsReadBack;
    SignatureReadsBackExactlyWhen(t, entries, unique, Some(where));
  }
}
