/** CREATE INDEX statements: the text that is sent, and what the server reads in it (generateCreateIndex of the
    dialects, lib/dialects). */
module IndexStatements {
  import opened Wrappers
  import opened Texts
  import opened Words
  import opened IndexColumns
  import opened IndexSpecs
  import opened QuotedIndex
  import opened SqliteIndexText

  /** What SQLite and PostgreSQL are asked for. */
  function IndexType(unique: bool): string {
    if unique then "UNIQUE INDEX" else "INDEX"
  }

  // ---------------------------------------------------------------- the server

  /** An index as the statement describes it. */
  datatype Stored = Stored(unique: bool, fulltext: bool, columns: seq<string>, where: Option<string>)

  /** The kind of index and the text behind it. */
  function ReadIndexType(sql: string): Option<(bool, bool, string)> {
    var unique, fulltext, plain := "CREATE UNIQUE INDEX ", "CREATE FULLTEXT INDEX ", "CREATE INDEX ";
    if unique <= sql then Some((true, false, sql[|unique|..]))
    else if fulltext <= sql then Some((false, true, sql[|fulltext|..]))
    else if plain <= sql then Some((false, false, sql[|plain|..]))
    else None
  }

  /** What stands behind the column list: nothing or a predicate. */
  function ReadTail(tail: string): Option<Option<string>> {
    var where := " WHERE ";
    if tail == "" then Some(None) else if where <= tail then Some(Some(tail[|where|..])) else None
  }

  /** The statement as the server reads it; None when it is refused. Names without parentheses are passed over. */
  function ReadCreateIndex(sql: string): Option<Stored> {
    match ReadIndexType(sql)
    case None => None
    case Some((unique, fulltext, rest)) =>
      var open := IndexOf(rest, '(');
      if open == |rest| then None else
        match CloseOffset(rest[open + 1..], 1, None)
        case None => None
        case Some(n) =>
          match ReadTail(rest[open + 1..][n + 1..])
          case None => None
          case Some(where) => Some(Stored(unique, fulltext, SplitList(rest[open + 1..][..n], "", 0, None), where))
  }

  lemma TypeIsRead(unique: bool, fulltext: bool, rest: string)
    requires !(unique && fulltext)
    ensures ReadIndexType("CREATE " + (if fulltext then "FULLTEXT INDEX" else IndexType(unique)) + " " + rest)
            == Some((unique, fulltext, rest))
  {
    if unique {
      UniqueIsRead(rest);
    } else if fulltext {
      FulltextIsRead(rest);
    } else {
      PlainIsRead(rest);
    }
  }

  lemma UniqueIsRead(rest: string)
    ensures ReadIndexType("CREATE " + "UNIQUE INDEX" + " " + rest) == Some((true, false, rest))
  {
    assert "CREATE " + "UNIQUE INDEX" + " " + rest == "CREATE UNIQUE INDEX " + rest;
  }

  lemma FulltextIsRead(rest: string)
    ensures ReadIndexType("CREATE " + "FULLTEXT INDEX" + " " + rest) == Some((false, true, rest))
  {
    var sql := "CREATE " + "FULLTEXT INDEX" + " " + rest;
    assert sql == "CREATE FULLTEXT INDEX " + rest && sql[7] == 'F';
  }

  lemma PlainIsRead(rest: string)
    ensures ReadIndexType("CREATE " + "INDEX" + " " + rest) == Some((false, false, rest))
  {
    var sql := "CREATE " + "INDEX" + " " + rest;
    assert sql == "CREATE INDEX " + rest && sql[7] == 'I';
  }

  /** What is left of a predicate in a statement: an empty one is none. */
  function Printed(where: Option<string>): Option<string> {
    if where == Some("") then None else where
  }

  lemma TailIsRead(where: Option<string>)
    ensures ReadTail(TailText(where)) == Some(Printed(where))
  {
  }

  lemma ListIsRead(columns: seq<string>, tail: string)
    requires columns != [] && forall i | 0 <= i < |columns| :: IsExpression(columns[i])
    ensures var body, list := JoinList(columns) + ")" + tail, JoinList(columns);
            && CloseOffset(body, 1, None) == Some(|list|) && body[..|list|] == list && body[|list| + 1..] == tail
            && SplitList(list, "", 0, None) == columns
  {
    CloseAfterList(columns, tail);
    SplitJoined(columns, "");
  }

  lemma OpenIsFound(names: string, body: string)
    requires '(' !in names
    ensures IndexOf(names + "(" + body, '(') == |names| && (names + "(" + body)[|names| + 1..] == body
  {
    IndexOfSkips(names, '(', body);
    assert names + ['('] + body == names + "(" + body;
  }

  /** What the statement is for is what the server reads in it: the kind of index, its columns and its predicate. */
  lemma StatementIsRead(unique: bool, fulltext: bool, quotedIndex: string, quotedTable: string, columns: seq<string>,
                        where: Option<string>)
    requires !(unique && fulltext) && '(' !in quotedIndex && '(' !in quotedTable
    requires columns != [] && forall i | 0 <= i < |columns| :: IsExpression(columns[i])
    ensures ReadCreateIndex(CreateIndexText(if fulltext then "FULLTEXT INDEX" else IndexType(unique), quotedIndex,
                                            quotedTable, columns, where))
            == Some(Stored(unique, fulltext, columns, Printed(where)))
  {
    hide IsExpression, ReadIndexType, ReadTail, CloseOffset, SplitList, IndexOf, IndexType, JoinList;
    var kind := if fulltext then "FULLTEXT INDEX" else IndexType(unique);
    var names, body := quotedIndex + " ON " + quotedTable + " ", JoinList(columns) + ")" + TailText(where);
    assert CreateIndexText(kind, quotedIndex, quotedTable, columns, where)
        == "CREATE " + kind + " " + (names + "(" + body);
    TypeIsRead(unique, fulltext, names + "(" + body);
    OpenIsFound(names, body);
    ListIsRead(columns, TailText(where));
    TailIsRead(where);
  }

  // ---------------------------------------------------------------- printed columns

  /** Characters that mean nothing in a column list outside quotes. */
  predicate IsHarmless(c: char) {
    c != '\\' && !SqliteIndexText.IsQuote(c) && c != '(' && c != ')' && c != ','
  }

  lemma {:induction false} HarmlessPasses(plain: string, depth: nat, rest: string)
    requires forall i | 0 <= i < |plain| :: IsHarmless(plain[i])
    ensures WellNested(plain + rest, depth, None) == WellNested(rest, depth, None)
  {
    if plain == "" {
      assert plain + rest == rest;
    } else {
      assert (plain + rest)[1..] == plain[1..] + rest;
      HarmlessPasses(plain[1..], depth, rest);
    }
  }

  lemma {:induction false} QuotedPasses(text: string, q: char, depth: nat, rest: string)
    requires q !in text && '\\' !in text && q != '\\'
    ensures WellNested(text + [q] + rest, depth, Some(q)) == WellNested(rest, depth, None)
  {
    if text == "" {
      assert (text + [q] + rest)[1..] == rest;
    } else {
      assert (text + [q] + rest)[1..] == text[1..] + [q] + rest;
      assert text[0] in text;
      QuotedPasses(text[1..], q, depth, rest);
    }
  }

  lemma QuoteOpens(q: char, text: string, depth: nat, rest: string)
    requires SqliteIndexText.IsQuote(q) && q !in text && '\\' !in text
    ensures WellNested([q] + (text + [q] + rest), depth, None) == WellNested(rest, depth, None)
  {
    assert ([q] + (text + [q] + rest))[1..] == text + [q] + rest;
    QuotedPasses(text, q, depth, rest);
  }

  lemma BracketOpens(rest: string, depth: nat)
    ensures WellNested("(" + rest, depth, None) == WellNested(rest, depth + 1, None)
  {
    assert ("(" + rest)[1..] == rest;
  }

  lemma BracketsClose()
    ensures WellNested("))", 2, None) && WellNested(")", 1, None)
  {
    assert "))"[1..] == ")" && ")"[1..] == "";
  }

  lemma BracketCloses(rest: string, depth: nat)
    requires depth > 0
    ensures WellNested(")" + rest, depth, None) == WellNested(rest, depth - 1, None)
  {
    assert (")" + rest)[1..] == rest;
  }

  lemma CommaPasses(rest: string, depth: nat)
    requires depth > 0
    ensures WellNested(", " + rest, depth, None) == WellNested(rest, depth, None)
  {
    assert (", " + rest)[1..] == " " + rest && (" " + rest)[1..] == rest;
  }

  lemma IdentifierIsHarmless(name: string)
    requires IsIdentifier(name)
    ensures forall i | 0 <= i < |name| :: IsHarmless(name[i])
    ensures '"' !in name && '\\' !in name
  {
    WordEndStops(name);
  }

  lemma NamedColumnIsExpression(s: Spec)
    requires IsSpec(s)
    ensures IsExpression(GenerateColumn(SpecText(s))) && GenerateColumn(SpecText(s))[0] == '"'
  {
    hide WellNested, GenerateColumn;
    var rest := if s.prefix.None? then s.direction else "";
    var text := ['"'] + (s.name + ['"'] + rest);
    SpecIsGenerated(s);
    DirectionIsHarmless(s);
    assert IsIdentifier(s.name);
    hide IsSpec, SpecText, IsHarmless;
    assert text == "\"" + s.name + "\"" + rest;
    IdentifierIsHarmless(s.name);
    QuoteOpens('"', s.name, 0, rest);
    HarmlessPasses(rest, 0, "");
    assert rest + "" == rest;
    NothingIsNested();
    GraphicIsNoSpace('"');
  }

  lemma NothingIsNested()
    ensures WellNested("", 0, None)
  {
  }

  lemma DirectionIsHarmless(s: Spec)
    requires IsSpec(s)
    ensures forall i | 0 <= i < |s.direction| :: IsHarmless(s.direction[i])
    ensures s.direction != "" ==> !IsSpace(s.direction[|s.direction| - 1])
  {
    if s.direction != "" {
      DirectionLetters(s);
      var word := s.direction[1..];
      forall i | 0 < i < |s.direction| ensures IsHarmless(s.direction[i]) && !IsSpace(s.direction[i]) {
        assert s.direction[i] == word[i - 1];
        GraphicIsNoSpace(word[i - 1]);
      }
    }
  }

  lemma BracketedIsExpression(inner: string)
    requires WellNested(inner + ")", 1, None)
    ensures IsExpression("(" + (inner + ")"))
  {
    hide WellNested;
    BracketOpens(inner + ")", 0);
    GraphicIsNoSpace('(');
    GraphicIsNoSpace(')');
  }
}
