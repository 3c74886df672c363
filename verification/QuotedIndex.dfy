/** Plain index columns where names stand in double quotes: what SQLite and PostgreSQL are asked for, and what the
    server makes of it (generateCreateIndex of lib/dialects/SQLiteDialect.js and lib/dialects/PostgresDialect.js). */
module QuotedIndex {
  import opened Wrappers
  import opened Texts
  import opened Words
  import opened IndexColumns
  import opened IndexSpecs

  /** `quoteIdentifier`. */
  function Quoted(name: string): string {
    "\"" + DoubledQuotes(name) + "\""
  }

  function DoubledQuotes(name: string): string {
    if name == "" then "" else (if name[0] == '"' then "\"\"" else [name[0]]) + DoubledQuotes(name[1..])
  }

  /** The entry of the column list for a column without an accessor: a length is dropped, and with it whatever
      stands behind it; a direction is kept as it is written. */
  function GenerateColumn(col: string): string {
    if col != "" && col[0] == '(' && col[|col| - 1] == ')' then col
    else
      var n := WordEnd(col);
      if n == 0 || !IsWordStart(col[0]) then Quoted(col)
      else
        var modifier := col[n..];
        if modifier != "" && !((IsSpace(modifier[0]) || modifier[0] == '(') && NoLineBreak(modifier[1..])) then
          Quoted(col)
        else if TrimStart(modifier) != "" && TrimStart(modifier)[0] == '(' then Quoted(col[..n])
        else Quoted(col[..n]) + if StartsWithDirection(modifier) then modifier else ""
  }

  /** A named column of an index. */
  datatype KeyColumn = KeyColumn(name: string, descending: bool)

  /** The server's reading of such an entry: a name in quotes and a direction. */
  function ReadColumn(text: string): Option<KeyColumn> {
    if text == "" || text[0] != '"' then None
    else
      var n := IndexOf(text[1..], '"');
      if n + 2 > |text| then None
      else
        match AsDirection(text[n + 2..])
        case None => None
        case Some(direction) => Some(KeyColumn(text[1..n + 1], direction == " DESC"))
  }

  function Direction(descending: bool): string {
    if descending then " DESC" else ""
  }

  /** The column that is made of a spec. */
  function ColumnOf(s: Spec): KeyColumn {
    KeyColumn(s.name, s.prefix.None? && IsDescending(s))
  }

  /** The specs whose column is reported with the spelling sync wants. */
  predicate StaysAsWritten(s: Spec) {
    s.prefix.None? && (s.direction == "" || IsDescending(s))
  }

  lemma {:induction false} NothingDoubled(name: string)
    requires '"' !in name
    ensures DoubledQuotes(name) == name
  {
    if name != "" {
      assert name[0] in name;
      NothingDoubled(name[1..]);
    }
  }

  lemma NameIsQuoted(name: string)
    requires IsIdentifier(name)
    ensures Quoted(name) == "\"" + name + "\"" && '"' !in name
  {
    WordEndStops(name);
    NothingDoubled(name);
  }

  /** An expression in parentheses is printed as it is. */
  lemma ExpressionStays(text: string)
    ensures GenerateColumn("(" + text + ")") == "(" + text + ")"
  {
    hide WordEnd, Quoted, NoLineBreak, TrimStart, StartsWithDirection;
  }

  /** A text that only opens a parenthesis, or that begins with a digit, stands in quotes as a whole. */
  lemma OtherTextIsQuoted(c: char, text: string)
    requires '"' !in text && ('0' <= c <= '9' || (c == '(' && text != "" && text[|text| - 1] != ')'))
    ensures GenerateColumn([c] + text) == "\"" + ([c] + text) + "\""
  {
    var col := [c] + text;
    NothingDoubled(col);
    assert col[0] == c && (text != "" ==> col[|col| - 1] == text[|text| - 1]);
    assert !IsWordStart(c);
    hide WordEnd, NoLineBreak, TrimStart, StartsWithDirection, DoubledQuotes;
  }

  /** A name may begin with a letter or an underscore; a length goes away, with what stands behind it. */
  lemma NamedEntry(name: string, rest: string)
    requires name != "" && ('a' <= name[0] <= 'z' || 'A' <= name[0] <= 'Z' || name[0] == '_')
    requires forall i | 0 <= i < |name| ::
               'a' <= name[i] <= 'z' || 'A' <= name[i] <= 'Z' || name[i] == '_' || '0' <= name[i] <= '9'
    requires NoLineBreak(rest)
    ensures GenerateColumn(name + ("(" + rest)) == "\"" + name + "\""
  {
    var col := name + ("(" + rest);
    WordEndAt(name, "(" + rest);
    NothingDoubled(name);
    GraphicIsNoSpace('(');
    assert col[..|name|] == name && col[|name|..] == "(" + rest && ("(" + rest)[1..] == rest;
    assert col[0] == name[0];
  }

  lemma SpecIsGenerated(s: Spec)
    requires IsSpec(s)
    ensures GenerateColumn(SpecText(s)) == "\"" + s.name + "\"" + (if s.prefix.None? then s.direction else "")
  {
    var q := "\"" + s.name + "\"";
    assert q + "" == q;
    SpecIsSplit(s);
    ArgsChars(s);
    NameIsQuoted(s.name);
    assert SpecText(s)[0] == s.name[0];
    assert NoLineBreak(Args(s));
    BlankIsSpace();
    GraphicIsNoSpace('(');
    if s.prefix.None? {
      assert Args(s) == s.direction;
      if s.direction != "" {
        DirectionLetters(s);
        assert LowerChar('(') == '(';
      }
    } else {
      assert Args(s)[0] == '(' && TrimStart(Args(s)) == Args(s);
    }
  }

  lemma QuotedIsRead(name: string, rest: string)
    requires IsIdentifier(name)
    ensures ReadColumn("\"" + name + "\"" + rest)
            == (match AsDirection(rest)
                case None => None
                case Some(direction) => Some(KeyColumn(name, direction == " DESC")))
  {
    var text := "\"" + name + "\"" + rest;
    NameIsQuoted(name);
    assert text[1..] == name + ['"'] + rest;
    IndexOfSkips(name, '"', rest);
    assert text[1..|name| + 1] == name && text[|name| + 2..] == rest;
  }

  /** A plain column is created, and its name with DESC behind it where it is descending is the spelling sync
      wants, exactly when it has no length and no ascending order. */
  lemma QuotedReadsBackExactlyWhen(s: Spec)
    requires IsSpec(s)
    ensures ReadColumn(GenerateColumn(SpecText(s))) == Some(ColumnOf(s))
    ensures NormalizeSpec(s.name + Direction(ColumnOf(s).descending)) == s.name + Direction(ColumnOf(s).descending)
    ensures s.name + Direction(ColumnOf(s).descending) == NormalizeSpec(SpecText(s)) <==> StaysAsWritten(s)
  {
    SpecIsGenerated(s);
    QuotedIsRead(s.name, if s.prefix.None? then s.direction else "");
    if s.direction != "" { DirectionLetters(s); }
    NormalSpec(s);
    NormalPlain(s.name, Direction(ColumnOf(s).descending));
    var wanted := if s.prefix.Some? then Args(s)
                  else if s.direction == "" then "" else if IsDescending(s) then " DESC" else " ASC";
    assert NormalText(s) == s.name + wanted;
    SameNameSameRest(s.name, Direction(ColumnOf(s).descending), wanted);
    if s.prefix.Some? { LengthIsNoDirection(s); }
  }
}
