/** Index columns on MySQL, from the schema's text to the CREATE INDEX statement, the catalog's rows and the
    reader's text (lib/dialects/MySQLDialect.js). */
module MySqlIndex {
  import opened Wrappers
  import opened Texts
  import opened Words
  import opened Numerals
  import opened IndexColumns
  import opened IndexSpecs

  // ---------------------------------------------------------------- the statement

  function Quoted(name: string): string {
    "`" + Backticks(name) + "`"
  }

  function Backticks(name: string): string {
    if name == "" then "" else (if name[0] == '`' then "``" else [name[0]]) + Backticks(name[1..])
  }

  /** One entry of the column list of generateCreateIndex; `length` is what it finds under the name in
      `textLengths`. */
  function GenerateColumn(col: string, length: Option<string>): string {
    if HasAccessor(col) then "(CAST(" + col + " as CHAR(255)) COLLATE utf8mb4_bin)"
    else
      var n := WordEnd(col);
      if n == 0 || !IsWordStart(col[0]) then Quoted(col)
      else
        var modifier := col[n..];
        if modifier != "" && !((IsSpace(modifier[0]) || modifier[0] == '(') && NoLineBreak(modifier[1..])) then
          Quoted(col)
        else Quoted(col[..n]) + if length.Some? then "(" + length.value + ")" else modifier
  }

  /** The length sync records for a text column. */
  function Implicit(isText: bool): Option<string> {
    if isText then Some("255") else None
  }

  // ---------------------------------------------------------------- the server

  /** One key part as SHOW INDEXES lists it: Column_name, Sub_part and Collation. */
  datatype KeyPart = KeyPart(name: string, prefix: Option<nat>, descending: bool)

  /** MySQL's key_part: a name in backticks, a length in parentheses, a direction. */
  function ReadKeyPart(text: string): Option<KeyPart> {
    if text == "" || text[0] != '`' then None
    else
      var n := IndexOf(text[1..], '`');
      if n + 2 > |text| then None
      else
        var name, rest := text[1..n + 1], text[n + 2..];
        match ReadLength(rest)
        case None => None
        case Some((prefix, after)) =>
          match AsDirection(after)
          case None => None
          case Some(direction) => Some(KeyPart(name, prefix, direction == " DESC"))
  }

  function ReadLength(rest: string): Option<(Option<nat>, string)> {
    if rest == "" || rest[0] != '(' then Some((None, rest))
    else
      var d := DigitsEnd(rest[1..]);
      if d > 0 && d + 1 < |rest| && rest[d + 1] == ')' then Some((Some(Number(rest[1..d + 1])), rest[d + 2..]))
      else None
  }

  /** A full-text index covers whole columns and has no order. */
  function FulltextPart(part: KeyPart): KeyPart {
    KeyPart(part.name, None, false)
  }

  /** What getTableIndexes makes of a key part; a Sub_part of 0 counts as none. */
  function ReportColumn(part: KeyPart): string {
    part.name + (if part.prefix.Some? && part.prefix.value > 0 then "(" + Decimal(part.prefix.value) + ")" else "")
    + if part.descending then " DESC" else ""
  }

  // ---------------------------------------------------------------- columns as schemas write them

  /** The specs whose report is the signature sync wants. */
  predicate ReadsBack(s: Spec, isText: bool) {
    if isText then s.direction == "" && (s.prefix == None || s.prefix == Some(255))
    else s.direction == "" || (IsDescending(s) && (s.prefix == None || s.direction == " DESC"))
  }

  // ---------------------------------------------------------------- what each step does with such a column

  lemma {:induction false} NoBackticks(name: string)
    requires '`' !in name
    ensures Backticks(name) == name
  {
    if name != "" {
      assert name[0] in name;
      NoBackticks(name[1..]);
    }
  }

  /** The entry of the column list: a length found under the name replaces everything behind the name. */
  lemma SpecIsGenerated(s: Spec, length: Option<string>)
    requires IsSpec(s)
    ensures GenerateColumn(SpecText(s), length)
            == "`" + s.name + "`" + (if length.Some? then "(" + length.value + ")" else Args(s))
  {
    SpecIsSplit(s);
    NoAccessor(s);
    ArgsChars(s);
    BlankIsSpace();
    QuotedName(s.name);
    assert SpecText(s)[0] == s.name[0];
    assert NoLineBreak(Args(s));
    hide SpecText, Args, Quoted, HasAccessor, WordEnd, NoLineBreak;
  }

  lemma QuotedName(name: string)
    requires IsIdentifier(name)
    ensures Quoted(name) == "`" + name + "`"
  {
    WordEndStops(name);
    NoBackticks(name);
  }

  /** A length and what follows it determine each other. */
  lemma LengthIsRead(n: nat, after: string)
    ensures ReadLength(LengthText(Some(n)) + after) == Some((Some(n), after))
  {
    var rest := LengthText(Some(n)) + after;
    var digits := Decimal(n);
    assert rest[1..] == digits + (")" + after);
    DigitsEndAt(digits, ")" + after);
    assert rest[1..|digits| + 1] == digits && rest[|digits| + 1] == ')' && rest[|digits| + 2..] == after;
    NumberOfDecimal(n);
  }

  lemma KeyPartIsRead(name: string, rest: string)
    requires IsIdentifier(name)
    ensures ReadKeyPart("`" + name + "`" + rest)
            == (match ReadLength(rest)
                case None => None
                case Some((prefix, after)) =>
                  match AsDirection(after)
                  case None => None
                  case Some(direction) => Some(KeyPart(name, prefix, direction == " DESC")))
  {
    var text := "`" + name + "`" + rest;
    WordEndStops(name);
    assert text[1..] == name + ['`'] + rest;
    IndexOfSkips(name, '`', rest);
    assert text[1..|name| + 1] == name && text[|name| + 2..] == rest;
  }

  /** The row the catalog has for a column. */
  function PartOf(s: Spec, isText: bool): KeyPart {
    KeyPart(s.name, if isText then Some(255) else s.prefix, !isText && IsDescending(s))
  }

  lemma SpecIsStored(s: Spec, isText: bool)
    requires IsSpec(s)
    ensures ReadKeyPart(GenerateColumn(SpecText(s), Implicit(isText))) == Some(PartOf(s, isText))
  {
    SpecIsGenerated(s, Implicit(isText));
    hide GenerateColumn, ReadKeyPart, ReadLength;
    assert "(" + "255" + ")" == "(255)";
    if isText {
      KeyPartIsRead(s.name, "(255)");
      Length255();
      LengthIsRead(255, "");
      assert LengthText(Some(255)) + "" == "(255)";
    } else {
      KeyPartIsRead(s.name, Args(s));
      if s.direction != "" { DirectionLetters(s); }
      if s.prefix.Some? {
        LengthIsRead(s.prefix.value, s.direction);
      } else {
        assert Args(s) == s.direction;
      }
    }
  }

  lemma Length255()
    ensures LengthText(Some(255)) == "(255)"
  {
    assert Decimal(2) == "2" && Decimal(25) == "25" && Decimal(255) == "255";
  }

  // ---------------------------------------------------------------- the two signatures

  /** The text SHOW INDEXES leads to, as a spec. */
  function Reported(s: Spec, isText: bool): Spec {
    Spec(s.name, PartOf(s, isText).prefix, if PartOf(s, isText).descending then " DESC" else "")
  }

  /** The column of the desired signature, as a spec. */
  function Desired(s: Spec, isText: bool): Spec {
    if isText && s.prefix == None then s.(prefix := Some(255)) else s
  }

  lemma ReportedText(s: Spec, isText: bool)
    requires IsSpec(s)
    ensures ReportColumn(PartOf(s, isText)) == SpecText(Reported(s, isText))
    ensures IsSpec(Reported(s, isText))
  {
    assert Lower("DESC") == "desc" && " DESC"[1..] == "DESC";
    var r := Reported(s, isText);
    assert s.name + (LengthText(r.prefix) + r.direction) == s.name + LengthText(r.prefix) + r.direction;
  }

  lemma DesiredText(s: Spec, isText: bool)
    requires IsSpec(s)
    ensures DesiredColumn(SpecText(s), Implicit(isText)) == SpecText(Desired(s, isText)) && IsSpec(Desired(s, isText))
  {
    DesiredOfSpec(s, Implicit(isText));
    Length255();
    assert "(" + ("255" + (")" + s.direction)) == "(255)" + s.direction;
  }

  /** A column the sync created reads back with the signature it was created for exactly when it has no
      explicit ascending order, no lower-case DESC behind a length, and, on a text column, no length other
      than the implicit one and no direction at all. */
  lemma ColumnReadsBackExactlyWhen(s: Spec, isText: bool)
    requires IsSpec(s)
    ensures ValidatedColumn(SpecText(s), false) == Some(SpecText(s))
    ensures ReadKeyPart(GenerateColumn(SpecText(s), Implicit(isText))) == Some(PartOf(s, isText))
    ensures NormalizeSpec(ReportColumn(PartOf(s, isText)))
            == NormalizeSpec(DesiredColumn(SpecText(s), Implicit(isText)))
            <==> ReadsBack(s, isText)
  {
    SpecIsSplit(s);
    SpecIsStored(s, isText);
    ReportedText(s, isText);
    DesiredText(s, isText);
    NormalSpec(Reported(s, isText));
    NormalSpec(Desired(s, isText));
    SameNormalExactlyWhen(s, isText);
  }

  lemma SameNormalExactlyWhen(s: Spec, isText: bool)
    requires IsSpec(s)
    ensures NormalText(Reported(s, isText)) == NormalText(Desired(s, isText)) <==> ReadsBack(s, isText)
  {
    if isText || s.prefix.Some? { SameWithLength(s, isText); } else { SameWithoutLength(s); }
  }

  lemma SameWithLength(s: Spec, isText: bool)
    requires IsSpec(s) && (isText || s.prefix.Some?)
    ensures NormalText(Reported(s, isText)) == NormalText(Desired(s, isText)) <==> ReadsBack(s, isText)
  {
    var r, d := Reported(s, isText), Desired(s, isText);
    SameNameSameRest(s.name, LengthText(r.prefix) + r.direction, LengthText(d.prefix) + d.direction);
    LengthIsRead(r.prefix.value, r.direction);
    LengthIsRead(d.prefix.value, d.direction);
  }

  lemma SameWithoutLength(s: Spec)
    requires IsSpec(s) && s.prefix.None?
    ensures NormalText(Reported(s, false)) == NormalText(Desired(s, false)) <==> ReadsBack(s, false)
  {
    var reported := if IsDescending(s) then " DESC" else "";
    assert Lower("DESC") == "desc" && " DESC"[1..] == "DESC";
    SameNameSameRest(s.name, reported, if s.direction == "" then "" else if IsDescending(s) then " DESC" else " ASC");
  }

  /** A column of a full-text index, with a length or without, always reads back. */
  lemma FulltextReadsBack(s: Spec)
    requires IsSpec(s) && s.direction == ""
    ensures ValidatedColumn(SpecText(s), true) == Some(s.name)
    ensures exists part :: ReadKeyPart(GenerateColumn(s.name, None)) == Some(part)
                        && NormalizeSpec(ReportColumn(FulltextPart(part)))
                           == NormalizeSpec(DesiredColumn(s.name, None))
  {
    SpecIsValidated(s);
    var plain := s.(prefix := None);
    assert SpecText(plain) == s.name;
    ColumnReadsBackExactlyWhen(plain, false);
    assert FulltextPart(PartOf(plain, false)) == PartOf(plain, false);
  }
}
