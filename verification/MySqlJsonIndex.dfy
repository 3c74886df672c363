/** A functional JSON index on MySQL: the catalog stores the accessor expanded, and the reader folds it back
    (normalizeMySqlIndexExpression of lib/dialects/MySQLDialect.js). */
module MySqlJsonIndex {
  import opened Wrappers
  import opened Texts
  import opened Words
  import opened IndexColumns
  import opened IndexSpecs
  import opened MySqlIndex

  // ---------------------------------------------------------------- the reader

  const JSON_EXTRACT := "json_extract"

  /** Skip one optional character. */
  function Skip(s: string, c: char): string {
    if s != "" && s[0] == c then s[1..] else s
  }

  /** `\s*,\s*([^)]+)\)`. */
  function MatchSpec(s: string): Option<string> {
    var comma := TrimStart(s);
    if comma == "" || comma[0] != ',' then None
    else
      var m := IndexOf(comma[1..], ')');
      if m == 0 || m + 1 == |comma| then None else Some(TrimStart(comma[1..m + 1]))
  }

  /** `\s*\(\s*`?([a-zA-Z_][a-zA-Z0-9_]*)`?` and the spec. */
  function MatchArguments(s: string): Option<(string, string)> {
    var open := TrimStart(s);
    if open == "" || open[0] != '(' then None
    else
      var t := Skip(TrimStart(open[1..]), '`');
      var n := WordEnd(t);
      if n == 0 || !IsWordStart(t[0]) then None
      else
        match MatchSpec(Skip(t[n..], '`'))
        case None => None
        case Some(spec) => Some((t[..n], spec))
  }

  /** `/json_extract\s*\(\s*`?([a-zA-Z_][a-zA-Z0-9_]*)`?\s*,\s*([^)]+)\)/i` at the front. */
  function MatchExtract(s: string): Option<(string, string)> {
    if |s| < 12 || Lower(s[..12]) != JSON_EXTRACT then None else MatchArguments(s[12..])
  }

  /** The leftmost match. */
  function FindExtract(s: string): Option<(string, string)> {
    if s == "" then None
    else if MatchExtract(s).Some? then MatchExtract(s)
    else FindExtract(s[1..])
  }

  function DropCharset(s: string): string {
    var t := TrimStart(s);
    if |t| >= 8 && Lower(t[..8]) == "_utf8mb4" then t[8..] else s
  }

  predicate IsPathQuote(c: char) {
    c == '\'' || c == '"'
  }

  /** `replace(/^\\?['"]/, '')`. */
  function DropFirstQuote(s: string): string {
    if |s| > 1 && s[0] == '\\' && IsPathQuote(s[1]) then s[2..]
    else if s != "" && IsPathQuote(s[0]) then s[1..]
    else s
  }

  /** `replace(/\\?['"]\s*$/, '')`. */
  function DropLastQuote(s: string): string {
    var t := TrimEnd(s);
    if t == "" || !IsPathQuote(t[|t| - 1]) then s
    else if |t| > 1 && t[|t| - 2] == '\\' then t[..|t| - 2]
    else t[..|t| - 1]
  }

  function NormalizeMySqlExpression(expression: string): string {
    match FindExtract(Collapse(expression))
    case None => expression
    case Some((field, spec)) =>
      AccessorText(Accessor(field, Rooted(Trim(DropLastQuote(DropFirstQuote(DropCharset(spec)))))))
  }

  // ---------------------------------------------------------------- the catalog's text

  /** How a server prints the call: the field in backticks or not, the path with the name of its character set or
      without, in either kind of quotes, with backslashes or without. */
  datatype Style = Style(ticks: bool, charset: bool, quote: char, escaped: bool)

  predicate IsStyle(style: Style) {
    style.quote == '\'' || style.quote == '"'
  }

  function QuoteText(style: Style): string {
    if style.escaped then ['\\', style.quote] else [style.quote]
  }

  function TickText(style: Style): string {
    if style.ticks then "`" else ""
  }

  function CharsetText(style: Style): string {
    if style.charset then "_utf8mb4" else ""
  }

  /** The path literal, up to the closing parenthesis. */
  function PathLiteral(path: string, style: Style): string {
    CharsetText(style) + (QuoteText(style) + (path + QuoteText(style)))
  }

  function ExtractText(field: string, path: string, style: Style, tail: string): string {
    var spec := "," + (PathLiteral(path, style) + [')'] + tail);
    JSON_EXTRACT + ("(" + (TickText(style) + (field + (TickText(style) + spec))))
  }

  /** The Expression column of SHOW INDEXES for CAST(field->>"path" as CHAR(255)); `tail` is whatever follows the
      json_extract call, the character set and the collation among it. */
  function CatalogExpression(field: string, path: string, style: Style, tail: string): string {
    "cast(" + ("json_unquote(" + ExtractText(field, path, style, tail))
  }

  /** Paths that need no quoting: rooted, without quotes, closing parentheses, backslashes or blanks. */
  predicate IsPlainPath(path: string) {
    && path != "" && path[0] == '$' && AllGraphic(path) && NoQuotes(path)
    && ')' !in path && '\\' !in path
  }

  // ---------------------------------------------------------------- reading it

  lemma ExtractName(rest: string)
    ensures var s := JSON_EXTRACT + rest; |s| >= 12 && Lower(s[..12]) == JSON_EXTRACT && s[12..] == rest
  {
    var s := JSON_EXTRACT + rest;
    assert s[..12] == JSON_EXTRACT;
    assert IsLower(JSON_EXTRACT);
    LowerOfLower(JSON_EXTRACT);
  }

  lemma FieldOfExtract(field: string, style: Style, rest: string)
    requires IsIdentifier(field)
    ensures var t := field + (TickText(style) + ("," + rest));
            WordEnd(t) == |field| && t[..|field|] == field && Skip(t[|field|..], '`') == "," + rest
  {
    var behind := TickText(style) + ("," + rest);
    var t := field + behind;
    IdentifierThen(field, behind);
    assert t[|field|..] == behind;
    if style.ticks { assert behind[1..] == "," + rest; } else { assert behind == "," + rest; }
  }

  lemma LiteralChars(path: string, style: Style)
    requires IsPlainPath(path) && IsStyle(style)
    ensures ')' !in PathLiteral(path, style) && AllGraphic(PathLiteral(path, style))
    ensures PathLiteral(path, style) != ""
  {
    assert AllGraphic(QuoteText(style)) && AllGraphic(CharsetText(style));
    GraphicConcat(path, QuoteText(style));
    GraphicConcat(QuoteText(style), path + QuoteText(style));
    GraphicConcat(CharsetText(style), QuoteText(style) + (path + QuoteText(style)));
  }

  lemma SpecOfExtract(path: string, style: Style, tail: string)
    requires IsPlainPath(path) && IsStyle(style)
    ensures MatchSpec("," + (PathLiteral(path, style) + [')'] + tail)) == Some(PathLiteral(path, style))
  {
    var literal := PathLiteral(path, style);
    var behind := literal + [')'] + tail;
    LiteralChars(path, style);
    IndexOfSkips(literal, ')', tail);
    GraphicIsNoSpace(literal[0]);
    GraphicIsNoSpace(',');
    assert ("," + behind)[1..] == behind;
    assert ("," + behind)[1..|literal| + 1] == literal;
  }

  lemma ArgumentsAreMatched(field: string, style: Style, rest: string, spec: string)
    requires IsIdentifier(field) && MatchSpec("," + rest) == Some(spec)
    ensures MatchArguments("(" + (TickText(style) + (field + (TickText(style) + ("," + rest))))) == Some((field, spec))
  {
    hide MatchSpec, WordEnd, TickText, Skip, TrimStart;
    var t := field + (TickText(style) + ("," + rest));
    TickIsSkipped(style, t);
    ParenthesisOpens(TickText(style) + t);
    FieldOfExtract(field, style, rest);
    IdentifierStarts(field, TickText(style) + ("," + rest));
  }

  lemma ParenthesisOpens(rest: string)
    ensures TrimStart("(" + rest) == "(" + rest && ("(" + rest)[1..] == rest
  {
    GraphicIsNoSpace('(');
  }

  lemma TickIsSkipped(style: Style, t: string)
    requires t != "" && IsWordChar(t[0])
    ensures TrimStart(TickText(style) + t) == TickText(style) + t && Skip(TickText(style) + t, '`') == t
  {
    GraphicIsNoSpace('`');
    GraphicIsNoSpace(t[0]);
    if style.ticks { assert ("`" + t)[1..] == t; } else { assert "" + t == t; }
  }

  lemma IdentifierStarts(field: string, rest: string)
    requires IsIdentifier(field)
    ensures IsWordStart((field + rest)[0]) && |field| > 0
  {
  }

  lemma ExtractIsMatched(field: string, path: string, style: Style, tail: string)
    requires IsIdentifier(field) && IsPlainPath(path) && IsStyle(style)
    ensures MatchExtract(ExtractText(field, path, style, tail)) == Some((field, PathLiteral(path, style)))
  {
    var behind := PathLiteral(path, style) + [')'] + tail;
    SpecOfExtract(path, style, tail);
    ArgumentsAreMatched(field, style, behind, PathLiteral(path, style));
    ExtractName("(" + (TickText(style) + (field + (TickText(style) + ("," + behind)))));
  }

  lemma {:induction false} FindSkips(plain: string, rest: string)
    requires forall i | 0 <= i < |plain| :: LowerChar(plain[i]) != 'j'
    ensures FindExtract(plain + rest) == FindExtract(rest)
  {
    if plain == "" {
      assert plain + rest == rest;
    } else {
      var s := plain + rest;
      assert s[1..] == plain[1..] + rest;
      FirstLower(s, 0);
      FindSkips(plain[1..], rest);
    }
  }

  lemma FirstLower(s: string, k: nat)
    requires k < 12
    ensures |s| >= 12 ==> |Lower(s[..12])| == 12 && Lower(s[..12])[k] == LowerChar(s[k])
  {
    if |s| >= 12 { LowerLetters(s[..12]); }
  }

  lemma UnquoteIsSkipped(rest: string)
    ensures FindExtract("json_unquote(" + rest) == FindExtract(rest)
  {
    var s := "json_unquote(" + rest;
    FirstLower(s, 5);
    assert s[5] == 'u' && JSON_EXTRACT[5] == 'e';
    assert s[1..] == "son_unquote(" + rest;
    FindSkips("son_unquote(", rest);
  }

  lemma MatchedIsFound(s: string)
    requires s != "" && MatchExtract(s).Some?
    ensures FindExtract(s) == MatchExtract(s)
  {
  }

  lemma ExtractIsFound(field: string, path: string, style: Style, tail: string)
    requires IsIdentifier(field) && IsPlainPath(path) && IsStyle(style)
    ensures FindExtract(CatalogExpression(field, path, style, tail)) == Some((field, PathLiteral(path, style)))
  {
    hide FindExtract, MatchExtract, PathLiteral;
    var extract := ExtractText(field, path, style, tail);
    FindSkips("cast(", "json_unquote(" + extract);
    UnquoteIsSkipped(extract);
    ExtractIsMatched(field, path, style, tail);
    MatchedIsFound(extract);
  }

  lemma CharsetIsDropped(style: Style, rest: string)
    requires rest != "" && LowerChar(rest[0]) != '_' && AllGraphic(rest[..1])
    ensures DropCharset(CharsetText(style) + rest) == rest
  {
    GraphicIsNoSpace(rest[..1][0]);
    if !style.charset {
      assert "" + rest == rest;
      if |rest| >= 8 { LowerLetters(rest[..8]); }
      return;
    }
    var s := "_utf8mb4" + rest;
    GraphicIsNoSpace('_');
    assert s[..8] == "_utf8mb4" && s[8..] == rest;
    assert IsLower("_utf8mb4");
    LowerOfLower("_utf8mb4");
  }

  lemma QuotesAreDropped(path: string, style: Style)
    requires IsPlainPath(path) && IsStyle(style)
    ensures DropFirstQuote(QuoteText(style) + (path + QuoteText(style))) == path + QuoteText(style)
    ensures DropLastQuote(path + QuoteText(style)) == path
  {
    var behind := path + QuoteText(style);
    var s := QuoteText(style) + behind;
    assert s[|QuoteText(style)|..] == behind;
    GraphicIsNoSpace(style.quote);
    assert TrimEnd(behind) == behind;
    assert path[|path| - 1] in path;
    assert behind[..|path|] == path;
  }

  /** Reading the catalog's expression gives the accessor back. */
  lemma ExpressionReads(field: string, path: string, style: Style, tail: string)
    requires IsIdentifier(field) && IsPlainPath(path) && IsStyle(style) && IsCollapsed(tail)
    ensures NormalizeMySqlExpression(CatalogExpression(field, path, style, tail))
            == AccessorText(Accessor(field, path))
  {
    ExpressionIsCollapsed(field, path, style, tail);
    ExtractIsFound(field, path, style, tail);
    CharsetIsDropped(style, QuoteText(style) + (path + QuoteText(style)));
    QuotesAreDropped(path, style);
    GraphicIsCollapsed(path);
    TrimTrimmed(path);
  }

  lemma ExpressionIsCollapsed(field: string, path: string, style: Style, tail: string)
    requires IsIdentifier(field) && IsPlainPath(path) && IsStyle(style) && IsCollapsed(tail)
    ensures Collapse(CatalogExpression(field, path, style, tail)) == CatalogExpression(field, path, style, tail)
  {
    var literal := PathLiteral(path, style);
    LiteralChars(path, style);
    GraphicConcat(literal, [')']);
    GraphicThenTail(literal + [')'], tail);
    GraphicThenTail(",", literal + [')'] + tail);
    var rest := "," + (literal + [')'] + tail);
    IdentifierIsGraphic(field);
    TickThenTail(style, rest);
    GraphicThenTail(field, TickText(style) + rest);
    TickThenTail(style, field + (TickText(style) + rest));
    GraphicThenTail("(", TickText(style) + (field + (TickText(style) + rest)));
    GraphicThenTail(JSON_EXTRACT, "(" + (TickText(style) + (field + (TickText(style) + rest))));
    GraphicThenTail("json_unquote(", ExtractText(field, path, style, tail));
    GraphicThenTail("cast(", "json_unquote(" + ExtractText(field, path, style, tail));
    CollapseCollapsed(CatalogExpression(field, path, style, tail));
  }

  lemma TickThenTail(style: Style, tail: string)
    requires IsCollapsed(tail)
    ensures IsCollapsed(TickText(style) + tail)
  {
    if style.ticks { GraphicThenTail("`", tail); } else { assert "" + tail == tail; }
  }

  lemma GraphicThenTail(a: string, tail: string)
    requires AllGraphic(a) && a != "" && IsCollapsed(tail)
    ensures IsCollapsed(a + tail)
  {
    GraphicIsCollapsed(a);
    CollapsedConcat(a, tail);
  }

  /** An expression that calls no such function is left as it is. */
  lemma OtherExpressionStays(expression: string)
    requires IsCollapsed(expression) && forall i | 0 <= i < |expression| :: LowerChar(expression[i]) != 'j'
    ensures NormalizeMySqlExpression(expression) == expression
  {
    CollapseCollapsed(expression);
    assert expression + "" == expression;
    FindSkips(expression, "");
  }

  // ---------------------------------------------------------------- the round trip

  /** An accessor column of the schema is left alone by sync's checks and reads back with its signature. */
  lemma AccessorReadsBack(field: string, quote: char, path: string, style: Style, tail: string,
                          length: Option<string>)
    requires IsIdentifier(field) && IsPlainPath(path) && IsStyle(style) && IsCollapsed(tail)
    requires quote == '"' || quote == '\''
    ensures var col := field + "->>" + [quote] + path + [quote];
            && GenerateColumn(col, length) == "(CAST(" + col + " as CHAR(255)) COLLATE utf8mb4_bin)"
            && NormalizeSpec(NormalizeMySqlExpression(CatalogExpression(field, path, style, tail)))
               == NormalizeSpec(DesiredColumn(col, length))
  {
    hide NormalizeMySqlExpression, CatalogExpression, NormalizeSpec, AccessorText;
    var rest := "->>" + ([quote] + path + [quote]);
    var col := field + rest;
    assert col == field + "->>" + [quote] + path + [quote];
    ExpressionReads(field, path, style, tail);
    GraphicIsCollapsed(path);
    NormalAccessor(field, path);
    AccessorIsUnsplit(field, rest);
    AccessorIsThere(field, rest);
    SchemaAccessor(field, quote, path);
  }

  lemma SchemaAccessor(field: string, quote: char, path: string)
    requires IsIdentifier(field) && IsPlainPath(path) && (quote == '"' || quote == '\'')
    ensures NormalizeSpec(field + "->>" + [quote] + path + [quote]) == AccessorText(Accessor(field, path))
  {
    var spec := field + "->>" + [quote] + path + [quote];
    IdentifierIsGraphic(field);
    GraphicConcat(field, "->>");
    GraphicConcat(field + "->>", [quote]);
    GraphicConcat(field + "->>" + [quote], path);
    GraphicConcat(field + "->>" + [quote] + path, [quote]);
    GraphicIsCollapsed(spec);
    NormalOf(spec);
    AccessorIsRead(field, quote, path);
    RawAccessor(spec, field, path);
  }
}
