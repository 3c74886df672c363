/** The MySQL string-literal normaliser itself (lib/sql-transform/MySQLSqlTransformer.js): literals are
    decoded and re-encoded, statements are gated on their leading keyword, and the splice is proved to be what
    one pass over the tokens of the whole text does. That the rewritten text scans to the same program is
    shown in MySqlProgram. */
module MySqlTransform {
  import opened MySqlLexer
  import opened Texts
  import opened Words

  // ---------------------------------------------------------------- string values

  /** The value of a backslash followed by `c` inside a literal (default sql_mode). */
  function EscapeValue(c: char): string {
    match c
    case '0' => "\0"
    case 'b' => "\U{0008}"
    case 'n' => "\n"
    case 'r' => "\r"
    case 't' => "\t"
    case 'Z' => "\U{001A}"
    case '%' => "\\%"
    case '_' => "\\_"
    case _ => [c]
  }

  /** The value denoted by the text between two delimiters `q`: section "String Literals" of the MySQL 8.0
      Reference Manual. */
  function Value(raw: string, q: char): string {
    if raw == "" then ""
    else if raw[0] == q && |raw| > 1 && raw[1] == q then [q] + Value(raw[2..], q)
    else if raw[0] == '\\' then
      if |raw| == 1 then "\\" else EscapeValue(raw[1]) + Value(raw[2..], q)
    else [raw[0]] + Value(raw[1..], q)
  }

  /** One step of reading a value, by position in the whole literal. */
  lemma ValueAt(raw: string, i: nat, q: char)
    requires i < |raw|
    ensures Value(raw[i..], q) ==
            if raw[i] == q && i + 1 < |raw| && raw[i + 1] == q then [q] + Value(raw[i + 2..], q)
            else if raw[i] != '\\' then [raw[i]] + Value(raw[i + 1..], q)
            else if i + 1 == |raw| then "\\" + Value(raw[i + 1..], q)
            else EscapeValue(raw[i + 1]) + Value(raw[i + 2..], q)
  {
    assert raw[i..][1..] == raw[i + 1..];
    if i + 1 < |raw| { assert raw[i..][2..] == raw[i + 2..]; }
  }

  lemma ValueOfNothing(q: char)
    ensures Value("", q) == ""
  {
  }

  method DecodeDoubleQuotedLiteral(raw: string) returns (out: string)
    ensures out == Value(raw, '"')
  {
    hide Value;
    out := "";
    var idx := 0;
    assert raw[0..] == raw;
    while idx < |raw|
      invariant 0 <= idx <= |raw|
      invariant Value(raw, '"') == out + Value(raw[idx..], '"')
      decreases |raw| - idx
    {
      var ch := raw[idx];
      ValueAt(raw, idx, '"');
      if ch == '"' && idx + 1 < |raw| && raw[idx + 1] == '"' {
        out := out + ['"'];
        idx := idx + 2;
      } else if ch == '\\' {
        if idx + 1 == |raw| {
          out := out + "\\";
          idx := idx + 1;
        } else {
          out := out + EscapeValue(raw[idx + 1]);
          idx := idx + 2;
        }
      } else {
        out := out + [ch];
        idx := idx + 1;
      }
    }
    ValueOfNothing('"');
    assert raw[|raw|..] == "";
  }

  function ReplaceEach(s: string, c: char, sub: string): string {
    if s == "" then "" else (if s[0] == c then sub else [s[0]]) + ReplaceEach(s[1..], c, sub)
  }

  function EncodeSingleQuotedLiteral(value: string): string {
    ReplaceEach(ReplaceEach(value, '\\', "\\\\"), '\'', "''")
  }

  lemma {:induction false} ReplaceEachConcat(a: string, b: string, c: char, sub: string)
    ensures ReplaceEach(a + b, c, sub) == ReplaceEach(a, c, sub) + ReplaceEach(b, c, sub)
  {
    if a == "" {
      assert a + b == b;
    } else {
      assert (a + b)[1..] == a[1..] + b;
      ReplaceEachConcat(a[1..], b, c, sub);
    }
  }

  function EncodeChar(c: char): string {
    if c == '\\' then "\\\\" else if c == '\'' then "''" else [c]
  }

  lemma EncodeStep(value: string)
    requires value != ""
    ensures EncodeSingleQuotedLiteral(value)
            == EncodeChar(value[0]) + EncodeSingleQuotedLiteral(value[1..])
  {
    var head := if value[0] == '\\' then "\\\\" else [value[0]];
    ReplaceEachConcat(head, ReplaceEach(value[1..], '\\', "\\\\"), '\'', "''");
    if value[0] == '\\' {
      assert head == ['\\'] + ['\\'];
      ReplaceEachConcat(['\\'], ['\\'], '\'', "''");
    }
    assert ReplaceEach(head, '\'', "''") == EncodeChar(value[0]);
  }

  /** One encoded character in front of encoded text. */
  lemma EncodedInFront(c: char, e: string)
    ensures Value(EncodeChar(c) + e, '\'') == [c] + Value(e, '\'')
    ensures Closed(e, '\'', true) ==> Closed(EncodeChar(c) + e, '\'', true)
  {
    var k := |EncodeChar(c)|;
    assert (EncodeChar(c) + e)[k..] == e;
  }

  /** Every value survives being spelled as a single-quoted literal, and its spelling never closes early. */
  lemma {:induction false} EncodeRoundTrip(value: string)
    ensures Value(EncodeSingleQuotedLiteral(value), '\'') == value
    ensures Closed(EncodeSingleQuotedLiteral(value), '\'', true)
  {
    if value != "" {
      hide Value, Closed, EncodeSingleQuotedLiteral;
      EncodeStep(value);
      EncodeRoundTrip(value[1..]);
      EncodedInFront(value[0], EncodeSingleQuotedLiteral(value[1..]));
      assert value == [value[0]] + value[1..];
    }
  }

  // ---------------------------------------------------------------- leading keywords

  /** What is known about a statement's leading keyword after reading a part of it. */
  datatype Lead = Pending | Word(word: string) | Blocked

  /** The first bare word of a text; empty when it has none. */
  function FirstWord(s: string): string {
    if s == "" then "" else if IsWordStart(s[0]) then s[..WordEnd(s)] else FirstWord(s[1..])
  }

  function LeadAfterPart(lead: Lead, part: string): Lead {
    if lead == Pending && FirstWord(part) != "" then Word(Lower(FirstWord(part))) else lead
  }

  predicate Rewritable(lead: Lead) {
    lead.Word? && lead.word in {"select", "insert", "replace", "update", "delete"}
  }

  /** The step made by one token of a single statement. */
  function LeadInStatement(lead: Lead, t: Token): Lead {
    match t.kind
    case LineComment => lead
    case BlockComment => lead
    case Text => LeadAfterPart(lead, t.text)
    case _ => if lead == Pending then Blocked else lead
  }

  /** The leading keyword of a statement read up to its end. */
  function LeadOf(statement: seq<Token>): Lead {
    if statement == [] then Pending
    else LeadInStatement(LeadOf(statement[..|statement| - 1]), statement[|statement| - 1])
  }

  lemma {:induction false} LeadStays(statement: seq<Token>, n: nat)
    requires n <= |statement| && LeadOf(statement[..n]) != Pending
    ensures LeadOf(statement) == LeadOf(statement[..n])
  {
    if n == |statement| {
      assert statement[..n] == statement;
    } else {
      var m := |statement| - 1;
      assert statement[..m][..n] == statement[..n];
      LeadStays(statement[..m], n);
    }
  }

  method LeadingKeywordOf(statement: seq<Token>) returns (lead: Lead)
    ensures lead == LeadOf(statement)
  {
    for i := 0 to |statement|
      invariant LeadOf(statement[..i]) == Pending
    {
      var token := statement[i];
      assert statement[..i + 1][..i] == statement[..i];
      if token.kind == LineComment || token.kind == BlockComment {
        continue;
      }
      if token.kind != Text {
        LeadStays(statement, i + 1);
        return Blocked;
      }
      var word := FirstWord(token.text);
      if word != "" {
        LeadStays(statement, i + 1);
        return Word(Lower(word));
      }
    }
    assert statement[..|statement|] == statement;
    return Pending;
  }

  // ---------------------------------------------------------------- one pass over the tokens

  /** `split(';')`. */
  function Parts(text: string): (parts: seq<string>)
    ensures |parts| >= 1
    decreases |text|
  {
    var n := IndexOf(text, ';');
    if n == |text| then [text] else [text[..n]] + Parts(text[n + 1..])
  }

  /** A part that is not the first one stands behind a `;`, where a new statement begins. */
  function LeadAfterParts(lead: Lead, parts: seq<string>): Lead {
    if parts == [] then lead
    else if |parts| == 1 then LeadAfterPart(lead, parts[0])
    else LeadAfterPart(Pending, parts[|parts| - 1])
  }

  function LeadAfter(lead: Lead, t: Token): Lead {
    if t.kind == Text then LeadAfterParts(lead, Parts(t.text)) else LeadInStatement(lead, t)
  }

  /** The leading keyword in force behind a list of tokens: that of the statement they end in. */
  function LeadFrom(lead: Lead, ts: seq<Token>): Lead
    decreases |ts|
  {
    if ts == [] then lead else LeadFrom(LeadAfter(lead, ts[0]), ts[1..])
  }

  lemma {:induction false} LeadFromSnoc(lead: Lead, ts: seq<Token>, i: nat)
    requires i < |ts|
    decreases i
    ensures LeadFrom(lead, ts[..i + 1]) == LeadAfter(LeadFrom(lead, ts[..i]), ts[i])
  {
    if i > 0 {
      LeadFromSnoc(LeadAfter(lead, ts[0]), ts[1..], i - 1);
      assert ts[..i + 1][1..] == ts[1..][..i] && ts[..i][1..] == ts[1..][..i - 1];
    } else {
      assert ts[..1][1..] == [];
    }
  }

  /** Does the `i`-th token belong to a statement that may be rewritten? */
  predicate InRewritable(ts: seq<Token>, i: nat)
    requires i < |ts|
  {
    Rewritable(LeadFrom(Pending, ts[..i]))
  }

  function Respell(t: Token): Token {
    Token(SingleQuoted, "'" + EncodeSingleQuotedLiteral(Value(Raw(t), '"')) + "'")
  }

  function RewriteToken(lead: Lead, t: Token): Token {
    if t.kind == DoubleQuoted && Rewritable(lead) then Respell(t) else t
  }

  /** The rewritten token list: a double-quoted token is respelled when its statement may be rewritten. */
  function Rewritten(ts: seq<Token>): (us: seq<Token>)
    ensures |us| == |ts|
  {
    seq(|ts|, i requires 0 <= i < |ts| => RewriteToken(LeadFrom(Pending, ts[..i]), ts[i]))
  }

  /** How many tokens of a list are double-quoted and in a rewritable statement. */
  function Rewrites(ts: seq<Token>): nat {
    if ts == [] then 0 else
      var n := |ts| - 1;
      Rewrites(ts[..n]) + if ts[n].kind == DoubleQuoted && InRewritable(ts, n) then 1 else 0
  }

  lemma {:induction false} NoRewrites(ts: seq<Token>)
    ensures Rewrites(ts) == 0 <==>
            forall i | 0 <= i < |ts| :: ts[i].kind == DoubleQuoted ==> !InRewritable(ts, i)
  {
    if ts != [] {
      hide Rewritable, LeadFrom;
      var n := |ts| - 1;
      NoRewrites(ts[..n]);
      forall i | 0 <= i < n ensures ts[..n][i] == ts[i] && InRewritable(ts[..n], i) == InRewritable(ts, i) {
        assert ts[..n][..i] == ts[..i];
      }
    }
  }

  lemma RewritesZero(ts: seq<Token>)
    ensures Rewrites(ts) == 0 <==> Rewritten(ts) == ts
    ensures Rewrites(ts) == 0 <==>
            forall i | 0 <= i < |ts| :: ts[i].kind == DoubleQuoted ==> !InRewritable(ts, i)
  {
    hide Rewrites, LeadFrom, Rewritable;
    NoRewrites(ts);
    if Rewrites(ts) != 0 {
      var i :| 0 <= i < |ts| && ts[i].kind == DoubleQuoted && InRewritable(ts, i);
      assert Rewritten(ts)[i].kind == SingleQuoted;
    }
  }

  datatype Mode = Identity | Unterminated | SkippedNonDml | Rewrite

  datatype Result = Result(sql: string, mode: Mode, rewrites: nat)

  predicate HasDoubleQuoted(ts: seq<Token>) {
    exists t | t in ts :: t.kind == DoubleQuoted
  }

  /** What the normaliser computes, over the tokens of the whole text. */
  function Normalize(sql: string): Result {
    var scan := Lex(sql);
    if '"' !in sql then Result(sql, Identity, 0)
    else if scan.unterminated then Result(sql, Unterminated, 0)
    else if Rewrites(scan.tokens) == 0 then
      Result(sql, if HasDoubleQuoted(scan.tokens) then SkippedNonDml else Identity, 0)
    else Result(Join(Rewritten(scan.tokens)), Rewrite, Rewrites(scan.tokens))
  }

  // ---------------------------------------------------------------- statement by statement

  /** The statements closed so far and the one being collected. */
  datatype Split = Split(statements: seq<seq<Token>>, current: seq<Token>)

  function AddPart(sp: Split, part: string, first: bool): Split {
    var next := if first then sp
                else Split(sp.statements + [sp.current + [Token(Text, ";")]], []);
    if part == "" then next else next.(current := next.current + [Token(Text, part)])
  }

  function AddParts(sp: Split, parts: seq<string>): Split {
    if parts == [] then sp else
      var n := |parts| - 1;
      AddPart(AddParts(sp, parts[..n]), parts[n], n == 0)
  }

  function AddToken(sp: Split, t: Token): Split {
    if t.kind != Text || ';' !in t.text then sp.(current := sp.current + [t])
    else AddParts(sp, Parts(t.text))
  }

  function SplitAll(ts: seq<Token>): Split {
    if ts == [] then Split([], []) else AddToken(SplitAll(ts[..|ts| - 1]), ts[|ts| - 1])
  }

  function Statements(ts: seq<Token>): seq<seq<Token>> {
    SplitAll(ts).statements + [SplitAll(ts).current]
  }

  method SplitStatements(tokens: seq<Token>) returns (statements: seq<seq<Token>>)
    ensures statements == Statements(tokens)
  {
    statements := [];
    var current: seq<Token> := [];
    for i := 0 to |tokens|
      invariant Split(statements, current) == SplitAll(tokens[..i])
    {
      var token := tokens[i];
      assert tokens[..i + 1][..i] == tokens[..i];
      if token.kind != Text || ';' !in token.text {
        current := current + [token];
        continue;
      }
      var parts := Parts(token.text);
      ghost var before := Split(statements, current);
      for k := 0 to |parts|
        invariant Split(statements, current) == AddParts(before, parts[..k])
      {
        assert parts[..k + 1][..k] == parts[..k];
        if k > 0 {
          statements := statements + [current + [Token(Text, ";")]];
          current := [];
        }
        if parts[k] != "" {
          current := current + [Token(Text, parts[k])];
        }
      }
      assert parts[..|parts|] == parts;
    }
    assert tokens[..|tokens|] == tokens;
    statements := statements + [current];
  }

  /** Rebuilt text, number of rewrites and number of double-quoted tokens of some part of the input. */
  datatype Tally = Tally(text: string, rewrites: nat, doubles: nat) {
    function Plus(other: Tally): Tally {
      Tally(text + other.text, rewrites + other.rewrites, doubles + other.doubles)
    }
  }

  function TokenTally(lead: Lead, t: Token): Tally {
    var double := if t.kind == DoubleQuoted then 1 else 0;
    Tally(RewriteToken(lead, t).text, if Rewritable(lead) then double else 0, double)
  }

  /** A statement rebuilt under a leading keyword known in advance. */
  function StatementTally(lead: Lead, statement: seq<Token>): Tally {
    if statement == [] then Tally("", 0, 0) else
      var n := |statement| - 1;
      StatementTally(lead, statement[..n]).Plus(TokenTally(lead, statement[n]))
  }

  function StatementsTally(statements: seq<seq<Token>>): Tally {
    if statements == [] then Tally("", 0, 0) else
      var n := |statements| - 1;
      StatementsTally(statements[..n]).Plus(StatementTally(LeadOf(statements[n]), statements[n]))
  }

  function SplitTally(sp: Split): Tally {
    StatementsTally(sp.statements).Plus(StatementTally(LeadOf(sp.current), sp.current))
  }

  /** The same sum taken in one pass over the unsplit tokens. */
  function OnePassTally(ts: seq<Token>): Tally {
    if ts == [] then Tally("", 0, 0) else
      var n := |ts| - 1;
      OnePassTally(ts[..n]).Plus(TokenTally(LeadFrom(Pending, ts[..n]), ts[n]))
  }

  /** Before a statement's keyword is known it holds nothing to rewrite, so the keyword does not matter. */
  lemma {:induction false} PendingTally(statement: seq<Token>, lead: Lead)
    requires LeadOf(statement) == Pending
    ensures StatementTally(lead, statement) == StatementTally(Pending, statement)
  {
    if statement != [] {
      var n := |statement| - 1;
      if LeadOf(statement[..n]) != Pending { LeadStays(statement, n); }
      PendingTally(statement[..n], lead);
    }
  }

  lemma StatementGrows(current: seq<Token>, t: Token)
    ensures LeadOf(current + [t]) == LeadInStatement(LeadOf(current), t)
    ensures StatementTally(LeadOf(current + [t]), current + [t])
            == StatementTally(LeadOf(current), current).Plus(TokenTally(LeadOf(current), t))
  {
    assert (current + [t])[..|current|] == current;
    var lead := LeadOf(current + [t]);
    if LeadOf(current) == Pending {
      PendingTally(current, lead);
      assert TokenTally(lead, t) == TokenTally(Pending, t);
    }
  }

  lemma PlusAssociates(a: Tally, b: Tally, c: Tally)
    ensures a.Plus(b).Plus(c) == a.Plus(b.Plus(c))
  {
    assert a.text + b.text + c.text == a.text + (b.text + c.text);
  }

  lemma PlusNothing(a: Tally)
    ensures a.Plus(Tally("", 0, 0)) == a
  {
    assert a.text + "" == a.text;
  }

  function Plain(text: string): Tally {
    Tally(text, 0, 0)
  }

  lemma CurrentGrows(sp: Split, t: Token)
    ensures SplitTally(sp.(current := sp.current + [t]))
            == SplitTally(sp).Plus(TokenTally(LeadOf(sp.current), t))
  {
    StatementGrows(sp.current, t);
    PlusAssociates(StatementsTally(sp.statements), StatementTally(LeadOf(sp.current), sp.current),
                   TokenTally(LeadOf(sp.current), t));
  }

  lemma CurrentCloses(sp: Split)
    ensures SplitTally(Split(sp.statements + [sp.current], [])) == SplitTally(sp)
  {
    assert (sp.statements + [sp.current])[..|sp.statements|] == sp.statements;
    PlusNothing(StatementsTally(sp.statements + [sp.current]));
  }

  lemma NewStatement(sp: Split)
    ensures SplitTally(Split(sp.statements + [sp.current + [Token(Text, ";")]], []))
            == SplitTally(sp).Plus(Plain(";"))
  {
    CurrentGrows(sp, Token(Text, ";"));
    CurrentCloses(sp.(current := sp.current + [Token(Text, ";")]));
  }

  lemma AddPartTally(sp: Split, part: string, first: bool)
    ensures var next := AddPart(sp, part, first);
            && LeadOf(next.current) == LeadAfterPart(if first then LeadOf(sp.current) else Pending, part)
            && SplitTally(next) == SplitTally(sp).Plus(Plain((if first then "" else ";") + part))
  {
    var next := if first then sp
                else Split(sp.statements + [sp.current + [Token(Text, ";")]], []);
    var semicolon := if first then "" else ";";
    if first { PlusNothing(SplitTally(sp)); } else { NewStatement(sp); }
    assert SplitTally(next) == SplitTally(sp).Plus(Plain(semicolon));
    if part == "" {
      assert semicolon + part == semicolon;
    } else {
      CurrentGrows(next, Token(Text, part));
      StatementGrows(next.current, Token(Text, part));
      PlusAssociates(SplitTally(sp), Plain(semicolon), Plain(part));
    }
  }

  function JoinParts(parts: seq<string>): string {
    if parts == [] then "" else
      var n := |parts| - 1;
      JoinParts(parts[..n]) + (if n == 0 then "" else ";") + parts[n]
  }

  lemma {:induction false} JoinPartsFront(part: string, parts: seq<string>)
    requires parts != []
    ensures JoinParts([part] + parts) == part + ";" + JoinParts(parts)
  {
    hide Parts;
    var n := |parts| - 1;
    assert ([part] + parts)[..n + 1] == [part] + parts[..n];
    if n == 0 {
      assert [part][..0] == [] && parts[..0] == [];
    } else {
      JoinPartsFront(part, parts[..n]);
    }
  }

  lemma CutAt(text: string, n: nat)
    requires n < |text| && text[n] == ';'
    ensures text[..n] + ";" + text[n + 1..] == text
  {
  }

  lemma {:induction false} JoinPartsOfText(text: string)
    ensures JoinParts(Parts(text)) == text
    decreases |text|
  {
    var n := IndexOf(text, ';');
    if n == |text| {
      assert [text][..0] == [];
    } else {
      JoinPartsOfText(text[n + 1..]);
      JoinPartsFront(text[..n], Parts(text[n + 1..]));
      CutAt(text, n);
    }
  }

  lemma PlainChain(total: Tally, before: Tally, first: Tally, a: string, b: string)
    requires first == before.Plus(Plain(a)) && total == first.Plus(Plain(b))
    ensures total == before.Plus(Plain(a + b))
  {
    PlusAssociates(before, Plain(a), Plain(b));
  }

  lemma {:induction false} AddPartsTally(sp: Split, parts: seq<string>)
    ensures LeadOf(AddParts(sp, parts).current) == LeadAfterParts(LeadOf(sp.current), parts)
    ensures SplitTally(AddParts(sp, parts)) == SplitTally(sp).Plus(Plain(JoinParts(parts)))
  {
    if parts == [] {
      PlusNothing(SplitTally(sp));
    } else {
      var n := |parts| - 1;
      AddPartsTally(sp, parts[..n]);
      var prev := AddParts(sp, parts[..n]);
      AddPartTally(prev, parts[n], n == 0);
      var tail := (if n == 0 then "" else ";") + parts[n];
      PlainChain(SplitTally(AddPart(prev, parts[n], n == 0)), SplitTally(sp), SplitTally(prev),
                 JoinParts(parts[..n]), tail);
      JoinPartsBack(parts);
      assert n == 0 ==> prev == sp;
    }
  }

  lemma JoinPartsBack(parts: seq<string>)
    requires parts != []
    ensures var n := |parts| - 1;
            JoinParts(parts) == JoinParts(parts[..n]) + ((if n == 0 then "" else ";") + parts[n])
  {
    var n := |parts| - 1;
    if n == 0 { assert parts[..0] == []; }
  }

  lemma NoSemicolonNoSplit(text: string)
    requires ';' !in text
    ensures Parts(text) == [text]
  {
  }

  lemma AddTokenTally(sp: Split, t: Token)
    ensures LeadOf(AddToken(sp, t).current) == LeadAfter(LeadOf(sp.current), t)
    ensures SplitTally(AddToken(sp, t)) == SplitTally(sp).Plus(TokenTally(LeadOf(sp.current), t))
  {
    hide SplitTally, LeadOf, JoinParts, StatementTally;
    if t.kind != Text || ';' !in t.text {
      CurrentGrows(sp, t);
      StatementGrows(sp.current, t);
      if t.kind == Text { NoSemicolonNoSplit(t.text); }
    } else {
      AddPartsTally(sp, Parts(t.text));
      JoinPartsOfText(t.text);
      assert TokenTally(LeadOf(sp.current), t) == Plain(t.text);
    }
  }

  lemma {:induction false} SplitKeepsLead(ts: seq<Token>)
    ensures LeadOf(SplitAll(ts).current) == LeadFrom(Pending, ts)
  {
    if ts != [] {
      var n := |ts| - 1;
      SplitKeepsLead(ts[..n]);
      AddTokenTally(SplitAll(ts[..n]), ts[n]);
      LeadFromSnoc(Pending, ts, n);
      assert ts[..n + 1] == ts;
    }
  }

  /** Splitting on `;`, gating each statement and joining again rewrites what one pass would. */
  lemma {:induction false} SplitIsOnePass(ts: seq<Token>)
    ensures SplitTally(SplitAll(ts)) == OnePassTally(ts)
  {
    if ts == [] {
      PlusNothing(StatementsTally([]));
    } else {
      var n := |ts| - 1;
      SplitIsOnePass(ts[..n]);
      SplitKeepsLead(ts[..n]);
      AddTokenTally(SplitAll(ts[..n]), ts[n]);
    }
  }

  lemma {:induction false} OnePassCounts(ts: seq<Token>)
    ensures OnePassTally(ts).rewrites == Rewrites(ts)
    ensures OnePassTally(ts).doubles >= Rewrites(ts)
    ensures OnePassTally(ts).doubles > 0 <==> HasDoubleQuoted(ts)
  {
    if ts != [] {
      var n := |ts| - 1;
      OnePassCounts(ts[..n]);
      assert ts == ts[..n] + [ts[n]];
    }
  }

  lemma RewrittenGrows(ts: seq<Token>)
    requires ts != []
    ensures var n := |ts| - 1;
            Rewritten(ts) == Rewritten(ts[..n]) + [RewriteToken(LeadFrom(Pending, ts[..n]), ts[n])]
  {
    assert forall i | 0 <= i < |ts| - 1 :: ts[..|ts| - 1][..i] == ts[..i];
  }

  lemma {:induction false} OnePassText(ts: seq<Token>)
    ensures OnePassTally(ts).text == Join(Rewritten(ts))
  {
    if ts != [] {
      var n := |ts| - 1;
      OnePassText(ts[..n]);
      RewrittenGrows(ts);
      var last := RewriteToken(LeadFrom(Pending, ts[..n]), ts[n]);
      JoinConcat(Rewritten(ts[..n]), [last]);
      assert Join([last]) == last.text + Join([]);
    }
  }

  /** `statement.map(...).join('')` of a statement that may be rewritten. */
  method RewriteStatement(statement: seq<Token>, lead: Lead) returns (text: string, rewrites: nat)
    requires Rewritable(lead)
    ensures Tally(text, rewrites, rewrites) == StatementTally(lead, statement)
  {
    text, rewrites := "", 0;
    for i := 0 to |statement|
      invariant Tally(text, rewrites, rewrites) == StatementTally(lead, statement[..i])
    {
      assert statement[..i + 1][..i] == statement[..i];
      if statement[i].kind != DoubleQuoted {
        text := text + statement[i].text;
      } else {
        rewrites := rewrites + 1;
        var value := DecodeDoubleQuotedLiteral(Raw(statement[i]));
        text := text + ("'" + EncodeSingleQuotedLiteral(value) + "'");
      }
    }
    assert statement[..|statement|] == statement;
  }

  lemma {:induction false} UntouchedTally(statement: seq<Token>, lead: Lead)
    requires !Rewritable(lead)
    ensures StatementTally(lead, statement).text == Join(statement)
    ensures StatementTally(lead, statement).rewrites == 0
    ensures StatementTally(lead, statement).doubles > 0 <==> HasDoubleQuoted(statement)
  {
    if statement != [] {
      var n := |statement| - 1;
      UntouchedTally(statement[..n], lead);
      JoinConcat(statement[..n], [statement[n]]);
      assert Join([statement[n]]) == statement[n].text;
      assert statement == statement[..n] + [statement[n]];
    }
  }

  /** The loop over the statements. */
  method RebuildStatements(statements: seq<seq<Token>>)
    returns (rebuilt: string, rewrites: nat, skippedNonDml: bool)
    ensures var tally := StatementsTally(statements);
            && rebuilt == tally.text && rewrites == tally.rewrites && tally.doubles >= rewrites
            && (skippedNonDml <==> tally.doubles > rewrites)
  {
    rebuilt, rewrites, skippedNonDml := "", 0, false;
    for i := 0 to |statements|
      invariant StatementsTally(statements[..i]).text == rebuilt
      invariant StatementsTally(statements[..i]).rewrites == rewrites
      invariant StatementsTally(statements[..i]).doubles >= rewrites
      invariant skippedNonDml <==> StatementsTally(statements[..i]).doubles > rewrites
    {
      var statement := statements[i];
      assert statements[..i + 1][..i] == statements[..i];
      var lead := LeadingKeywordOf(statement);
      if !Rewritable(lead) {
        UntouchedTally(statement, lead);
        skippedNonDml := skippedNonDml || HasDoubleQuoted(statement);
        rebuilt := rebuilt + Join(statement);
      } else {
        var text, n := RewriteStatement(statement, lead);
        rewrites := rewrites + n;
        rebuilt := rebuilt + text;
      }
    }
    assert statements[..|statements|] == statements;
  }

  /** What the loop over the statements of a text adds up to. */
  lemma StatementsAddUp(ts: seq<Token>)
    ensures var tally := StatementsTally(Statements(ts));
            && tally.text == Join(Rewritten(ts)) && tally.rewrites == Rewrites(ts)
            && (tally.doubles > 0 <==> HasDoubleQuoted(ts))
  {
    var sp := SplitAll(ts);
    assert (sp.statements + [sp.current])[..|sp.statements|] == sp.statements;
    SplitIsOnePass(ts);
    OnePassText(ts);
    OnePassCounts(ts);
  }

  method TransformSqlForMySQL(sql: string) returns (r: Result)
    ensures r == Normalize(sql)
  {
    if '"' !in sql {
      return Result(sql, Identity, 0);
    }
    var scan := ScanMySqlSql(sql);
    if scan.unterminated {
      return Result(sql, Unterminated, 0);
    }
    var statements := SplitStatements(scan.tokens);
    var rebuilt, rewrites, skippedNonDml := RebuildStatements(statements);
    StatementsAddUp(scan.tokens);
    if rewrites == 0 {
      return Result(sql, if skippedNonDml then SkippedNonDml else Identity, 0);
    }
    return Result(rebuilt, Rewrite, rewrites);
  }
}
