/** What becomes of one literal of one statement, character by character (lib/sql-transform/MySQLSqlTransformer.js). */
module MySqlLiterals {
  import opened MySqlLexer
  import opened MySqlRespell
  import opened MySqlTransform
  import opened MySqlProgram
  import opened Words

  // ---------------------------------------------------------------- plain text and words

  /** Text that opens no quoted run and no comment, and ends no statement. */
  predicate IsInert(s: string) {
    forall i | 0 <= i < |s| ::
      s[i] != '\'' && s[i] != '"' && s[i] != '`' && s[i] != '#' && s[i] != '-' && s[i] != '/' && s[i] != ';'
  }

  /** Text without quotes and backslashes. */
  predicate IsBare(s: string) {
    forall i | 0 <= i < |s| :: s[i] != '\'' && s[i] != '"' && s[i] != '\\'
  }

  predicate SpellsOneOf(w: string) {
    Spells(w, "select") || Spells(w, "insert") || Spells(w, "replace") || Spells(w, "update") || Spells(w, "delete")
  }

  /** A word of letters. */
  predicate IsLetters(w: string) {
    w != "" && forall i | 0 <= i < |w| :: 'a' <= w[i] <= 'z' || 'A' <= w[i] <= 'Z'
  }

  lemma SpellsOneOfExactlyWhen(w: string)
    ensures SpellsOneOf(w) <==> Rewritable(Word(Lower(w)))
  {
    hide Spells, Lower;
    SpellsExactlyWhen(w, "select");
    SpellsExactlyWhen(w, "insert");
    SpellsExactlyWhen(w, "replace");
    SpellsExactlyWhen(w, "update");
    SpellsExactlyWhen(w, "delete");
  }

  lemma InertPiece(c: char, s: string)
    requires IsInert([c])
    ensures NextPiece([c] + s) == Char || c == ';'
  {
    assert [c][0] == c;
  }

  lemma InertTail(t: string)
    requires IsInert(t) && t != ""
    ensures IsInert([t[0]]) && IsInert(t[1..]) && t[0] != ';'
  {
  }

  lemma {:induction false} InertInFront(t: string, s: string)
    requires IsInert(t)
    ensures Lex(t + s) == Scan(AddText(t, Lex(s).tokens), Lex(s).unterminated)
  {
    if t == "" {
      assert t + s == s;
    } else {
      InertTail(t);
      hide Lex, NextPiece, AddText, IsInert;
      InertInFront(t[1..], s);
      InertPiece(t[0], t[1..] + s);
      LexPlain(t[0], t[1..] + s);
      AddTextTwice([t[0]], t[1..], Lex(s).tokens);
      FirstAndRest(t, s);
    }
  }

  /** What a word and a blank are followed by plays no part in how they lead. */
  lemma WordLeads(w: string, gap: string)
    requires IsLetters(w) && IsInert(gap)
    ensures LeadAfter(Pending, Token(Text, w + (" " + gap))) == Word(Lower(w))
  {
    var text := w + (" " + gap);
    assert ';' !in text;
    NoSemicolonNoSplit(text);
    WordEndAt(w, " " + gap);
    assert text[..|w|] == w;
  }

  // ---------------------------------------------------------------- one literal in a statement

  lemma LiteralTokens(head: string, c: string, rest: string)
    requires IsInert(head) && head != "" && IsInert(rest) && Closed(c, '"', true)
    ensures var ts := [Token(Text, head), Token(DoubleQuoted, "\"" + c + "\"")];
            Lex(head + ("\"" + c + "\"" + rest))
            == Scan(if rest == "" then ts else ts + [Token(Text, rest)], false)
  {
    hide Lex, NextPiece, Closed;
    var literal := "\"" + c + "\"";
    var s := literal + rest;
    assert literal == ['"'] + c + ['"'] && |literal| == |c| + 2;
    InertInFront(rest, "");
    assert rest + "" == rest;
    NothingScans();
    if rest != "" { assert rest[0] != '"'; }
    QuotedPiece('"', c, rest);
    LexUnit(s, DoubleQuoted, |c| + 2);
    SliceOfConcat(literal, rest);
    InertInFront(head, s);
  }

  lemma NothingScans()
    ensures Lex("") == Scan([], false)
  {
  }

  lemma SliceOfConcat(a: string, b: string)
    ensures (a + b)[..|a|] == a && (a + b)[|a|..] == b
  {
  }

  lemma JoinOne(t: Token)
    ensures Join([t]) == t.text
  {
    assert t.text + "" == t.text;
  }

  lemma JoinThree(a: Token, b: Token, c: Token)
    ensures Join([a]) == a.text && Join([a, b]) == a.text + b.text && Join([a, b, c]) == a.text + b.text + c.text
  {
    assert [a, b, c] == [a] + [b] + [c] && [a, b] == [a] + [b];
    JoinOne(a);
    JoinOne(b);
    JoinOne(c);
    JoinConcat([a], [b]);
    JoinConcat([a] + [b], [c]);
  }

  /** The tokens of such a statement after rewriting. */
  lemma LiteralRewritten(lead: Lead, ts: seq<Token>)
    requires 2 <= |ts| <= 3 && LeadAfter(Pending, ts[0]) == lead
    requires ts[0].kind == Text && ts[1].kind == DoubleQuoted && (|ts| == 3 ==> ts[2].kind == Text)
    ensures Rewritten(ts) == [ts[0], RewriteToken(lead, ts[1])] + ts[2..]
  {
    LeadFromSnoc(Pending, ts, 0);
    assert ts[..0] == [] && LeadFrom(Pending, ts[..1]) == lead;
  }

  /** A literal behind the leading word of a statement: respelled behind the five keywords, in any case. */
  lemma LiteralIsRespelled(w: string, gap: string, c: string, rest: string)
    requires IsLetters(w) && SpellsOneOf(w) && IsInert(gap) && IsInert(rest) && Closed(c, '"', true)
    ensures Normalize(w + " " + gap + "\"" + c + "\"" + rest).sql
            == w + " " + gap + "'" + EncodeSingleQuotedLiteral(Value(c, '"')) + "'" + rest
  {
    hide Lex, Rewritable, LeadAfter, Closed, Value, EncodeSingleQuotedLiteral, Rewrites, Normalize, Rewritten, Join;
    var head, literal := w + (" " + gap), Token(DoubleQuoted, "\"" + c + "\"");
    assert IsInert(head);
    var sql := head + (literal.text + rest);
    assert sql == w + " " + gap + "\"" + c + "\"" + rest;
    LiteralTokens(head, c, rest);
    WordLeads(w, gap);
    SpellsOneOfExactlyWhen(w);
    var ts := Lex(sql).tokens;
    LiteralRewritten(Word(Lower(w)), ts);
    NormalizeText(sql);
    assert Raw(literal) == c;
    JoinThree(Token(Text, head), Respell(literal), Token(Text, rest));
    var e := EncodeSingleQuotedLiteral(Value(c, '"'));
    assert Respell(literal).text == "'" + e + "'";
    if rest == "" {
      assert Rewritten(ts) == [ts[0], Respell(literal)];
    } else {
      assert Rewritten(ts) == [ts[0], Respell(literal), ts[2]];
    }
    assert Normalize(sql).sql == head + ("'" + e + "'") + rest;
  }

  // ---------------------------------------------------------------- what stands between its quotes

  lemma {:induction false} BareValue(p: string, s: string)
    requires IsBare(p)
    ensures Value(p + s, '"') == p + Value(s, '"')
  {
    if p == "" {
      assert p + s == s;
    } else {
      assert (p + s)[1..] == p[1..] + s;
      BareValue(p[1..], s);
    }
  }

  lemma {:induction false} BareClosed(p: string, s: string)
    requires IsBare(p)
    ensures Closed(p + s, '"', true) == Closed(s, '"', true)
  {
    if p == "" {
      assert p + s == s;
    } else {
      assert (p + s)[1..] == p[1..] + s;
      BareClosed(p[1..], s);
    }
  }

  lemma {:induction false} BareEncoded(p: string)
    requires IsBare(p)
    ensures EncodeSingleQuotedLiteral(p) == p
  {
    if p != "" {
      hide EncodeSingleQuotedLiteral;
      BareEncoded(p[1..]);
      EncodeStep(p);
      assert p == [p[0]] + p[1..];
    } else {
      assert ReplaceEach("", '\\', "\\\\") == "";
    }
  }

  lemma EncodedConcat(a: string, b: string)
    ensures EncodeSingleQuotedLiteral(a + b) == EncodeSingleQuotedLiteral(a) + EncodeSingleQuotedLiteral(b)
  {
    ReplaceEachConcat(a, b, '\\', "\\\\");
    ReplaceEachConcat(ReplaceEach(a, '\\', "\\\\"), ReplaceEach(b, '\\', "\\\\"), '\'', "''");
  }

  /** Bare text around something of a known value. */
  lemma BareAround(p: string, x: string, value: string, q: string)
    requires IsBare(p) && IsBare(q)
    requires Value(x + q, '"') == value + Value(q, '"') && Closed(x + q, '"', true) == Closed(q, '"', true)
    ensures Closed(p + x + q, '"', true)
    ensures EncodeSingleQuotedLiteral(Value(p + x + q, '"')) == p + EncodeSingleQuotedLiteral(value) + q
  {
    hide Value, Closed, EncodeSingleQuotedLiteral, IsBare;
    assert p + x + q == p + (x + q);
    BareValue(p, x + q);
    BareClosed(p, x + q);
    BareValue(q, "");
    BareClosed(q, "");
    assert q + "" == q;
    ValueOfNothing('"');
    NothingIsClosed();
    BareEncoded(p);
    BareEncoded(q);
    EncodedConcat(p, value + q);
    EncodedConcat(value, q);
  }

  lemma NothingIsClosed()
    ensures Closed("", '"', true)
  {
  }

  lemma Literal(w: string, gap: string, p: string, x: string, value: string, q: string, rest: string)
    requires IsLetters(w) && SpellsOneOf(w) && IsInert(gap) && IsInert(rest) && IsBare(p) && IsBare(q)
    requires Value(x + q, '"') == value + Value(q, '"') && Closed(x + q, '"', true) == Closed(q, '"', true)
    ensures Normalize(w + " " + gap + "\"" + p + x + q + "\"" + rest).sql
            == w + " " + gap + "'" + p + EncodeSingleQuotedLiteral(value) + q + "'" + rest
  {
    hide IsLetters, SpellsOneOf, IsInert, IsBare, Value, Closed, EncodeSingleQuotedLiteral, Normalize;
    BareAround(p, x, value, q);
    LiteralIsRespelled(w, gap, p + x + q, rest);
    var sql := w + " " + gap + "\"" + p + x + q + "\"" + rest;
    assert sql == w + " " + gap + "\"" + (p + x + q) + "\"" + rest;
    var e := EncodeSingleQuotedLiteral(value);
    assert w + " " + gap + "'" + (p + e + q) + "'" + rest == w + " " + gap + "'" + p + e + q + "'" + rest;
  }

  lemma EscapeRead(letter: char, q: string)
    ensures var x := "\\" + [letter];
            && Value(x + q, '"') == EscapeValue(letter) + Value(q, '"')
            && Closed(x + q, '"', true) == Closed(q, '"', true)
  {
    var x := "\\" + [letter];
    assert (x + q)[2..] == q;
  }

  /** The escapes of a double-quoted literal, by code point. */
  lemma EscapeIsDecoded(w: string, gap: string, p: string, letter: char, q: string, rest: string)
    requires IsLetters(w) && SpellsOneOf(w) && IsInert(gap) && IsInert(rest) && IsBare(p) && IsBare(q)
    ensures var sql := Normalize(w + " " + gap + "\"" + p + ("\\" + [letter]) + q + "\"" + rest).sql;
            var front, back := w + " " + gap + "'" + p, q + "'" + rest;
            && (letter == '0' ==> sql == front + [0 as char] + back)
            && (letter == 'b' ==> sql == front + [8 as char] + back)
            && (letter == 't' ==> sql == front + [9 as char] + back)
            && (letter == 'n' ==> sql == front + [10 as char] + back)
            && (letter == 'r' ==> sql == front + [13 as char] + back)
            && (letter == 'Z' ==> sql == front + [26 as char] + back)
            && (letter == '%' || letter == '_' ==> sql == front + ['\\', '\\', letter] + back)
            && (letter == '\'' ==> sql == front + ['\'', '\''] + back)
            && (letter == '\\' ==> sql == front + ['\\', '\\'] + back)
            && (letter !in ['0', 'b', 't', 'n', 'r', 'Z', '%', '_', '\'', '\\'] ==> sql == front + [letter] + back)
  {
    hide EscapeValue, Normalize, EncodeSingleQuotedLiteral, IsLetters, SpellsOneOf, IsInert, IsBare, Value, Closed;
    EscapeRead(letter, q);
    var e := EncodeSingleQuotedLiteral(EscapeValue(letter));
    Literal(w, gap, p, "\\" + [letter], EscapeValue(letter), q, rest);
    EncodedEscape(letter);
    AroundValue(w + " " + gap + "'" + p, e, q, rest);
  }

  lemma AroundValue(front: string, e: string, q: string, rest: string)
    ensures front + e + q + "'" + rest == front + e + (q + "'" + rest)
  {
  }

  lemma EncodedChar(c: char)
    ensures EncodeSingleQuotedLiteral([c]) == EncodeChar(c)
  {
    EncodeStep([c]);
    assert [c][1..] == "" && EncodeSingleQuotedLiteral("") == "" && EncodeChar(c) + "" == EncodeChar(c);
  }

  lemma EncodedEscape(letter: char)
    ensures var e := EncodeSingleQuotedLiteral(EscapeValue(letter));
            && (letter == '0' ==> e == [0 as char]) && (letter == 'b' ==> e == [8 as char])
            && (letter == 't' ==> e == [9 as char]) && (letter == 'n' ==> e == [10 as char])
            && (letter == 'r' ==> e == [13 as char]) && (letter == 'Z' ==> e == [26 as char])
            && (letter == '%' || letter == '_' ==> e == ['\\', '\\', letter])
            && (letter == '\'' ==> e == ['\'', '\'']) && (letter == '\\' ==> e == ['\\', '\\'])
            && (letter !in ['0', 'b', 't', 'n', 'r', 'Z', '%', '_', '\'', '\\'] ==> e == [letter])
  {
    hide EncodeSingleQuotedLiteral;
    var value := EscapeValue(letter);
    EncodedChar(value[0]);
    if |value| == 1 {
      assert value == [value[0]];
    } else {
      assert value == ['\\'] + [letter];
      EncodedChar('\\');
      EncodedChar(letter);
      EncodedConcat(['\\'], [letter]);
    }
  }

  /** A doubled double quote is one, and a single quote has to be doubled. */
  lemma QuoteIsDecoded(w: string, gap: string, p: string, q: string, rest: string)
    requires IsLetters(w) && SpellsOneOf(w) && IsInert(gap) && IsInert(rest) && IsBare(p) && IsBare(q)
    ensures Normalize(w + " " + gap + "\"" + p + "\"\"" + q + "\"" + rest).sql
            == w + " " + gap + "'" + p + "\"" + q + "'" + rest
    ensures Normalize(w + " " + gap + "\"" + p + "'" + q + "\"" + rest).sql
            == w + " " + gap + "'" + p + "''" + q + "'" + rest
  {
    assert ("\"\"" + q)[2..] == q && ("'" + q)[1..] == q;
    EncodedChar('"');
    EncodedChar('\'');
    assert "\"" == ['"'] && "'" == ['\''];
    Literal(w, gap, p, "\"\"", "\"", q, rest);
    Literal(w, gap, p, "'", "'", q, rest);
  }

  // ---------------------------------------------------------------- other statements

  lemma {:induction false} OneStatementLead(lead: Lead, ts: seq<Token>)
    requires lead.Word? && forall i | 0 <= i < |ts| :: ';' !in ts[i].text
    ensures LeadFrom(lead, ts) == lead
    decreases |ts|
  {
    if ts != [] {
      if ts[0].kind == Text { NoSemicolonNoSplit(ts[0].text); }
      assert LeadAfter(lead, ts[0]) == lead;
      OneStatementLead(lead, ts[1..]);
    }
  }

  lemma {:induction false} TokenIsPart(ts: seq<Token>, i: nat, c: char)
    requires i < |ts| && c in ts[i].text
    ensures c in Join(ts)
  {
    if i > 0 { TokenIsPart(ts[1..], i - 1, c); }
  }

  /** A statement led by any other word comes back as it was. */
  lemma OtherStatementIsKept(w: string, s: string)
    requires IsLetters(w) && !SpellsOneOf(w) && ';' !in s
    ensures Normalize(w + " " + s).sql == w + " " + s
  {
    var sql := w + " " + s;
    if !Lex(sql).unterminated {
      var ts := Lex(sql).tokens;
      FirstTokenLeads(w, s);
      LexCoversText(sql);
      assert ';' !in w;
      assert forall i | 0 <= i < |ts| :: ';' !in ts[i].text by {
        forall i | 0 <= i < |ts| ensures ';' !in ts[i].text {
          if ';' in ts[i].text { TokenIsPart(ts, i, ';'); }
        }
      }
      NoSemicolonNoSplit(ts[0].text);
      SpellsOneOfExactlyWhen(w);
      forall i | 0 <= i < |ts| ensures ts[i].kind == DoubleQuoted ==> !InRewritable(ts, i) {
        if i > 0 {
          assert ts[..i][1..] == ts[1..i];
          OneStatementLead(Word(Lower(w)), ts[1..i]);
        }
      }
      NoRewrites(ts);
    }
  }

  lemma FirstTokenLeads(w: string, s: string)
    requires IsLetters(w) && ';' !in s && !Lex(w + " " + s).unterminated
    ensures var ts := Lex(w + " " + s).tokens;
            ts != [] && ts[0].kind == Text && LeadAfterPart(Pending, ts[0].text) == Word(Lower(w))
  {
    hide Lex, AddText;
    var head := w + " ";
    assert IsInert(head);
    InertInFront(head, s);
    var ts := Lex(s).tokens;
    var text := if ts != [] && ts[0].kind == Text then head + ts[0].text else head;
    FirstOfAddText(head, ts);
    assert head + s == w + " " + s;
    assert text == w + (text[|w|..]);
    WordEndAt(w, text[|w|..]);
    assert text[..|w|] == w;
  }

  lemma FirstOfAddText(t: string, ts: seq<Token>)
    requires t != ""
    ensures AddText(t, ts) != []
    ensures AddText(t, ts)[0] == Token(Text, if ts != [] && ts[0].kind == Text then t + ts[0].text else t)
  {
  }
}
