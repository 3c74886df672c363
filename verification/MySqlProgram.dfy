/** The rewritten text is the same program, and rewriting is idempotent (lib/sql-transform/MySQLSqlTransformer.js). */
module MySqlProgram {
  import opened MySqlLexer
  import opened MySqlRespell
  import opened MySqlTransform
  import opened Words

  /** The string a quoted literal denotes. */
  function LiteralValue(t: Token): string
    requires t.kind == SingleQuoted || t.kind == DoubleQuoted
  {
    Value(Raw(t), if t.kind == DoubleQuoted then '"' else '\'')
  }

  /** The `i`-th token is a double-quoted literal of a statement that may be rewritten. */
  predicate IsRewritten(ts: seq<Token>, i: nat)
    requires i < |ts|
  {
    ts[i].kind == DoubleQuoted && InRewritable(ts, i)
  }

  /** A literal about to be rewritten touches a single-quoted run between `i` and `i + 1`. */
  predicate TouchesSingle(ts: seq<Token>, i: nat) {
    i + 1 < |ts|
    && ((IsRewritten(ts, i) && ts[i + 1].kind == SingleQuoted)
        || (ts[i].kind == SingleQuoted && IsRewritten(ts, i + 1)))
  }

  lemma RespellIsLiteral(t: Token)
    ensures IsSingleLiteral(Respell(t))
    ensures Raw(Respell(t)) == EncodeSingleQuotedLiteral(Value(Raw(t), '"'))
    ensures LiteralValue(Respell(t)) == Value(Raw(t), '"')
  {
    var e := EncodeSingleQuotedLiteral(Value(Raw(t), '"'));
    EncodeRoundTrip(Value(Raw(t), '"'));
    assert ("'" + e + "'")[1..|e| + 1] == e;
  }

  lemma RewrittenIsRespelled(ts: seq<Token>)
    ensures AllRespelled(ts, Rewritten(ts))
  {
    forall i | 0 <= i < |ts| ensures Respelled(ts[i], Rewritten(ts)[i]) {
      RespellIsLiteral(ts[i]);
    }
  }

  lemma NormalizeText(sql: string)
    requires !Lex(sql).unterminated
    ensures Normalize(sql).sql == Join(Rewritten(Lex(sql).tokens))
  {
    var ts := Lex(sql).tokens;
    LexCoversText(sql);
    RewritesZero(ts);
    if '"' !in sql {
      forall i | 0 <= i < |ts| ensures ts[i].kind != DoubleQuoted { NoQuoteNoLiteral(sql, i); }
    }
  }

  lemma {:induction false} NoQuoteNoLiteral(s: string, i: nat)
    requires !Lex(s).unterminated && i < |Lex(s).tokens| && '"' !in s
    ensures Lex(s).tokens[i].kind != DoubleQuoted
  {
    match NextPiece(s)
    case Char =>
      var r := Lex(s[1..]).tokens;
      if r != [] && r[0].kind == Text {
        NoQuoteNoLiteral(s[1..], i);
      } else if i > 0 {
        NoQuoteNoLiteral(s[1..], i - 1);
      }
    case Unit(kind, n) =>
      if i > 0 { NoQuoteNoLiteral(s[n..], i - 1); }
  }

  /** Two scanned single-quoted runs never touch, so runs touch after rewriting only where a rewritten
      literal stood next to one, or next to another rewritten one; the latter never happens. */
  lemma TouchingComesFromInput(sql: string, i: nat)
    requires !Lex(sql).unterminated
    ensures SingleTouchesSingle(Rewritten(Lex(sql).tokens), i) <==> TouchesSingle(Lex(sql).tokens, i)
  {
    var ts := Lex(sql).tokens;
    if i + 1 < |ts| && (ts[i].kind == Text || ts[i].kind == SingleQuoted || ts[i].kind == DoubleQuoted) {
      NoTwinNeighbours(sql, i);
    }
  }

  /** The rewritten text scans to the end, and to the very same tokens, in the same order, with rewritten
      literals respelled, exactly when no literal to be rewritten touches a single-quoted run. */
  lemma TokensSurvive(sql: string)
    requires !Lex(sql).unterminated
    ensures var ts := Lex(sql).tokens;
            var back := Lex(Normalize(sql).sql);
            && !back.unterminated
            && back.tokens == Fuse(Rewritten(ts))
            && (back.tokens == Rewritten(ts) <==> forall i: nat :: !TouchesSingle(ts, i))
            && ((exists i: nat :: TouchesSingle(ts, i)) ==> |back.tokens| < |ts|)
  {
    var ts := Lex(sql).tokens;
    NormalizeText(sql);
    RewrittenIsRespelled(ts);
    LexRespelled(sql, Rewritten(ts));
    FuseIsIdentityWhen(Rewritten(ts));
    forall i: nat ensures SingleTouchesSingle(Rewritten(ts), i) <==> TouchesSingle(ts, i) {
      TouchingComesFromInput(sql, i);
    }
  }

  /** Same program: when no literal to be rewritten touches a single-quoted run, the text read back has as
      many tokens as before; a double-quoted literal of a SELECT, INSERT, REPLACE, UPDATE or DELETE statement
      comes back as a single-quoted one with the same value, and every other token comes back verbatim. */
  lemma SameProgram(sql: string, i: nat)
    requires !Lex(sql).unterminated && i < |Lex(sql).tokens|
    requires forall k: nat :: !TouchesSingle(Lex(sql).tokens, k)
    ensures var t := Lex(sql).tokens[i];
            var back := Lex(Normalize(sql).sql);
            && !back.unterminated && |back.tokens| == |Lex(sql).tokens|
            && if IsRewritten(Lex(sql).tokens, i)
               then back.tokens[i].kind == SingleQuoted && LiteralValue(back.tokens[i]) == LiteralValue(t)
               else back.tokens[i] == t
  {
    TokensSurvive(sql);
    RespellIsLiteral(Lex(sql).tokens[i]);
  }

  // ---------------------------------------------------------------- idempotence

  /** No double-quoted literal is left in a statement that may be rewritten. */
  predicate Settled(lead: Lead, ts: seq<Token>)
    decreases |ts|
  {
    ts == [] ||
    ((ts[0].kind == DoubleQuoted ==> !Rewritable(lead)) && Settled(LeadAfter(lead, ts[0]), ts[1..]))
  }

  lemma {:induction false} SettledMeansNoRewrite(lead: Lead, ts: seq<Token>, i: nat)
    requires Settled(lead, ts) && i < |ts| && ts[i].kind == DoubleQuoted
    ensures !Rewritable(LeadFrom(lead, ts[..i]))
    decreases i
  {
    if i > 0 {
      SettledMeansNoRewrite(LeadAfter(lead, ts[0]), ts[1..], i - 1);
      assert ts[..i][1..] == ts[1..][..i - 1];
    }
  }

  lemma {:induction false} RewritingSettles(lead: Lead, ts: seq<Token>, us: seq<Token>)
    requires |us| == |ts|
    requires forall i | 0 <= i < |ts| :: us[i] == RewriteToken(LeadFrom(lead, ts[..i]), ts[i])
    ensures Settled(lead, us)
    decreases |ts|
  {
    if ts != [] {
      assert ts[..0] == [];
      assert LeadAfter(lead, us[0]) == LeadAfter(lead, ts[0]);
      forall i | 0 <= i < |ts| - 1
        ensures us[1..][i] == RewriteToken(LeadFrom(LeadAfter(lead, ts[0]), ts[1..][..i]), ts[1..][i])
      {
        assert ts[..i + 1][1..] == ts[1..][..i];
        assert us[i + 1] == RewriteToken(LeadFrom(lead, ts[..i + 1]), ts[i + 1]);
      }
      RewritingSettles(LeadAfter(lead, ts[0]), ts[1..], us[1..]);
    }
  }

  lemma {:induction false} FusingKeepsSettled(lead: Lead, ts: seq<Token>)
    requires Settled(lead, ts)
    ensures Settled(lead, Fuse(ts))
    decreases |ts|
  {
    if ts != [] {
      var next := LeadAfter(lead, ts[0]);
      FusingKeepsSettled(next, ts[1..]);
      var r := Fuse(ts[1..]);
      if ts[0].kind == SingleQuoted && r != [] && r[0].kind == SingleQuoted {
        assert LeadAfter(next, r[0]) == next;
        assert Fuse(ts)[1..] == r[1..];
      } else {
        assert Fuse(ts)[1..] == r;
      }
    }
  }

  /** Normalising twice is normalising once, for every text: also where rewritten runs merge with their
      neighbours, where the text never terminates, and where nothing was rewritten. */
  lemma Idempotent(sql: string)
    ensures Normalize(Normalize(sql).sql).sql == Normalize(sql).sql
  {
    if !Lex(sql).unterminated {
      var ts, out := Lex(sql).tokens, Normalize(sql).sql;
      TokensSurvive(sql);
      RewritingSettles(Pending, ts, Rewritten(ts));
      FusingKeepsSettled(Pending, Rewritten(ts));
      var back := Lex(out).tokens;
      forall i | 0 <= i < |back| ensures back[i].kind == DoubleQuoted ==> !InRewritable(back, i) {
        if back[i].kind == DoubleQuoted { SettledMeansNoRewrite(Pending, back, i); }
      }
      RewritesZero(back);
    }
  }

  // ---------------------------------------------------------------- the touching case

  lemma PlainPiece(c: char, s: string)
    requires IsWordChar(c) || c == ' '
    ensures NextPiece([c] + s) == Char
  {
  }

  lemma LexPlain(c: char, s: string)
    requires NextPiece([c] + s) == Char
    ensures Lex([c] + s) == Scan(AddText([c], Lex(s).tokens), Lex(s).unterminated)
  {
    hide NextPiece, AddText;
    assert ([c] + s)[1..] == s && ([c] + s)[..1] == [c];
  }

  lemma FirstAndRest(t: string, s: string)
    requires t != ""
    ensures [t[0]] + (t[1..] + s) == t + s && [t[0]] + t[1..] == t
  {
  }

  lemma {:induction false} PlainInFront(t: string, s: string)
    requires forall i | 0 <= i < |t| :: IsWordChar(t[i]) || t[i] == ' '
    ensures Lex(t + s) == Scan(AddText(t, Lex(s).tokens), Lex(s).unterminated)
  {
    if t == "" {
      assert t + s == s;
    } else {
      hide Lex, NextPiece, AddText;
      PlainInFront(t[1..], s);
      PlainPiece(t[0], t[1..] + s);
      LexPlain(t[0], t[1..] + s);
      AddTextTwice([t[0]], t[1..], Lex(s).tokens);
      FirstAndRest(t, s);
    }
  }

  lemma SingleRunScan()
    ensures Lex("'b'") == Scan([Token(SingleQuoted, "'b'")], false)
  {
    assert "'b'"[1..] == "b'" && "b'"[1..] == "'" && "'b'"[3..] == "" && "'b'"[..3] == "'b'";
    assert RunLength("'", '\'', true) == 1;
    LexUnit("'b'", SingleQuoted, 3);
  }

  lemma TouchingScan()
    ensures Lex("\"a\"'b'")
            == Scan([Token(DoubleQuoted, "\"a\""), Token(SingleQuoted, "'b'")], false)
  {
    var q := "\"a\"'b'";
    SingleRunScan();
    assert q == "\"" + "a" + "\"" + "'b'";
    assert Closed("a", '"', true) by { assert "a"[1..] == ""; }
    QuotedPiece('"', "a", "'b'");
    assert q[3..] == "'b'" && q[..3] == "\"a\"";
    LexUnit(q, DoubleQuoted, 3);
  }

  /** A lower-case keyword followed by a blank leads its statement. */
  lemma KeywordLeads(word: string)
    requires word != "" && IsWordStart(word[0]) && IsLower(word)
    requires forall i | 0 <= i < |word| :: IsWordChar(word[i])
    ensures LeadAfter(Pending, Token(Text, word + " ")) == Word(word)
  {
    var text := word + " ";
    assert ';' !in text;
    NoSemicolonNoSplit(text);
    WordEndAt(word, " ");
    assert text[..|word|] == word;
    assert FirstWord(text) == word;
    LowerOfLower(word);
  }

  lemma SelectLeads()
    ensures LeadAfter(Pending, Token(Text, "select ")) == Word("select")
  {
    assert "select" + " " == "select ";
    KeywordLeads("select");
  }

  lemma SelectInFront(s: string)
    requires Lex(s).tokens != [] && Lex(s).tokens[0].kind != Text
    ensures Lex("select " + s) == Scan([Token(Text, "select ")] + Lex(s).tokens, Lex(s).unterminated)
  {
    hide Lex;
    assert forall i | 0 <= i < |"select "| :: IsWordChar("select "[i]) || "select "[i] == ' ';
    PlainInFront("select ", s);
  }

  lemma TouchingTokens()
    ensures Lex("select " + "\"a\"'b'")
            == Scan([Token(Text, "select "), Token(DoubleQuoted, "\"a\""), Token(SingleQuoted, "'b'")], false)
  {
    TouchingScan();
    SelectInFront("\"a\"'b'");
  }

  lemma TouchingLosesTokens(sql: string, i: nat)
    requires !Lex(sql).unterminated && TouchesSingle(Lex(sql).tokens, i)
    ensures |Lex(Normalize(sql).sql).tokens| < |Lex(sql).tokens|
  {
    TokensSurvive(sql);
  }

  lemma SelectThenTouching(ts: seq<Token>, lead: Lead)
    requires |ts| == 3 && Rewritable(lead) && LeadAfter(Pending, ts[0]) == lead
    requires ts[1].kind == DoubleQuoted && ts[2].kind == SingleQuoted
    ensures TouchesSingle(ts, 1)
  {
    LeadFromSnoc(Pending, ts, 0);
    assert ts[..0] == [];
    assert LeadFrom(Pending, ts[..1]) == lead;
  }

  /** The exception is real: `select "a"'b'` has three tokens and its rewritten text fewer, because a
      rewritten literal touches a single-quoted one. */
  lemma TouchingRunsMerge()
    ensures exists sql ::
              && !Lex(sql).unterminated && TouchesSingle(Lex(sql).tokens, 1)
              && |Lex(Normalize(sql).sql).tokens| < |Lex(sql).tokens| == 3
  {
    hide Lex, LeadAfter, TouchesSingle, Normalize;
    TouchingTokens();
    SelectLeads();
    var sql := "select " + "\"a\"'b'";
    assert Rewritable(Word("select"));
    SelectThenTouching(Lex(sql).tokens, Word("select"));
    TouchingLosesTokens(sql, 1);
  }
}
