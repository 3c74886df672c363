/** Scanning a text whose double-quoted runs were respelled (lib/sql-transform/MySQLSqlTransformer.js). */
module MySqlRespell {
  import opened MySqlLexer

  /** A single-quoted token whose content cannot end it early. */
  predicate IsSingleLiteral(t: Token) {
    t.kind == SingleQuoted && |t.text| >= 2
    && t.text == "'" + Raw(t) + "'" && Closed(Raw(t), '\'', true)
  }

  /** `t` kept as it is, or a double-quoted token given a single-quoted spelling. */
  predicate Respelled(t: Token, u: Token) {
    u == t || (t.kind == DoubleQuoted && IsSingleLiteral(u))
  }

  predicate AllRespelled(ts: seq<Token>, us: seq<Token>) {
    |ts| == |us| && forall i | 0 <= i < |ts| :: Respelled(ts[i], us[i])
  }

  /** Touching single-quoted runs read as one literal: the two delimiters between them are a doubled one. */
  function Fuse(ts: seq<Token>): seq<Token> {
    if ts == [] then [] else
      var r := Fuse(ts[1..]);
      if ts[0].kind == SingleQuoted && r != [] && r[0].kind == SingleQuoted
      then [Token(SingleQuoted, ts[0].text + r[0].text)] + r[1..]
      else [ts[0]] + r
  }

  predicate SingleTouchesSingle(ts: seq<Token>, i: nat) {
    i + 1 < |ts| && ts[i].kind == SingleQuoted && ts[i + 1].kind == SingleQuoted
  }

  lemma {:induction false} FuseKeepsKinds(ts: seq<Token>)
    ensures ts == [] <==> Fuse(ts) == []
    ensures ts != [] ==> Fuse(ts)[0].kind == ts[0].kind
    ensures |Fuse(ts)| <= |ts|
  {
    if ts != [] { FuseKeepsKinds(ts[1..]); }
  }

  /** Fusing leaves a token list alone exactly when no two single-quoted runs touch. */
  lemma {:induction false} FuseIsIdentityWhen(ts: seq<Token>)
    ensures Fuse(ts) == ts <==> forall i: nat :: !SingleTouchesSingle(ts, i)
    ensures Fuse(ts) != ts ==> |Fuse(ts)| < |ts|
  {
    if ts != [] {
      FuseIsIdentityWhen(ts[1..]);
      FuseKeepsKinds(ts[1..]);
      assert forall i: nat :: SingleTouchesSingle(ts[1..], i) ==> SingleTouchesSingle(ts, i + 1);
      if Fuse(ts) == ts {
        assert Fuse(ts)[1..] == ts[1..];
        forall i: nat ensures !SingleTouchesSingle(ts, i) {
          if i > 0 { assert !SingleTouchesSingle(ts[1..], i - 1); }
        }
      } else if Fuse(ts[1..]) == ts[1..] {
        assert SingleTouchesSingle(ts, 0);
      } else {
        var i: nat :| SingleTouchesSingle(ts[1..], i);
        assert SingleTouchesSingle(ts, i + 1);
      }
    }
  }

  // ---------------------------------------------------------------- lookahead

  predicate SameHead(a: char, b: char) {
    a == b || (a == '"' && b == '\'')
  }

  /** The two characters the scanner may peek at look the same from outside a quoted run. */
  predicate Lookalike(s: string, j: string) {
    && (s == "" <==> j == "")
    && (s != "" ==> SameHead(s[0], j[0]))
    && (s != "" && !IsQuote(s[0]) ==>
          (|s| == 1 <==> |j| == 1) && (|s| > 1 ==> SameHead(s[1], j[1])))
  }

  lemma CharStaysChar(c: char, s: string, j: string)
    requires NextPiece([c] + s) == Char && Lookalike(s, j)
    ensures NextPiece([c] + j) == Char
  {
    if s != "" { assert ([c] + s)[1] == s[0] && ([c] + j)[1] == j[0]; }
    if |s| > 1 && s[0] == '-' { assert ([c] + s)[2] == s[1] && ([c] + j)[2] == j[1]; }
  }

  lemma CommentStaysComment(s: string, n: nat, j: string)
    requires s != "" && NextPiece(s).Unit? && NextPiece(s).length == n
    requires NextPiece(s).kind == LineComment || NextPiece(s).kind == BlockComment
    requires Lookalike(s[n..], j)
    ensures NextPiece(s[..n] + j) == NextPiece(s)
  {
    var t := s[..n] + j;
    assert t[0] == s[0];
    if NextPiece(s).kind == LineComment {
      LineEndPrefix(s[..n], j);
      if s[0] == '-' && n > 2 { assert t[2] == s[2]; }
    } else {
      CommentClosePrefix(s[2..], j);
      assert t[2..] == s[2..][..n - 2] + j;
    }
  }

  lemma PieceAtQuote(s: string)
    requires s != "" && IsQuote(s[0])
    ensures var n := RunLength(s[1..], s[0], s[0] != '`');
            NextPiece(s) == if n == 0 then Unclosed else Unit(QuoteKind(s[0]), n + 1)
  {
  }

  lemma PieceOfRun(q: char, run: string)
    requires IsQuote(q)
    ensures var n := RunLength(run, q, q != '`');
            NextPiece([q] + run) == if n == 0 then Unclosed else Unit(QuoteKind(q), n + 1)
  {
    PieceAtQuote([q] + run);
    assert ([q] + run)[1..] == run;
  }

  lemma QuotedPiece(q: char, c: string, t: string)
    requires IsQuote(q) && Closed(c, q, q != '`')
    ensures t == "" || t[0] != q ==> NextPiece([q] + c + [q] + t) == Unit(QuoteKind(q), |c| + 2)
    ensures t != "" && t[0] == q && RunLength(t[1..], q, q != '`') > 0 ==>
              NextPiece([q] + c + [q] + t)
              == Unit(QuoteKind(q), |c| + 3 + RunLength(t[1..], q, q != '`'))
  {
    hide NextPiece, RunLength, Closed;
    RunOverClosed(c, q, q != '`', t);
    PieceOfRun(q, c + [q] + t);
    assert [q] + c + [q] + t == [q] + (c + [q] + t);
  }

  lemma LexUnit(s: string, kind: Kind, n: nat)
    requires s != "" && NextPiece(s) == Unit(kind, n)
    ensures Lex(s) == Scan([Token(kind, s[..n])] + Lex(s[n..]).tokens, Lex(s[n..]).unterminated)
  {
  }

  /** A single-quoted literal put in front of a text that scans to the end. */
  lemma LexAfterSingle(u: Token, j: string)
    requires IsSingleLiteral(u) && !Lex(j).unterminated
    requires Fuse(Lex(j).tokens) == Lex(j).tokens
    ensures Lex(u.text + j) == Scan(Fuse([u] + Lex(j).tokens), false)
  {
    var s, r := u.text + j, Lex(j).tokens;
    var c := Raw(u);
    assert s == ['\''] + c + ['\''] + j;
    assert ([u] + r)[1..] == r;
    if j != "" && j[0] == '\'' {
      FuseWithNext(u, j, c);
    } else {
      if j != "" { FirstTokenQuote(j); }
      QuotedPiece('\'', c, j);
      LexUnit(s, SingleQuoted, |u.text|);
      assert s[|u.text|..] == j && s[..|u.text|] == u.text;
    }
  }

  lemma SplitBehind(a: string, b: string, n: nat)
    requires n <= |b|
    ensures (a + b)[..|a| + n] == a + b[..n] && (a + b)[|a| + n..] == b[n..]
  {
  }

  lemma UnclosedIsUnterminated(s: string)
    requires s != ""
    ensures NextPiece(s) == Unclosed ==> Lex(s).unterminated
  {
    hide NextPiece;
  }

  lemma SingleAhead(j: string)
    requires !Lex(j).unterminated && j != "" && j[0] == '\''
    ensures var n := RunLength(j[1..], '\'', true);
            && n > 0 && !Lex(j[n + 1..]).unterminated
            && Lex(j) == Scan([Token(SingleQuoted, j[..n + 1])] + Lex(j[n + 1..]).tokens, false)
  {
    hide RunLength, NextPiece, Lex;
    PieceAtQuote(j);
    UnclosedIsUnterminated(j);
    LexUnit(j, SingleQuoted, RunLength(j[1..], '\'', true) + 1);
  }

  lemma FusedPiece(u: Token, j: string, c: string, n: nat)
    requires IsSingleLiteral(u) && c == Raw(u) && j != "" && j[0] == '\''
    requires n == RunLength(j[1..], '\'', true) > 0
    ensures NextPiece(u.text + j) == Unit(SingleQuoted, |u.text| + n + 1)
  {
    assert u.text + j == ['\''] + c + ['\''] + j;
    QuotedPiece('\'', c, j);
  }

  lemma FuseWithNext(u: Token, j: string, c: string)
    requires IsSingleLiteral(u) && c == Raw(u) && !Lex(j).unterminated && j != "" && j[0] == '\''
    ensures var r := Lex(j).tokens;
            r != [] && r[0].kind == SingleQuoted
            && Lex(u.text + j) == Scan([Token(SingleQuoted, u.text + r[0].text)] + r[1..], false)
  {
    hide NextPiece, RunLength, Lex, Closed;
    var n := RunLength(j[1..], '\'', true);
    SingleAhead(j);
    var first, rest := Token(SingleQuoted, j[..n + 1]), Lex(j[n + 1..]);
    assert Lex(j).tokens == [first] + rest.tokens && ([first] + rest.tokens)[1..] == rest.tokens;
    FusedPiece(u, j, c, n);
    SplitBehind(u.text, j, n + 1);
    LexUnit(u.text + j, SingleQuoted, |u.text| + n + 1);
  }

  /** Any other quoted run of a scanned text is read back the same in front of a lookalike rest. */
  lemma QuotedUnit(s: string, c: string)
    requires s != "" && NextPiece(s).Unit? && (NextPiece(s).kind == DoubleQuoted || NextPiece(s).kind == Backtick)
    requires NextPiece(s).length >= 2 && c == s[1..NextPiece(s).length - 1]
    ensures IsQuote(s[0]) && Closed(c, s[0], s[0] != '`') && QuoteKind(s[0]) == NextPiece(s).kind
    ensures s[..NextPiece(s).length] == [s[0]] + c + [s[0]]
  {
    var n, q := NextPiece(s).length, s[0];
    RunIsClosed(s[1..], q, q != '`');
    assert s[1..][..n - 2] == c;
  }

  lemma LexAfterQuoted(s: string, j: string)
    requires s != "" && NextPiece(s).Unit? && (NextPiece(s).kind == DoubleQuoted || NextPiece(s).kind == Backtick)
    requires Lookalike(s[NextPiece(s).length..], j) && !Lex(j).unterminated
    ensures var n := NextPiece(s).length;
            Lex(s[..n] + j) == Scan([Token(NextPiece(s).kind, s[..n])] + Lex(j).tokens, false)
  {
    var n, q := NextPiece(s).length, s[0];
    RunIsClosed(s[1..], q, q != '`');
    var c := s[1..n - 1];
    QuotedUnit(s, c);
    QuotedPiece(q, c, j);
    assert (s[..n] + j)[n..] == j && (s[..n] + j)[..n] == s[..n];
    LexUnit(s[..n] + j, NextPiece(s).kind, n);
  }

  // ---------------------------------------------------------------- the whole text

  lemma {:induction false} FuseTwice(ts: seq<Token>)
    ensures Fuse(Fuse(ts)) == Fuse(ts)
  {
    if ts != [] {
      FuseTwice(ts[1..]);
      var r := Fuse(ts[1..]);
      if r != [] {
        FuseIsIdentityWhen(r);
        forall i: nat ensures !SingleTouchesSingle(Fuse(ts), i) {
          assert !SingleTouchesSingle(r, i);
          if i > 0 { assert !SingleTouchesSingle(r, i - 1); }
        }
      }
      FuseIsIdentityWhen(Fuse(ts));
    }
  }

  lemma FuseFront(u: Token, ts: seq<Token>)
    ensures Fuse([u] + Fuse(ts)) == Fuse([u] + ts)
  {
    FuseTwice(ts);
    assert ([u] + ts)[1..] == ts && ([u] + Fuse(ts))[1..] == Fuse(ts);
  }

  lemma FuseAddText(t: string, ts: seq<Token>)
    ensures Fuse(AddText(t, ts)) == AddText(t, Fuse(ts))
  {
    FuseKeepsKinds(ts);
    if t != "" {
      var rest := if ts != [] && ts[0].kind == Text then ts[1..] else ts;
      assert AddText(t, ts)[1..] == rest;
    }
  }

  /** A closed single-quoted run of a scanned text is a literal in the above sense. */
  lemma ScannedSingleIsLiteral(s: string)
    requires s != "" && NextPiece(s).Unit? && NextPiece(s).kind == SingleQuoted
    ensures IsSingleLiteral(Token(SingleQuoted, s[..NextPiece(s).length]))
  {
    var n := NextPiece(s).length;
    RunIsClosed(s[1..], '\'', true);
    assert s[..n][1..n - 1] == s[1..][..n - 2];
    assert s[..n] == "'" + s[1..][..n - 2] + "'";
  }

  lemma LookalikeUnit(s: string, n: nat, u: Token, j: string)
    requires s != "" && NextPiece(s).Unit? && NextPiece(s).length == n
    requires Respelled(Token(NextPiece(s).kind, s[..n]), u) && Lookalike(s[n..], j)
    ensures Lookalike(s, u.text + j)
  {
    if !IsQuote(s[0]) {
      assert u.text == s[..n];
      if n == 1 && |s| > 1 { assert s[1] == s[1..][0] && (u.text + j)[1] == j[0]; }
    }
  }

  /** Read back after respelling, a text that scanned to the end gives the respelled tokens, except that
      touching single-quoted runs come back as one. */
  lemma {:induction false} LexRespelled(s: string, us: seq<Token>)
    requires !Lex(s).unterminated && AllRespelled(Lex(s).tokens, us)
    ensures Lex(Join(us)) == Scan(Fuse(us), false)
    ensures Lookalike(s, Join(us))
    decreases |s|
  {
    if s != "" {
      match NextPiece(s)
      case Char => LexRespelledChar(s, us);
      case Unit(kind, n) => LexRespelledUnit(s, us);
    }
  }

  lemma LookalikeChar(c: char, s: string, j: string)
    requires Lookalike(s, j)
    ensures Lookalike([c] + s, [c] + j)
  {
    if s != "" { assert ([c] + s)[1] == s[0] && ([c] + j)[1] == j[0]; }
  }

  lemma LexCharThen(c: string, j: string)
    requires |c| == 1 && NextPiece(c + j) == Char
    ensures Lex(c + j) == Scan(AddText(c, Lex(j).tokens), Lex(j).unterminated)
  {
    hide NextPiece, AddText;
    assert (c + j)[1..] == j && (c + j)[..1] == c;
  }

  /** The respelling of plain text and what follows it respells what follows. */
  lemma RespelledTail(c: string, r: seq<Token>, us: seq<Token>) returns (vs: seq<Token>)
    requires c != "" && AllRespelled(AddText(c, r), us)
    ensures us == AddText(c, vs) && AllRespelled(r, vs)
  {
    hide Respelled, IsSingleLiteral;
    if r != [] && r[0].kind == Text {
      RespelledText(Token(Text, c + r[0].text), us[0]);
      RespelledText(r[0], r[0]);
      vs := [r[0]] + us[1..];
      assert us == [us[0]] + us[1..];
      assert forall i | 0 < i < |r| :: AddText(c, r)[i] == r[i];
    } else {
      RespelledText(Token(Text, c), us[0]);
      vs := us[1..];
      assert us == [us[0]] + vs;
      assert forall i | 0 <= i < |r| :: AddText(c, r)[i + 1] == r[i];
      if vs != [] { RespelledKind(r[0], vs[0]); }
    }
  }

  lemma RespelledText(t: Token, u: Token)
    requires t.kind == Text
    ensures Respelled(t, u) <==> u == t
  {
  }

  lemma RespelledKind(t: Token, u: Token)
    requires Respelled(t, u) && t.kind != Text
    ensures u.kind != Text
  {
  }

  lemma {:induction false} LexRespelledChar(s: string, us: seq<Token>)
    requires s != "" && NextPiece(s) == Char
    requires !Lex(s).unterminated && AllRespelled(Lex(s).tokens, us)
    ensures Lex(Join(us)) == Scan(Fuse(us), false)
    ensures Lookalike(s, Join(us))
    decreases |s|, 0
  {
    var c, rest := s[..1], s[1..];
    assert c + rest == s && [s[0]] == c;
    LexCharThen(c, rest);
    hide Lex, Fuse, NextPiece, Lookalike, AllRespelled, AddText, Join;
    var vs := RespelledTail(c, Lex(rest).tokens, us);
    LexRespelled(rest, vs);
    JoinAddText(c, vs);
    var j := Join(vs);
    LookalikeChar(s[0], rest, j);
    CharStaysChar(s[0], rest, j);
    LexCharThen(c, j);
    FuseAddText(c, vs);
  }

  lemma {:induction false} LexRespelledUnit(s: string, us: seq<Token>)
    requires s != "" && NextPiece(s).Unit?
    requires !Lex(s).unterminated && AllRespelled(Lex(s).tokens, us)
    ensures Lex(Join(us)) == Scan(Fuse(us), false)
    ensures Lookalike(s, Join(us))
    decreases |s|, 0
  {
    var Unit(kind, n) := NextPiece(s);
    var u, vs := us[0], us[1..];
    assert Lex(s).tokens[1..] == Lex(s[n..]).tokens;
    LexRespelled(s[n..], vs);
    var j := Join(vs);
    assert us == [u] + vs;
    LookalikeUnit(s, n, u, j);
    if u.kind == SingleQuoted {
      if kind == SingleQuoted { ScannedSingleIsLiteral(s); }
      FuseTwice(vs);
      FuseFront(u, vs);
      LexAfterSingle(u, j);
    } else if kind == DoubleQuoted || kind == Backtick {
      LexAfterQuoted(s, j);
    } else {
      CommentStaysComment(s, n, j);
      LexUnit(s[..n] + j, kind, n);
      assert (s[..n] + j)[..n] == s[..n] && (s[..n] + j)[n..] == j;
    }
  }
}
