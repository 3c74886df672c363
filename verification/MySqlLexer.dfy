/** Quoted runs, comments and plain text of a MySQL statement (lib/sql-transform/MySQLSqlTransformer.js). */
module MySqlLexer {
  // `Lex` reads a suffix of the statement text at a time, so that a token never depends on what precedes it;
  // the scanning methods are proved against it.

  import opened Texts

  datatype Kind = Text | SingleQuoted | DoubleQuoted | Backtick | LineComment | BlockComment

  datatype Token = Token(kind: Kind, text: string)

  datatype Scan = Scan(tokens: seq<Token>, unterminated: bool)

  /** What the scanner finds at the front of a non-empty text: one plain character, a whole quoted run or
      comment of the given length, or an opening delimiter that is never closed. */
  datatype Piece = Char | Unit(kind: Kind, length: nat) | Unclosed

  // ---------------------------------------------------------------- characters

  predicate IsQuote(c: char) {
    c == '\'' || c == '"' || c == '`'
  }

  function QuoteKind(q: char): Kind
    requires IsQuote(q)
  {
    if q == '\'' then SingleQuoted else if q == '"' then DoubleQuoted else Backtick
  }

  // ---------------------------------------------------------------- pieces

  /** `n` characters further on, unless nothing was found (0). */
  function Further(n: nat, found: nat): nat {
    if found == 0 then 0 else n + found
  }

  /** Length of a quoted run up to and including its closing delimiter, counted from just after the opening
      one; 0 when the run is never closed. */
  function RunLength(s: string, q: char, esc: bool): (n: nat)
    ensures n <= |s|
  {
    if s == "" then 0
    else if esc && s[0] == '\\' then
      if |s| == 1 then 0 else Further(2, RunLength(s[2..], q, esc))
    else if s[0] == q then
      if |s| > 1 && s[1] == q then Further(2, RunLength(s[2..], q, esc)) else 1
    else Further(1, RunLength(s[1..], q, esc))
  }

  /** Index of the first line feed, or the length of `s`. */
  function LineEnd(s: string): (n: nat)
    ensures n <= |s|
    ensures n < |s| ==> s[n] == '\n'
    ensures '\n' !in s[..n]
  {
    if s == "" || s[0] == '\n' then 0 else 1 + LineEnd(s[1..])
  }

  /** Index of the first end-of-comment mark, or the length of `s`. */
  function CommentClose(s: string): (n: nat)
    ensures n <= |s|
    ensures n < |s| ==> n + 2 <= |s| && s[n] == '*' && s[n + 1] == '/'
  {
    if s == "" then 0
    else if |s| > 1 && s[0] == '*' && s[1] == '/' then 0
    else 1 + CommentClose(s[1..])
  }

  /** `--` opens a comment only when whitespace or the end of the text follows. */
  predicate IsDashComment(s: string) {
    |s| >= 2 && s[0] == '-' && s[1] == '-' && (|s| == 2 || IsSpace(s[2]))
  }

  function NextPiece(s: string): (p: Piece)
    requires s != ""
    ensures p.Unit? ==> 0 < p.length <= |s| && p.kind != Text
  {
    if s[0] == '#' || IsDashComment(s) then Unit(LineComment, LineEnd(s))
    else if |s| >= 2 && s[0] == '/' && s[1] == '*' then
      var n := CommentClose(s[2..]);
      if n == |s| - 2 then Unclosed else Unit(BlockComment, n + 4)
    else if IsQuote(s[0]) then
      var n := RunLength(s[1..], s[0], s[0] != '`');
      if n == 0 then Unclosed else Unit(QuoteKind(s[0]), n + 1)
    else Char
  }

  // ---------------------------------------------------------------- tokens

  /** Put plain text in front of a token list; text never stays split over two tokens. */
  function AddText(t: string, ts: seq<Token>): seq<Token> {
    if t == "" then ts
    else if ts != [] && ts[0].kind == Text then [Token(Text, t + ts[0].text)] + ts[1..]
    else [Token(Text, t)] + ts
  }

  /** The token list of a text. */
  function Lex(s: string): Scan {
    if s == "" then Scan([], false)
    else
      match NextPiece(s)
      case Char =>
        var r := Lex(s[1..]);
        Scan(AddText(s[..1], r.tokens), r.unterminated)
      case Unit(kind, n) =>
        var r := Lex(s[n..]);
        Scan([Token(kind, s[..n])] + r.tokens, r.unterminated)
      case Unclosed => Scan([], true)
  }

  function Join(ts: seq<Token>): string {
    if ts == [] then "" else ts[0].text + Join(ts[1..])
  }

  lemma {:induction false} JoinConcat(a: seq<Token>, b: seq<Token>)
    ensures Join(a + b) == Join(a) + Join(b)
  {
    if a == [] {
      assert a + b == b;
    } else {
      assert (a + b)[1..] == a[1..] + b;
      JoinConcat(a[1..], b);
    }
  }

  lemma {:induction false} JoinAddText(t: string, ts: seq<Token>)
    ensures Join(AddText(t, ts)) == t + Join(ts)
  {
    if t != "" && ts != [] && ts[0].kind == Text {
      assert AddText(t, ts)[1..] == ts[1..];
    } else if t != "" {
      assert AddText(t, ts)[1..] == ts;
    } else {
      assert t + Join(ts) == Join(ts);
    }
  }

  /** A quoted token's text between its delimiters. */
  function Raw(t: Token): string {
    if |t.text| < 2 then "" else t.text[1..|t.text| - 1]
  }

  /** Every character of a text that scans to its end lands in exactly one token. */
  lemma {:induction false} LexCoversText(s: string)
    requires !Lex(s).unterminated
    ensures Join(Lex(s).tokens) == s
  {
    if s != "" {
      match NextPiece(s)
      case Char =>
        LexCoversText(s[1..]);
        JoinAddText(s[..1], Lex(s[1..]).tokens);
        assert s == s[..1] + s[1..];
      case Unit(kind, n) =>
        LexCoversText(s[n..]);
        assert Lex(s).tokens[1..] == Lex(s[n..]).tokens;
        assert s == s[..n] + s[n..];
    }
  }

  // ---------------------------------------------------------------- the shape of scanned tokens

  /** `c` can stand between two delimiters `q`: reading it from just after the opening delimiter uses up
      exactly `c` without meeting a closing one. */
  predicate Closed(c: string, q: char, esc: bool) {
    c == "" ||
    (if esc && c[0] == '\\' then |c| >= 2 && Closed(c[2..], q, esc)
     else if c[0] == q then |c| >= 2 && c[1] == q && Closed(c[2..], q, esc)
     else Closed(c[1..], q, esc))
  }

  /** Reading closed content followed by its delimiter stops there, unless the delimiter is doubled by the
      character after it; then reading goes on behind the pair. */
  lemma {:induction false} RunOverClosed(c: string, q: char, esc: bool, t: string)
    requires Closed(c, q, esc) && q != '\\'
    ensures t == "" || t[0] != q ==> RunLength(c + [q] + t, q, esc) == |c| + 1
    ensures t != "" && t[0] == q ==>
              RunLength(c + [q] + t, q, esc) == Further(|c| + 2, RunLength(t[1..], q, esc))
  {
    var s := c + [q] + t;
    if c == "" {
      assert s == [q] + t;
      if t != "" { assert s[2..] == t[1..]; }
    } else {
      var k := if (esc && c[0] == '\\') || c[0] == q then 2 else 1;
      assert s[k..] == c[k..] + [q] + t;
      RunOverClosed(c[k..], q, esc, t);
    }
  }

  /** What a closed run looks like, and that no delimiter follows it. */
  lemma {:induction false} RunIsClosed(s: string, q: char, esc: bool)
    requires q != '\\'
    ensures var n := RunLength(s, q, esc);
            n > 0 ==> s[n - 1] == q && Closed(s[..n - 1], q, esc) && (n < |s| ==> s[n] != q)
  {
    var n := RunLength(s, q, esc);
    if n > 0 && !(s[0] == q && n == 1) {
      var k := if (esc && s[0] == '\\') || s[0] == q then 2 else 1;
      RunIsClosed(s[k..], q, esc);
      assert s[..n - 1][k..] == s[k..][..n - 1 - k];
    }
  }

  lemma {:induction false} LineEndPrefix(t: string, rest: string)
    requires '\n' !in t
    requires rest == "" || rest[0] == '\n'
    ensures LineEnd(t + rest) == |t|
  {
    if t == "" {
      assert t + rest == rest;
    } else {
      assert (t + rest)[1..] == t[1..] + rest;
      LineEndPrefix(t[1..], rest);
    }
  }

  lemma TailOfPrefix(s: string, n: nat, rest: string)
    requires n < |s|
    ensures (s[..n + 1] + rest)[1..] == s[1..][..n] + rest
  {
    assert s[..n + 1][1..] == s[1..][..n];
  }

  /** The first end-of-comment mark depends on nothing behind it. */
  lemma {:induction false} CommentClosePrefix(s: string, rest: string)
    requires CommentClose(s) < |s|
    ensures var n := CommentClose(s);
            CommentClose(s[..n + 2] + rest) == n
  {
    var n := CommentClose(s);
    if n > 0 {
      TailOfPrefix(s, n + 1, rest);
      CommentClosePrefix(s[1..], rest);
    }
  }

  /** The first token of a text tells which character the text starts with. */
  lemma FirstTokenQuote(s: string)
    requires !Lex(s).unterminated && s != ""
    ensures Lex(s).tokens != []
    ensures Lex(s).tokens[0].kind == SingleQuoted <==> s[0] == '\''
    ensures Lex(s).tokens[0].kind == DoubleQuoted <==> s[0] == '"'
    ensures |Lex(s).tokens[0].text| > 0
  {
  }

  /** Behind a quoted run stands something else than a run of the same delimiter. */
  lemma RunEndsApart(s: string)
    requires s != "" && NextPiece(s).Unit? && (NextPiece(s).kind == SingleQuoted || NextPiece(s).kind == DoubleQuoted)
    requires var rest := s[NextPiece(s).length..]; rest != "" && !Lex(rest).unterminated
    ensures var rest := Lex(s[NextPiece(s).length..]).tokens; rest != [] && rest[0].kind != NextPiece(s).kind
  {
    hide Lex, LineEnd, CommentClose, Closed;
    var n := NextPiece(s).length;
    RunIsClosed(s[1..], s[0], true);
    assert s[n..][0] == s[1..][n - 1];
    FirstTokenQuote(s[n..]);
  }

  /** No two runs of the same delimiter, and no two text tokens, are ever neighbours. */
  lemma {:induction false} NoTwinNeighbours(s: string, i: nat)
    requires !Lex(s).unterminated && i + 1 < |Lex(s).tokens|
    requires var kind := Lex(s).tokens[i].kind; kind == Text || kind == SingleQuoted || kind == DoubleQuoted
    ensures Lex(s).tokens[i].kind != Lex(s).tokens[i + 1].kind
  {
    hide NextPiece;
    match NextPiece(s)
    case Char =>
      var r := Lex(s[1..]).tokens;
      if r != [] && r[0].kind == Text {
        NoTwinNeighbours(s[1..], i);
      } else if i > 0 {
        NoTwinNeighbours(s[1..], i - 1);
      }
    case Unit(kind, n) =>
      if i > 0 {
        NoTwinNeighbours(s[n..], i - 1);
      } else {
        assert s[n..] != "";
        RunEndsApart(s);
      }
  }

  // ---------------------------------------------------------------- the scanning loops

  /** One turn of the loop, by position in the whole text. */
  lemma RunStep(sql: string, i: nat, q: char, esc: bool)
    requires i < |sql|
    ensures RunLength(sql[i..], q, esc) ==
            if esc && sql[i] == '\\' then if i + 1 == |sql| then 0 else Further(2, RunLength(sql[i + 2..], q, esc))
            else if sql[i] == q then
              if i + 1 < |sql| && sql[i + 1] == q then Further(2, RunLength(sql[i + 2..], q, esc)) else 1
            else Further(1, RunLength(sql[i + 1..], q, esc))
  {
    assert sql[i..][1..] == sql[i + 1..];
    if i + 2 <= |sql| { assert sql[i..][2..] == sql[i + 2..]; }
  }

  lemma NoRun(q: char, esc: bool)
    ensures RunLength("", q, esc) == 0
  {
  }

  method ScanQuotedRun(sql: string, start: nat, quote: char, allowBackslash: bool) returns (end: int)
    requires start < |sql| && sql[start] == quote
    ensures var n := RunLength(sql[start + 1..], quote, allowBackslash);
            end == if n == 0 then -1 else start + 1 + n
  {
    hide RunLength;
    var idx := start + 1;
    ghost var whole := RunLength(sql[start + 1..], quote, allowBackslash);
    while idx < |sql|
      invariant start + 1 <= idx <= |sql| + 1
      invariant idx <= |sql| ==>
                  whole == Further(idx - start - 1, RunLength(sql[idx..], quote, allowBackslash))
      invariant idx == |sql| + 1 ==> whole == 0
    {
      var ch := sql[idx];
      RunStep(sql, idx, quote, allowBackslash);
      if allowBackslash && ch == '\\' {
        idx := idx + 2;
        continue;
      }
      if ch == quote {
        if idx + 1 < |sql| && sql[idx + 1] == quote {
          idx := idx + 2;
          continue;
        }
        return idx + 1;
      }
      idx := idx + 1;
    }
    NoRun(quote, allowBackslash);
    assert sql[|sql|..] == "";
    return -1;
  }

  /** `indexOf` of a line feed. */
  method FindNewline(sql: string, from: nat) returns (end: nat)
    requires from <= |sql|
    ensures end == from + LineEnd(sql[from..])
  {
    end := from;
    while end < |sql| && sql[end] != '\n'
      invariant from <= end <= |sql|
      invariant from + LineEnd(sql[from..]) == end + LineEnd(sql[end..])
    {
      assert sql[end..][1..] == sql[end + 1..];
      end := end + 1;
    }
  }

  /** `indexOf` of an end-of-comment mark; -1 when there is none. */
  method FindCommentClose(sql: string, from: nat) returns (close: int)
    requires from <= |sql|
    ensures var n := CommentClose(sql[from..]);
            close == if n == |sql| - from then -1 else from + n
  {
    var i := from;
    while i < |sql|
      invariant from <= i <= |sql|
      invariant from + CommentClose(sql[from..]) == i + CommentClose(sql[i..])
    {
      if i + 1 < |sql| && sql[i] == '*' && sql[i + 1] == '/' {
        return i;
      }
      assert sql[i..][1..] == sql[i + 1..];
      i := i + 1;
    }
    return -1;
  }

  /** The tokens found so far, the text not yet flushed, and the scan of what is left. */
  ghost function Resume(tokens: seq<Token>, pending: string, rest: Scan): Scan {
    Scan(tokens + AddText(pending, rest.tokens), rest.unterminated)
  }

  lemma AddTextTwice(a: string, b: string, ts: seq<Token>)
    ensures AddText(a, AddText(b, ts)) == AddText(a + b, ts)
  {
    if a == "" {
      assert a + b == b;
    } else if b == "" {
      assert a + b == a;
    } else if ts != [] && ts[0].kind == Text {
      assert AddText(b, ts)[1..] == ts[1..];
      assert a + (b + ts[0].text) == a + b + ts[0].text;
    } else {
      assert AddText(b, ts)[1..] == ts;
      assert AddText(a + b, ts) == [Token(Text, a + b)] + ts;
    }
  }

  lemma AddTextBefore(a: string, u: Token, ts: seq<Token>)
    requires u.kind != Text
    ensures AddText(a, [u] + ts) == AddText(a, []) + [u] + ts
  {
  }

  lemma ResumeText(tokens: seq<Token>, pending: string, s: string)
    requires s != "" && NextPiece(s) == Char
    ensures Resume(tokens, pending, Lex(s)) == Resume(tokens, pending + s[..1], Lex(s[1..]))
  {
    AddTextTwice(pending, s[..1], Lex(s[1..]).tokens);
  }

  /** flushTextBefore: the pending text becomes a token unless it is empty. */
  function FlushText(tokens: seq<Token>, pending: string): seq<Token> {
    if pending == "" then tokens else tokens + [Token(Text, pending)]
  }

  lemma ResumeUnit(tokens: seq<Token>, pending: string, s: string, n: nat)
    requires s != "" && NextPiece(s).Unit? && NextPiece(s).length == n
    ensures Resume(tokens, pending, Lex(s))
            == Resume(FlushText(tokens, pending) + [Token(NextPiece(s).kind, s[..n])], "", Lex(s[n..]))
  {
    var u, r := Token(NextPiece(s).kind, s[..n]), Lex(s[n..]).tokens;
    AddTextBefore(pending, u, r);
    var text := AddText(pending, []);
    assert tokens + (text + [u] + r) == tokens + text + [u] + r;
    assert FlushText(tokens, pending) == tokens + text;
  }

  lemma ResumeUnclosed(tokens: seq<Token>, pending: string, s: string)
    requires s != "" && NextPiece(s) == Unclosed
    ensures Resume(tokens, pending, Lex(s)) == Scan(FlushText(tokens, pending), true)
  {
  }

  /** Does a comment or a quoted run open at `idx`? */
  predicate AtUnit(sql: string, idx: nat)
    requires idx < |sql|
    ensures AtUnit(sql, idx) <==> NextPiece(sql[idx..]) != Char
  {
    var ch := sql[idx];
    var next := if idx + 1 < |sql| then [sql[idx + 1]] else "";
    ch == '#' || (ch == '-' && next == "-" && (idx + 2 >= |sql| || IsSpace(sql[idx + 2])))
    || (ch == '/' && next == "*") || IsQuote(ch)
  }

  /** What stands at `idx` when it is not plain text, and where it ends (-1 when it never does). */
  method ScanUnit(sql: string, idx: nat) returns (kind: Kind, end: int)
    requires idx < |sql| && NextPiece(sql[idx..]) != Char
    ensures end == -1 || idx < end <= |sql|
    ensures NextPiece(sql[idx..]) == if end == -1 then Unclosed else Unit(kind, end - idx)
  {
    ghost var s := sql[idx..];
    var ch := sql[idx];
    var isDashComment := ch == '-' && idx + 1 < |sql| && sql[idx + 1] == '-'
                         && (idx + 2 >= |sql| || IsSpace(sql[idx + 2]));
    if ch == '#' || isDashComment {
      end := FindNewline(sql, idx);
      return LineComment, end;
    }
    if ch == '/' && idx + 1 < |sql| && sql[idx + 1] == '*' {
      assert s[2..] == sql[idx + 2..];
      var close := FindCommentClose(sql, idx + 2);
      return BlockComment, if close == -1 then -1 else close + 2;
    }
    assert s[1..] == sql[idx + 1..];
    end := ScanQuotedRun(sql, idx, ch, ch != '`');
    return QuoteKind(ch), end;
  }

  /** The whole scan, as seen from inside the loop. */
  ghost function Outcome(sql: string, tokens: seq<Token>, textStart: nat, idx: nat): Scan
    requires textStart <= idx <= |sql|
  {
    Resume(tokens, sql[textStart..idx], Lex(sql[idx..]))
  }

  lemma OutcomeText(sql: string, tokens: seq<Token>, textStart: nat, idx: nat)
    requires textStart <= idx < |sql| && !AtUnit(sql, idx)
    ensures Outcome(sql, tokens, textStart, idx) == Outcome(sql, tokens, textStart, idx + 1)
  {
    hide Lex, Resume;
    ResumeText(tokens, sql[textStart..idx], sql[idx..]);
    assert sql[textStart..idx] + sql[idx..][..1] == sql[textStart..idx + 1];
    assert sql[idx..][1..] == sql[idx + 1..];
  }

  lemma OutcomeUnit(sql: string, tokens: seq<Token>, textStart: nat, idx: nat, kind: Kind, end: nat)
    requires textStart <= idx < end <= |sql|
    requires NextPiece(sql[idx..]) == Unit(kind, end - idx)
    ensures Outcome(sql, tokens, textStart, idx)
            == Outcome(sql, FlushText(tokens, sql[textStart..idx]) + [Token(kind, sql[idx..end])], end, end)
  {
    hide Lex, NextPiece, Resume, FlushText;
    ResumeUnit(tokens, sql[textStart..idx], sql[idx..], end - idx);
    assert sql[idx..][..end - idx] == sql[idx..end] && sql[idx..][end - idx..] == sql[end..];
    assert sql[end..end] == "";
  }

  lemma OutcomeEnd(sql: string, tokens: seq<Token>, textStart: nat)
    requires textStart <= |sql|
    ensures Outcome(sql, tokens, textStart, |sql|) == Scan(FlushText(tokens, sql[textStart..]), false)
  {
    assert sql[|sql|..] == "" && sql[textStart..|sql|] == sql[textStart..];
    assert AddText(sql[textStart..], []) == FlushText([], sql[textStart..]);
    assert tokens + FlushText([], sql[textStart..]) == FlushText(tokens, sql[textStart..]);
  }

  method ScanMySqlSql(sql: string) returns (scan: Scan)
    ensures scan == Lex(sql)
  {
    hide Lex;
    var tokens: seq<Token> := [];
    var idx := 0;
    var textStart := 0;
    assert Outcome(sql, [], 0, 0) == Lex(sql) by { assert sql[0..] == sql && sql[0..0] == ""; }
    while idx < |sql|
      invariant textStart <= idx <= |sql|
      invariant Lex(sql) == Outcome(sql, tokens, textStart, idx)
      decreases |sql| - idx
    {
      if AtUnit(sql, idx) {
        var flushed := FlushText(tokens, sql[textStart..idx]);
        var kind, end := ScanUnit(sql, idx);
        if end == -1 {
          ResumeUnclosed(tokens, sql[textStart..idx], sql[idx..]);
          return Scan(flushed, true);
        }
        OutcomeUnit(sql, tokens, textStart, idx, kind, end);
        tokens := flushed + [Token(kind, sql[idx..end])];
        idx := end;
        textStart := idx;
      } else {
        OutcomeText(sql, tokens, textStart, idx);
        idx := idx + 1;
      }
    }
    OutcomeEnd(sql, tokens, textStart);
    return Scan(FlushText(tokens, sql[textStart..]), false);
  }
}
