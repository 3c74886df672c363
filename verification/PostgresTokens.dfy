/** Code, strings, comments and backtick identifiers (lib/sql-transform/PostgresSqlTransformer.js). */
module PostgresTokens {
  // The segments the PostgreSQL scanner splits a statement into. Unlike the MySQL scanner it never refuses a
  // text: whatever is left open runs to the end.

  import opened Texts
  import opened MySqlLexer

  datatype Segment = Code(text: string) | Quoted(text: string) | Comment(text: string) | Name(content: string)

  predicate OpensComment(s: string) {
    |s| >= 2 && (s[..2] == "--" || s[..2] == "/*")
  }

  /** Something other than plain code starts here. */
  predicate IsSpecial(s: string) {
    s != "" && (IsQuote(s[0]) || OpensComment(s))
  }

  /** Length of a comment, its end mark included when there is one. */
  function CommentLength(s: string): (n: nat)
    requires OpensComment(s)
    ensures 2 <= n <= |s|
  {
    if s[0] == '-' then
      if LineEnd(s[2..]) == |s| - 2 then |s| else LineEnd(s[2..]) + 3
    else
      if CommentClose(s[2..]) == |s| - 2 then |s| else CommentClose(s[2..]) + 4
  }

  /** Length of what follows an opening quote, up to and including the closing one when there is one. */
  function StringLength(s: string, q: char): (n: nat)
    ensures n <= |s|
  {
    if s == "" then 0
    else if s[0] == '\\' then if |s| == 1 then 1 else 2 + StringLength(s[2..], q)
    else if s[0] == q then if |s| > 1 && s[1] == q then 2 + StringLength(s[2..], q) else 1
    else 1 + StringLength(s[1..], q)
  }

  function CodeLength(s: string): (n: nat)
    ensures n <= |s|
    ensures n > 0 <==> s != "" && !IsSpecial(s)
  {
    if s == "" || IsSpecial(s) then 0 else 1 + CodeLength(s[1..])
  }

  /** The first segment and how much of the text it takes. */
  function FirstSegment(s: string): (r: (Segment, nat))
    requires s != ""
    ensures 0 < r.1 <= |s|
  {
    if OpensComment(s) then (Comment(s[..CommentLength(s)]), CommentLength(s))
    else if s[0] == '`' then
      var n := IndexOf(s[1..], '`');
      (Name(s[1..n + 1]), if n + 2 <= |s| then n + 2 else |s|)
    else if IsQuote(s[0]) then
      var n := 1 + StringLength(s[1..], s[0]);
      (Quoted(s[..n]), n)
    else (Code(s[..CodeLength(s)]), CodeLength(s))
  }

  function Tokenize(s: string): seq<Segment> {
    if s == "" then [] else [FirstSegment(s).0] + Tokenize(s[FirstSegment(s).1..])
  }

  // ---------------------------------------------------------------- the loops

  method ScanString(sql: string, idx: nat) returns (end: nat)
    requires idx < |sql|
    ensures (if end <= |sql| then end else |sql|) == idx + 1 + StringLength(sql[idx + 1..], sql[idx])
  {
    var ch := sql[idx];
    end := idx + 1;
    ghost var total := StringLength(sql[idx + 1..], ch);
    while end < |sql|
      invariant idx < end <= |sql| + 1
      invariant end <= |sql| ==> total == end - idx - 1 + StringLength(sql[end..], ch)
      invariant end == |sql| + 1 ==> total == |sql| - idx - 1
      decreases |sql| - end
    {
      var q := sql[end];
      ghost var rest := sql[end..];
      assert rest[1..] == sql[end + 1..];
      assert |rest| > 1 ==> rest[2..] == sql[end + 2..];
      if q == '\\' {
        end := end + 2;
        continue;
      }
      if q == ch {
        if end + 1 < |sql| && sql[end + 1] == ch {
          end := end + 2;
          continue;
        }
        end := end + 1;
        break;
      }
      end := end + 1;
    }
  }

  method ScanBacktick(sql: string, idx: nat) returns (end: nat)
    requires idx < |sql|
    ensures end == idx + 1 + IndexOf(sql[idx + 1..], '`')
  {
    end := idx + 1;
    while end < |sql| && sql[end] != '`'
      invariant idx < end <= |sql|
      invariant IndexOf(sql[idx + 1..], '`') == end - idx - 1 + IndexOf(sql[end..], '`')
    {
      assert sql[end..][1..] == sql[end + 1..];
      end := end + 1;
    }
  }

  method ScanCode(sql: string, idx: nat) returns (end: nat)
    requires idx < |sql| && !IsSpecial(sql[idx..])
    ensures end == idx + CodeLength(sql[idx..])
  {
    end := idx + 1;
    assert sql[idx..][1..] == sql[end..];
    while end < |sql|
      invariant idx < end <= |sql|
      invariant CodeLength(sql[idx..]) == end - idx + CodeLength(sql[end..])
    {
      var c := sql[end];
      ghost var rest := sql[end..];
      assert rest[0] == c && rest[1..] == sql[end + 1..];
      assert |rest| > 1 ==> rest[..2] == [c, sql[end + 1]];
      if c == '\'' || c == '"' || c == '`'
         || (end + 1 < |sql| && ((c == '-' && sql[end + 1] == '-') || (c == '/' && sql[end + 1] == '*'))) {
        break;
      }
      end := end + 1;
    }
  }

  /** `tokenizeSql`. */
  method TokenizeSql(sql: string) returns (tokens: seq<Segment>)
    ensures tokens == Tokenize(sql)
  {
    hide FirstSegment;
    tokens := [];
    var idx := 0;
    while idx < |sql|
      invariant idx <= |sql|
      invariant tokens + Tokenize(sql[idx..]) == Tokenize(sql)
      decreases |sql| - idx
    {
      ghost var rest := sql[idx..];
      ghost var done := tokens;
      var token, next := ReadSegment(sql, idx);
      tokens := tokens + [token];
      assert rest[FirstSegment(rest).1..] == sql[next..];
      assert done + ([token] + Tokenize(sql[next..])) == tokens + Tokenize(sql[next..]);
      idx := next;
    }
  }

  lemma SliceOfRest(sql: string, idx: nat, from: nat, to: nat)
    requires from <= to && idx + to <= |sql|
    ensures sql[idx..][from..to] == sql[idx + from..idx + to]
    ensures sql[idx..][..to] == sql[idx..idx + to]
  {
  }

  /** What opens a comment, by position in the whole text. */
  lemma CommentAhead(sql: string, idx: nat)
    requires idx < |sql|
    ensures OpensComment(sql[idx..])
            <==> idx + 1 < |sql| && (sql[idx..idx + 2] == "--" || sql[idx..idx + 2] == "/*")
  {
    if idx + 1 < |sql| { SliceOfRest(sql, idx, 0, 2); }
  }

  lemma CommentIsFirst(sql: string, idx: nat)
    requires idx < |sql| && OpensComment(sql[idx..])
    ensures var n := CommentLength(sql[idx..]); FirstSegment(sql[idx..]) == (Comment(sql[idx..idx + n]), n)
  {
    hide CommentLength, OpensComment;
    SliceOfRest(sql, idx, 0, CommentLength(sql[idx..]));
  }

  lemma NameIsFirst(sql: string, idx: nat)
    requires idx < |sql| && !OpensComment(sql[idx..]) && sql[idx] == '`'
    ensures var n := IndexOf(sql[idx + 1..], '`');
            FirstSegment(sql[idx..])
            == (Name(sql[idx + 1..idx + n + 1]), if idx + n + 2 <= |sql| then n + 2 else |sql| - idx)
  {
    hide OpensComment, IndexOf;
    assert sql[idx..][1..] == sql[idx + 1..];
    SliceOfRest(sql, idx, 1, IndexOf(sql[idx + 1..], '`') + 1);
  }

  lemma QuotedIsFirst(sql: string, idx: nat)
    requires idx < |sql| && !OpensComment(sql[idx..]) && (sql[idx] == '\'' || sql[idx] == '"')
    ensures var n := 1 + StringLength(sql[idx + 1..], sql[idx]);
            FirstSegment(sql[idx..]) == (Quoted(sql[idx..idx + n]), n)
  {
    hide OpensComment, StringLength;
    assert sql[idx..][1..] == sql[idx + 1..];
    SliceOfRest(sql, idx, 0, 1 + StringLength(sql[idx + 1..], sql[idx]));
  }

  lemma CodeIsFirst(sql: string, idx: nat)
    requires idx < |sql| && !IsSpecial(sql[idx..])
    ensures var n := CodeLength(sql[idx..]); FirstSegment(sql[idx..]) == (Code(sql[idx..idx + n]), n)
  {
    hide CodeLength;
    SliceOfRest(sql, idx, 0, CodeLength(sql[idx..]));
  }

  /** One turn of the loop: the token pushed and the index set. */
  method ReadSegment(sql: string, idx: nat) returns (token: Segment, next: nat)
    requires idx < |sql|
    ensures (token, next - idx) == FirstSegment(sql[idx..])
    ensures idx < next <= |sql|
  {
    hide CommentLength, StringLength, CodeLength, IndexOf, FirstSegment, OpensComment;
    CommentAhead(sql, idx);
    if idx + 1 < |sql| && (sql[idx..idx + 2] == "--" || sql[idx..idx + 2] == "/*") {
      CommentIsFirst(sql, idx);
      next := idx + CommentLength(sql[idx..]);
      return Comment(sql[idx..next]), next;
    }
    if sql[idx] == '`' {
      var end := ScanBacktick(sql, idx);
      NameIsFirst(sql, idx);
      return Name(sql[idx + 1..end]), if end + 1 <= |sql| then end + 1 else |sql|;
    }
    if sql[idx] == '\'' || sql[idx] == '"' {
      var end := ScanString(sql, idx);
      QuotedIsFirst(sql, idx);
      next := if end <= |sql| then end else |sql|;
      return Quoted(sql[idx..next]), next;
    }
    next := ScanCode(sql, idx);
    CodeIsFirst(sql, idx);
    token := Code(sql[idx..next]);
  }

  // ---------------------------------------------------------------- nothing is lost

  function Source(t: Segment): string {
    match t
    case Name(content) => "`" + content + "`"
    case _ => t.text
  }

  function JoinSource(ts: seq<Segment>): string {
    if ts == [] then "" else Source(ts[0]) + JoinSource(ts[1..])
  }

  predicate EndsInName(ts: seq<Segment>) {
    ts != [] && ts[|ts| - 1].Name?
  }

  lemma SplitAt(s: string, n: nat, tail: string)
    requires n <= |s|
    ensures s[..n] + (s[n..] + tail) == s + tail
  {
  }

  /** The segments make up the text; only a backtick left open at the very end is supplied. */
  lemma {:induction false} SegmentsCoverText(s: string)
    ensures JoinSource(Tokenize(s)) == s
            || (EndsInName(Tokenize(s)) && JoinSource(Tokenize(s)) == s + "`")
  {
    if s != "" {
      var (token, n) := FirstSegment(s);
      FirstCovers(s);
      CoverStep(s, token, n, Tokenize(s[n..]));
      SegmentsCoverText(s[n..]);
    }
  }

  lemma CoverStep(s: string, token: Segment, n: nat, rest: seq<Segment>)
    requires n <= |s|
    requires Source(token) == s[..n] || (token.Name? && n == |s| && Source(token) == s + "`")
    ensures n == |s| && Source(token) == s + "`" && rest == [] ==> JoinSource([token] + rest) == s + "`"
    ensures JoinSource(rest) == s[n..] && Source(token) == s[..n] ==> JoinSource([token] + rest) == s
    ensures JoinSource(rest) == s[n..] + "`" && Source(token) == s[..n] ==> JoinSource([token] + rest) == s + "`"
  {
    assert ([token] + rest)[1..] == rest;
    SplitAt(s, n, "`");
    assert s[..n] + s[n..] == s;
    assert Source(token) + "" == Source(token);
  }

  lemma FirstCovers(s: string)
    requires s != ""
    ensures var (token, n) := FirstSegment(s);
            Source(token) == s[..n] || (token.Name? && n == |s| && Source(token) == s + "`")
  {
    if !OpensComment(s) && s[0] == '`' {
      var n := IndexOf(s[1..], '`');
      if n + 2 <= |s| {
        assert s[..n + 2] == ['`'] + s[1..n + 1] + [s[n + 1]];
      } else {
        assert s == ['`'] + s[1..n + 1];
      }
    }
  }

  /** No quote and no comment starts inside a code segment. */
  predicate IsPlain(t: Segment) {
    t.Code? ==> t.text != "" && forall i | 0 <= i < |t.text| :: !IsSpecial(t.text[i..])
  }

  lemma PrefixIsPlain(s: string, n: nat)
    requires 0 < n <= |s| && !IsSpecial(s)
    ensures !IsSpecial(s[..n])
  {
    if n >= 2 { assert s[..n][..2] == s[..2]; }
  }

  lemma {:induction false} CodeLengthIsPlain(s: string)
    ensures forall i | 0 <= i < CodeLength(s) :: !IsSpecial(s[..CodeLength(s)][i..])
  {
    var n := CodeLength(s);
    if n > 0 {
      hide IsSpecial;
      CodeLengthIsPlain(s[1..]);
      assert CodeLength(s[1..]) == n - 1;
      var code, rest := s[..n], s[1..][..n - 1];
      assert code[1..] == rest;
      PrefixIsPlain(s, n);
      forall i | 0 <= i < n ensures !IsSpecial(code[i..]) {
        if i == 0 {
          assert code[i..] == code;
        } else {
          assert code[i..] == rest[i - 1..];
          assert !IsSpecial(rest[i - 1..]);
        }
      }
    }
  }

  lemma {:induction false} CodeIsPlain(s: string)
    ensures forall i | 0 <= i < |Tokenize(s)| :: IsPlain(Tokenize(s)[i])
  {
    if s != "" {
      CodeLengthIsPlain(s);
      CodeIsPlain(s[FirstSegment(s).1..]);
    }
  }

  // ---------------------------------------------------------------- where a segment ends

  /** Text in which no quote and no comment starts, whatever stands around it. */
  predicate IsInert(s: string) {
    forall i | 0 <= i < |s| :: s[i] != '\'' && s[i] != '"' && s[i] != '`' && s[i] != '-' && s[i] != '/'
  }

  lemma FirstOf(s: string, t: Segment, front: string, rest: string)
    requires s == front + rest && front != "" && FirstSegment(s) == (t, |front|)
    ensures Tokenize(s) == [t] + Tokenize(rest)
  {
    assert s[|front|..] == rest;
  }

  lemma OpensWith(a: char, b: char, rest: string)
    ensures ([a, b] + rest)[..2] == [a, b] && ([a, b] + rest)[2..] == rest
  {
  }

  lemma {:induction false} LineEndIs(c: string, rest: string)
    requires '\n' !in c && (rest == "" || rest[0] == '\n')
    ensures LineEnd(c + rest) == |c|
  {
    if c == "" {
      assert c + rest == rest;
    } else {
      assert (c + rest)[1..] == c[1..] + rest;
      LineEndIs(c[1..], rest);
    }
  }

  /** A line comment ends behind the first line feed, or with the text. */
  lemma LineCommentEnds(c: string, rest: string)
    requires '\n' !in c
    ensures Tokenize("--" + c + "\n" + rest) == [Comment("--" + c + "\n")] + Tokenize(rest)
    ensures Tokenize("--" + c) == [Comment("--" + c)]
  {
    hide LineEnd, Tokenize;
    var s, front := "--" + c + "\n" + rest, "--" + c + "\n";
    assert s == ['-', '-'] + (c + ("\n" + rest)) && "--" + c == ['-', '-'] + c;
    OpensWith('-', '-', c + ("\n" + rest));
    OpensWith('-', '-', c);
    LineEndIs(c, "\n" + rest);
    LineEndIs(c, "");
    assert c + "" == c;
    assert s[..|front|] == front && ("--" + c)[..|c| + 2] == "--" + c;
    FirstOf(s, Comment(front), front, rest);
    assert ("--" + c) + "" == "--" + c;
    FirstOf("--" + c, Comment("--" + c), "--" + c, "");
    NothingIsTokenized();
  }

  lemma NothingIsTokenized()
    ensures Tokenize("") == []
  {
  }

  /** No end-of-comment mark stands in the text. */
  predicate NoCommentClose(c: string) {
    forall i | 0 <= i < |c| - 1 :: !(c[i] == '*' && c[i + 1] == '/')
  }

  lemma NoCommentCloseTail(c: string)
    requires c != "" && NoCommentClose(c)
    ensures NoCommentClose(c[1..])
  {
    forall i | 0 <= i < |c[1..]| - 1 ensures !(c[1..][i] == '*' && c[1..][i + 1] == '/') {
      assert c[1..][i] == c[i + 1] && c[1..][i + 1] == c[i + 2];
    }
  }

  lemma {:induction false} CommentCloseIs(c: string, rest: string)
    requires NoCommentClose(c)
    ensures CommentClose(c + "*/" + rest) == |c|
    ensures CommentClose(c) == |c|
  {
    if c == "" {
      assert c + "*/" + rest == "*/" + rest;
    } else {
      assert (c + "*/" + rest)[1..] == c[1..] + "*/" + rest;
      NoCommentCloseTail(c);
      CommentCloseIs(c[1..], rest);
    }
  }

  /** A block comment ends behind the first end mark, or with the text. */
  lemma BlockCommentEnds(c: string, rest: string)
    requires NoCommentClose(c)
    ensures Tokenize("/*" + c + "*/" + rest) == [Comment("/*" + c + "*/")] + Tokenize(rest)
    ensures Tokenize("/*" + c) == [Comment("/*" + c)]
  {
    hide CommentClose, Tokenize;
    var s, front := "/*" + c + "*/" + rest, "/*" + c + "*/";
    assert s == ['/', '*'] + (c + "*/" + rest) && "/*" + c == ['/', '*'] + c;
    OpensWith('/', '*', c + "*/" + rest);
    OpensWith('/', '*', c);
    CommentCloseIs(c, rest);
    assert s[..|front|] == front && ("/*" + c)[..|c| + 2] == "/*" + c;
    FirstOf(s, Comment(front), front, rest);
    assert ("/*" + c) + "" == "/*" + c;
    FirstOf("/*" + c, Comment("/*" + c), "/*" + c, "");
    NothingIsTokenized();
  }

  lemma {:induction false} StringLengthIs(c: string, q: char, rest: string)
    requires Closed(c, q, true) && q != '\\' && (rest == "" || rest[0] != q)
    ensures StringLength(c + [q] + rest, q) == |c| + 1
  {
    var s := c + [q] + rest;
    if c == "" {
      assert s == [q] + rest;
    } else {
      var k := if c[0] == '\\' || c[0] == q then 2 else 1;
      assert s[k..] == c[k..] + [q] + rest;
      StringLengthIs(c[k..], q, rest);
    }
  }

  /** A quoted run ends with the first delimiter that is neither doubled nor behind a backslash. */
  lemma QuotedEnds(q: char, c: string, rest: string)
    requires (q == '\'' || q == '"') && Closed(c, q, true) && (rest == "" || rest[0] != q)
    ensures Tokenize([q] + c + [q] + rest) == [Quoted([q] + c + [q])] + Tokenize(rest)
  {
    hide StringLength, Tokenize, Closed, OpensComment, CommentLength;
    var s, front := [q] + c + [q] + rest, [q] + c + [q];
    QuotedParts(q, c, rest);
    StringLengthIs(c, q, rest);
    FirstOf(s, Quoted(front), front, rest);
  }

  lemma QuotedParts(q: char, c: string, rest: string)
    requires q == '\'' || q == '"'
    ensures var s, front := [q] + c + [q] + rest, [q] + c + [q];
            && s[1..] == c + [q] + rest && s[..|front|] == front && s[0] == q && !OpensComment(s)
  {
  }

  /** A name in backticks ends with the next backtick. */
  lemma NameEnds(c: string, rest: string)
    requires '`' !in c
    ensures Tokenize("`" + c + "`" + rest) == [Name(c)] + Tokenize(rest)
  {
    hide IndexOf, Tokenize;
    var s := "`" + c + "`" + rest;
    assert s[1..] == c + ['`'] + rest && s[0] == '`';
    IndexOfSkips(c, '`', rest);
    assert s[1..|c| + 1] == c;
    FirstOf(s, Name(c), "`" + c + "`", rest);
  }

  lemma {:induction false} InertIsCode(c: string, rest: string)
    requires IsInert(c) && (rest == "" || IsSpecial(rest))
    ensures CodeLength(c + rest) == |c|
  {
    if c == "" {
      assert c + rest == rest;
    } else {
      assert (c + rest)[1..] == c[1..] + rest && (c + rest)[0] == c[0];
      assert !IsSpecial(c + rest);
      InertIsCode(c[1..], rest);
    }
  }

  /** Code goes on up to the next quote or comment. */
  lemma CodeEnds(c: string, rest: string)
    requires c != "" && IsInert(c) && (rest == "" || IsSpecial(rest))
    ensures Tokenize(c + rest) == [Code(c)] + Tokenize(rest)
  {
    hide CodeLength, Tokenize;
    InertIsCode(c, rest);
    assert (c + rest)[0] == c[0] && (c + rest)[..|c|] == c;
    FirstOf(c + rest, Code(c), c, rest);
  }
}
