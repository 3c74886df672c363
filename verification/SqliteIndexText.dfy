/** Reading index expressions back from the text of a CREATE INDEX statement (lib/dialects/SQLiteDialect.js). */
module SqliteIndexText {
  import opened Wrappers
  import opened Texts
  import opened Words

  // ---------------------------------------------------------------- reading

  /** The first ` ON `, whatever its case; the length of the text if there is none. */
  function FindOn(s: string): (n: nat)
    ensures n <= |s|
  {
    if |s| < 4 then |s|
    else if s[0] == ' ' && (s[1] == 'o' || s[1] == 'O') && (s[2] == 'n' || s[2] == 'N') && s[3] == ' ' then 0
    else 1 + FindOn(s[1..])
  }

  predicate IsQuote(c: char) {
    c == '\'' || c == '"'
  }

  /** From inside the parentheses at `depth`: the offset of the parenthesis that closes the outermost one. */
  function CloseOffset(s: string, depth: int, quote: Option<char>): (o: Option<nat>)
    ensures o.Some? ==> o.value < |s|
  {
    if s == "" then None
    else
      var ch := s[0];
      if quote.Some? then
        if ch == quote.value then Onward(1, CloseOffset(s[1..], depth, None))
        else if ch == '\\' && |s| > 1 then Onward(2, CloseOffset(s[2..], depth, quote))
        else Onward(1, CloseOffset(s[1..], depth, quote))
      else if IsQuote(ch) then Onward(1, CloseOffset(s[1..], depth, Some(ch)))
      else if ch == '(' then Onward(1, CloseOffset(s[1..], depth + 1, None))
      else if ch == ')' then if depth == 1 then Some(0) else Onward(1, CloseOffset(s[1..], depth - 1, None))
      else Onward(1, CloseOffset(s[1..], depth, None))
  }

  function Onward(n: nat, o: Option<nat>): Option<nat> {
    match o
    case None => None
    case Some(k) => Some(n + k)
  }

  /** What is left in the buffer at the end is a part unless it is blank. */
  function LastPart(buf: string): seq<string> {
    if Trim(buf) == "" then [] else [Trim(buf)]
  }

  /** Split at the commas outside parentheses and quotes; `buf` is the part being collected. */
  function SplitList(s: string, buf: string, depth: int, quote: Option<char>): seq<string>
    decreases |s|
  {
    if s == "" then LastPart(buf)
    else
      var ch := s[0];
      if quote.Some? then
        if ch == quote.value then SplitList(s[1..], buf + [ch], depth, None)
        else if ch == '\\' && |s| > 1 then SplitList(s[2..], buf + s[..2], depth, quote)
        else SplitList(s[1..], buf + [ch], depth, quote)
      else if IsQuote(ch) then SplitList(s[1..], buf + [ch], depth, Some(ch))
      else if ch == '(' then SplitList(s[1..], buf + [ch], depth + 1, None)
      else if ch == ')' then SplitList(s[1..], buf + [ch], depth - 1, None)
      else if ch == ',' && depth == 0 then [Trim(buf)] + SplitList(s[1..], "", depth, None)
      else SplitList(s[1..], buf + [ch], depth, None)
  }

  /** extractIndexExpressionsFromSql. */
  function Extract(sql: string): seq<string> {
    var on := FindOn(sql);
    if on == |sql| then [] else
      var open := on + IndexOf(sql[on..], '(');
      if open == |sql| then [] else
        match CloseOffset(sql[open + 1..], 1, None)
        case None => []
        case Some(n) => SplitList(sql[open + 1..][..n], "", 0, None)
  }

  /** `/\)\s*WHERE\s+(.+)$/is` behind the parenthesis. */
  function WhereBehind(s: string): Option<string> {
    var t := TrimStart(s);
    if |t| < 6 || Lower(t[..5]) != "where" || !IsSpace(t[5]) then None
    else if TrimStart(t[5..]) != "" then Some(TrimStart(t[5..]))
    else if |t| > 6 then Some(t[|t| - 1..]) else None
  }

  /** The leftmost match. */
  function FindWhere(s: string): Option<string> {
    if s == "" then None
    else if s[0] == ')' && WhereBehind(s[1..]).Some? then WhereBehind(s[1..])
    else FindWhere(s[1..])
  }

  lemma CloseNothing(depth: int, quote: Option<char>)
    ensures CloseOffset("", depth, quote) == None
  {
  }

  /** One turn of the scan, by position in the whole text. */
  lemma CloseStep(s: string, i: nat, depth: int, quote: Option<char>)
    requires i < |s|
    ensures var ch := s[i];
            CloseOffset(s[i..], depth, quote) ==
            if quote.Some? then
              if ch == quote.value then Onward(1, CloseOffset(s[i + 1..], depth, None))
              else if ch == '\\' && i + 1 < |s| then Onward(2, CloseOffset(s[i + 2..], depth, quote))
              else Onward(1, CloseOffset(s[i + 1..], depth, quote))
            else if IsQuote(ch) then Onward(1, CloseOffset(s[i + 1..], depth, Some(ch)))
            else if ch == '(' then Onward(1, CloseOffset(s[i + 1..], depth + 1, None))
            else if ch == ')' then if depth == 1 then Some(0) else Onward(1, CloseOffset(s[i + 1..], depth - 1, None))
            else Onward(1, CloseOffset(s[i + 1..], depth, None))
  {
    assert s[i..][1..] == s[i + 1..];
    if i + 1 < |s| { assert s[i..][2..] == s[i + 2..]; }
  }

  /** The scan for the closing parenthesis, from the opening one. */
  method FindClose(indexSql: string, openIdx: nat) returns (closeIdx: int)
    requires openIdx < |indexSql| && indexSql[openIdx] == '('
    ensures var o := CloseOffset(indexSql[openIdx + 1..], 1, None);
            closeIdx == if o.None? then -1 else openIdx + 1 + o.value
  {
    hide CloseOffset;
    var depth, quote := 1, None;
    var i := openIdx + 1;
    ghost var whole := CloseOffset(indexSql[openIdx + 1..], 1, None);
    while i < |indexSql|
      invariant openIdx < i <= |indexSql| + 1
      invariant i <= |indexSql| ==> whole == Onward(i - openIdx - 1, CloseOffset(indexSql[i..], depth, quote))
      invariant i > |indexSql| ==> whole == None
    {
      var ch := indexSql[i];
      CloseStep(indexSql, i, depth, quote);
      if quote.Some? {
        if ch == quote.value {
          quote := None;
        } else if ch == '\\' {
          i := i + 1;
        }
      } else if IsQuote(ch) {
        quote := Some(ch);
      } else if ch == '(' {
        depth := depth + 1;
      } else if ch == ')' {
        if depth == 1 { return i; }
        depth := depth - 1;
      }
      i := i + 1;
    }
    CloseNothing(depth, quote);
    assert i <= |indexSql| ==> indexSql[i..] == "";
    return -1;
  }

  method SplitExpressions(list: string) returns (parts: seq<string>)
    ensures parts == SplitList(list, "", 0, None)
  {
    parts := [];
    var buf, depth, quote := "", 0, None;
    var i := 0;
    assert list[0..] == list;
    while i < |list|
      invariant 0 <= i <= |list|
      invariant SplitList(list, "", 0, None) == parts + SplitList(list[i..], buf, depth, quote)
    {
      var ch := list[i];
      assert list[i..][1..] == list[i + 1..];
      if quote.Some? {
        buf := buf + [ch];
        if ch == quote.value {
          quote := None;
        } else if ch == '\\' && i + 1 < |list| {
          assert list[i..][2..] == list[i + 2..];
          assert buf + [list[i + 1]] == buf[..|buf| - 1] + list[i..][..2];
          buf := buf + [list[i + 1]];
          i := i + 1;
        }
      } else if IsQuote(ch) {
        quote := Some(ch);
        buf := buf + [ch];
      } else if ch == '(' {
        depth := depth + 1;
        buf := buf + [ch];
      } else if ch == ')' {
        depth := depth - 1;
        buf := buf + [ch];
      } else if ch == ',' && depth == 0 {
        parts := parts + [Trim(buf)];
        buf := "";
      } else {
        buf := buf + [ch];
      }
      i := i + 1;
    }
    if Trim(buf) != "" {
      parts := parts + [Trim(buf)];
    }
  }

  method ExtractIndexExpressionsFromSql(indexSql: string) returns (parts: seq<string>)
    ensures parts == Extract(indexSql)
  {
    var onIdx := FindOn(indexSql);
    if onIdx == |indexSql| { return []; }
    var openIdx := onIdx + IndexOf(indexSql[onIdx..], '(');
    if openIdx == |indexSql| { return []; }
    var closeIdx := FindClose(indexSql, openIdx);
    if closeIdx < 0 { return []; }
    assert indexSql[openIdx + 1..][..closeIdx - openIdx - 1] == indexSql[openIdx + 1..closeIdx];
    parts := SplitExpressions(indexSql[openIdx + 1..closeIdx]);
  }

  // ---------------------------------------------------------------- the statement that was printed

  /** An empty predicate is none. */
  function TailText(where: Option<string>): string {
    if where.Some? && where.value != "" then " WHERE " + where.value else ""
  }

  /** generateCreateIndex, from the printed columns on; `indexType` says what kind of index is asked for. */
  function CreateIndexText(indexType: string, quotedIndex: string, quotedTable: string, columns: seq<string>,
                           where: Option<string>): string
  {
    "CREATE " + indexType + " " + quotedIndex + " ON " + quotedTable
    + " (" + JoinList(columns) + ")" + TailText(where)
  }

  /** Reading `e` from a state comes back to depth zero outside quotes, without leaving the parentheses it
      started in, meeting a backslash, or meeting a comma outside parentheses. */
  predicate WellNested(e: string, depth: nat, quote: Option<char>) {
    if e == "" then depth == 0 && quote.None?
    else
      var ch := e[0];
      && ch != '\\'
      && if quote.Some? then WellNested(e[1..], depth, if ch == quote.value then None else quote)
         else if IsQuote(ch) then WellNested(e[1..], depth, Some(ch))
         else if ch == '(' then WellNested(e[1..], depth + 1, None)
         else if ch == ')' then depth > 0 && WellNested(e[1..], depth - 1, None)
         else !(ch == ',' && depth == 0) && WellNested(e[1..], depth, None)
  }

  /** An index expression as it is printed. */
  predicate IsExpression(e: string) {
    e != "" && IsTrimmed(e) && WellNested(e, 0, None)
  }

  /** The scan for the closing parenthesis passes over a well-nested text. */
  lemma {:induction false} ClosePasses(e: string, depth: nat, quote: Option<char>, rest: string)
    requires WellNested(e, depth, quote)
    ensures CloseOffset(e + rest, depth + 1, quote) == Onward(|e|, CloseOffset(rest, 1, None))
  {
    if e == "" {
      assert e + rest == rest;
    } else {
      assert (e + rest)[1..] == e[1..] + rest;
      var ch := e[0];
      if quote.Some? {
        ClosePasses(e[1..], depth, if ch == quote.value then None else quote, rest);
      } else if IsQuote(ch) {
        ClosePasses(e[1..], depth, Some(ch), rest);
      } else if ch == '(' {
        ClosePasses(e[1..], depth + 1, None, rest);
      } else if ch == ')' {
        ClosePasses(e[1..], depth - 1, None, rest);
      } else {
        ClosePasses(e[1..], depth, None, rest);
      }
    }
  }

  /** Behind one expression comes the comma of the next, or the closing parenthesis. */
  lemma CloseAtSeparator(more: string)
    ensures CloseOffset(", " + more, 1, None) == Onward(2, CloseOffset(more, 1, None))
    ensures CloseOffset(")" + more, 1, None) == Some(0)
  {
    assert (", " + more)[1..] == " " + more && (" " + more)[1..] == more;
  }

  lemma {:induction false} CloseAfterList(parts: seq<string>, rest: string)
    requires forall i | 0 <= i < |parts| :: WellNested(parts[i], 0, None)
    ensures CloseOffset(JoinList(parts) + ")" + rest, 1, None) == Some(|JoinList(parts)|)
    decreases |parts|
  {
    hide CloseOffset, WellNested;
    if |parts| <= 1 {
      CloseAtSeparator(rest);
      if parts == [] {
        assert JoinList(parts) + ")" + rest == ")" + rest;
      } else {
        assert JoinList(parts) + ")" + rest == parts[0] + (")" + rest);
        ClosePasses(parts[0], 0, None, ")" + rest);
      }
    } else {
      var more := JoinList(parts[1..]) + ")" + rest;
      CloseAfterList(parts[1..], rest);
      assert JoinList(parts) + ")" + rest == parts[0] + (", " + more);
      ClosePasses(parts[0], 0, None, ", " + more);
      CloseAtSeparator(more);
    }
  }

  /** Splitting collects a well-nested text into the buffer. */
  lemma {:induction false} SplitPasses(e: string, buf: string, depth: nat, quote: Option<char>, rest: string)
    requires WellNested(e, depth, quote)
    ensures SplitList(e + rest, buf, depth, quote) == SplitList(rest, buf + e, 0, None)
    decreases |e|
  {
    if e == "" {
      assert e + rest == rest && buf + e == buf;
    } else {
      assert (e + rest)[1..] == e[1..] + rest;
      var ch := e[0];
      assert buf + [ch] + e[1..] == buf + e;
      if quote.Some? {
        SplitPasses(e[1..], buf + [ch], depth, if ch == quote.value then None else quote, rest);
      } else if IsQuote(ch) {
        SplitPasses(e[1..], buf + [ch], depth, Some(ch), rest);
      } else if ch == '(' {
        SplitPasses(e[1..], buf + [ch], depth + 1, None, rest);
      } else if ch == ')' {
        SplitPasses(e[1..], buf + [ch], depth - 1, None, rest);
      } else {
        SplitPasses(e[1..], buf + [ch], depth, None, rest);
      }
    }
  }

  lemma TrimSpaced(e: string)
    requires IsTrimmed(e)
    ensures Trim(e) == e && Trim(" " + e) == e
  {
    assert (" " + e)[1..] == e;
  }

  lemma SplitComma(more: string, buf: string)
    ensures SplitList(", " + more, buf, 0, None) == [Trim(buf)] + SplitList(more, " ", 0, None)
  {
    assert (", " + more)[1..] == " " + more && (" " + more)[1..] == more && "" + [' '] == " ";
    assert SplitList(" " + more, "", 0, None) == SplitList(more, " ", 0, None);
  }

  /** The last part; `blank` is what the buffer starts with. */
  lemma SplitEnd(e: string, blank: string)
    requires IsExpression(e) && (blank == "" || blank == " ")
    ensures SplitList(e, blank, 0, None) == [e] && Trim(blank + e) == e
  {
    hide SplitList;
    TrimSpaced(e);
    assert e + "" == e && (blank == "" ==> blank + e == e);
    SplitPasses(e, blank, 0, None, "");
    SplitNothing(blank + e);
  }

  lemma SplitNothing(buf: string)
    ensures SplitList("", buf, 0, None) == LastPart(buf)
  {
  }

  /** A list joined with commas is split into the same list. */
  lemma {:induction false} SplitJoined(parts: seq<string>, blank: string)
    requires parts != [] && (blank == "" || blank == " ")
    requires forall i | 0 <= i < |parts| :: IsExpression(parts[i])
    ensures SplitList(JoinList(parts), blank, 0, None) == parts
    decreases |parts|
  {
    hide SplitList, Trim, WellNested;
    var first := parts[0];
    assert IsExpression(first);
    SplitEnd(first, blank);
    if |parts| == 1 {
      assert parts == [first];
    } else {
      var more := JoinList(parts[1..]);
      JoinListMore(parts);
      SplitPasses(first, blank, 0, None, ", " + more);
      SplitComma(more, blank + first);
      SplitJoined(parts[1..], " ");
      assert [first] + parts[1..] == parts;
    }
  }

  predicate OnAt(s: string, k: nat) {
    k + 4 <= |s| && Lower(s[k..k + 4]) == " on "
  }

  /** What is found is the first ` ON ` of the text, in any case. */
  lemma {:induction false} OnIsTheFirst(s: string)
    ensures FindOn(s) < |s| ==> OnAt(s, FindOn(s))
    ensures forall k | 0 <= k < FindOn(s) :: !OnAt(s, k)
  {
    hide Lower, LowerChar;
    if |s| >= 4 {
      OnInAnyCase(s[..4]);
      assert s[..4][0] == s[0] && s[..4][1] == s[1] && s[..4][2] == s[2] && s[..4][3] == s[3];
      assert s[..4] == s[0..4];
      if FindOn(s) > 0 {
        OnIsTheFirst(s[1..]);
        forall k | 1 <= k < |s| ensures OnAt(s, k) == OnAt(s[1..], k - 1) {
          if k + 4 <= |s| { assert s[1..][k - 1..k + 3] == s[k..k + 4]; }
        }
      }
    }
  }

  lemma OnInAnyCase(t: string)
    requires |t| == 4
    ensures Lower(t) == " on "
            <==> t[0] == ' ' && (t[1] == 'o' || t[1] == 'O') && (t[2] == 'n' || t[2] == 'N') && t[3] == ' '
  {
    LowerAt(t, 0);
    LowerAt(t, 1);
    LowerAt(t, 2);
    LowerAt(t, 3);
    hide Lower;
    assert Lower(t) == " on " ==> Lower(t)[0] == ' ' && Lower(t)[1] == 'o' && Lower(t)[2] == 'n' && Lower(t)[3] == ' ';
  }

  lemma {:induction false} FindOnBefore(a: string, b: string)
    ensures FindOn(a + " ON " + b) <= |a|
  {
    var s := a + " ON " + b;
    if a == "" {
      assert s == " ON " + b;
    } else {
      assert s[1..] == a[1..] + " ON " + b;
      FindOnBefore(a[1..], b);
    }
  }

  lemma FirstParenthesis(a: string, b: string, from: nat)
    requires '(' !in a && from <= |a|
    ensures from + IndexOf((a + "(" + b)[from..], '(') == |a|
  {
    assert (a + "(" + b)[from..] == a[from..] + "(" + b;
    IndexOfSkips(a[from..], '(', b);
    assert a[from..] + ['('] + b == a[from..] + "(" + b;
  }

  /** What is printed is what is read: the expressions of a CREATE INDEX statement come back in order, with or
      without a WHERE clause, however the index and the table are named, as long as no name has an opening
      parenthesis. */
  lemma ExtractReadsWhatWasPrinted(indexType: string, quotedIndex: string, quotedTable: string,
                                   columns: seq<string>, where: Option<string>)
    requires '(' !in indexType && '(' !in quotedIndex && '(' !in quotedTable
    requires columns != [] && forall i | 0 <= i < |columns| :: IsExpression(columns[i])
    ensures Extract(CreateIndexText(indexType, quotedIndex, quotedTable, columns, where)) == columns
  {
    hide IsExpression, Extract;
    var head := "CREATE " + indexType + " " + quotedIndex;
    var tail := TailText(where);
    var body := JoinList(columns) + ")" + tail;
    var before := head + " ON " + quotedTable + " ";
    var sql := CreateIndexText(indexType, quotedIndex, quotedTable, columns, where);
    assert sql == before + "(" + body;
    assert sql == head + " ON " + (quotedTable + " (" + body);
    NoParenthesisBefore(indexType, quotedIndex, quotedTable);
    ExtractFrom(head, quotedTable + " (" + body, before, body, columns, tail);
  }

  lemma NoParenthesisBefore(indexType: string, quotedIndex: string, quotedTable: string)
    requires '(' !in indexType && '(' !in quotedIndex && '(' !in quotedTable
    ensures '(' !in "CREATE " + indexType + " " + quotedIndex + " ON " + quotedTable + " "
  {
  }

  lemma ExtractFrom(head: string, rest: string, before: string, body: string, columns: seq<string>, tail: string)
    requires head + " ON " + rest == before + "(" + body && '(' !in before && |head| <= |before|
    requires body == JoinList(columns) + ")" + tail
    requires columns != [] && forall i | 0 <= i < |columns| :: IsExpression(columns[i])
    ensures Extract(before + "(" + body) == columns
  {
    var sql := before + "(" + body;
    FindOnBefore(head, rest);
    FirstParenthesis(before, body, FindOn(sql));
    CloseAfterList(columns, tail);
    SplitJoined(columns, "");
    ExtractSteps(sql, |before|, body, JoinList(columns));
  }

  lemma ExtractSteps(sql: string, open: nat, body: string, list: string)
    requires open < |sql| && sql[open + 1..] == body && FindOn(sql) <= open
    requires open == FindOn(sql) + IndexOf(sql[FindOn(sql)..], '(')
    requires CloseOffset(body, 1, None) == Some(|list|) && list <= body
    ensures Extract(sql) == SplitList(list, "", 0, None)
  {
    hide CloseOffset, SplitList, FindOn, IndexOf;
    assert body[..|list|] == list;
  }

  // ---------------------------------------------------------------- the predicate that was printed

  /** No white space stands behind a closing parenthesis. */
  predicate IsTight(e: string) {
    forall i | 0 <= i < |e| && e[i] == ')' :: AllGraphic(e[i..])
  }

  lemma NoWhereInside(tight: string, c: char, rest: string)
    requires AllGraphic(tight) && (c == ',' || c == ')')
    ensures WhereBehind(tight + [c] + rest).None?
  {
    var s := tight + [c] + rest;
    GraphicIsNoSpace(c);
    GraphicIsNoSpace(s[0]);
    assert TrimStart(s) == s;
    if |s| >= 6 {
      if |tight| < 5 {
        LowerAt(s[..5], |tight|);
        assert s[..5][|tight|] == c && "where"[|tight|] != LowerChar(c);
      } else {
        assert s[5] == if |tight| > 5 then tight[5] else c;
        GraphicIsNoSpace(s[5]);
      }
    }
  }

  lemma {:induction false} LowerAt(s: string, i: nat)
    requires i < |s|
    ensures |Lower(s)| == |s| && Lower(s)[i] == LowerChar(s[i])
  {
    LowerOfLower(s);
    if i > 0 { LowerAt(s[1..], i - 1); }
  }

  lemma {:induction false} WherePasses(e: string, c: char, rest: string)
    requires IsTight(e) && (c == ',' || c == ')')
    ensures FindWhere(e + [c] + rest) == FindWhere([c] + rest)
  {
    if e == "" {
      assert e + [c] + rest == [c] + rest;
    } else {
      assert (e + [c] + rest)[1..] == e[1..] + [c] + rest;
      TightTail(e);
      WherePasses(e[1..], c, rest);
      if e[0] == ')' { NoWhereInside(e[1..], c, rest); }
    }
  }

  lemma TightTail(e: string)
    requires e != "" && IsTight(e)
    ensures IsTight(e[1..]) && (e[0] == ')' ==> AllGraphic(e[1..]))
  {
    forall i | 0 <= i < |e[1..]| && e[1..][i] == ')' ensures AllGraphic(e[1..][i..]) {
      assert e[1..][i..] == e[i + 1..];
    }
    if e[0] == ')' {
      assert e[0..] == e && AllGraphic(e);
      assert forall i | 0 <= i < |e[1..]| :: e[1..][i] == e[i + 1];
    }
  }

  lemma {:induction false} NoBracketPasses(plain: string, rest: string)
    requires ')' !in plain
    ensures FindWhere(plain + rest) == FindWhere(rest)
  {
    if plain == "" {
      assert plain + rest == rest;
    } else {
      assert plain[0] in plain;
      assert (plain + rest)[1..] == plain[1..] + rest;
      NoBracketPasses(plain[1..], rest);
    }
  }

  lemma {:induction false} ListHasNoWhere(columns: seq<string>, rest: string)
    requires columns != [] && forall i | 0 <= i < |columns| :: IsTight(columns[i])
    ensures FindWhere(JoinList(columns) + ")" + rest) == FindWhere(")" + rest)
    decreases |columns|
  {
    hide FindWhere, IsTight;
    if |columns| == 1 {
      assert JoinList(columns) + ")" + rest == columns[0] + [')'] + rest;
      WherePasses(columns[0], ')', rest);
      assert [')'] + rest == ")" + rest;
    } else {
      var more := JoinList(columns[1..]) + ")" + rest;
      JoinListMore(columns);
      assert JoinList(columns) + ")" + rest == columns[0] + [','] + (" " + more);
      WherePasses(columns[0], ',', " " + more);
      assert [','] + (" " + more) == ", " + more;
      NoBracketPasses(", ", more);
      ListHasNoWhere(columns[1..], rest);
    }
  }

  /** What the reader makes of a predicate: the blanks in front of it are lost. */
  function ReadPredicate(where: string): string {
    if TrimStart(where) != "" then TrimStart(where) else where[(if where == "" then 0 else |where| - 1)..]
  }

  lemma WhereIsRead(where: string)
    requires where != ""
    ensures WhereBehind(" WHERE " + where) == Some(ReadPredicate(where))
  {
    var s, t := " WHERE " + where, "WHERE " + where;
    BlankIsSpace();
    GraphicIsNoSpace('W');
    assert s[1..] == t && TrimStart(s) == TrimStart(t) == t;
    assert t[..5] == "WHERE";
    WhereInLowerCase();
    assert t[5..] == " " + where && (" " + where)[1..] == where;
    assert TrimStart(t[5..]) == TrimStart(where);
    assert t[|t| - 1..] == where[|where| - 1..];
  }

  lemma WhereInLowerCase()
    ensures Lower("WHERE") == "where"
  {
    assert Lower("RE") == "re";
    assert Lower("ERE") == "ere";
    assert Lower("HERE") == "here";
  }

  /** The predicate of a printed statement is found, as long as no name has a parenthesis and no column white space
      behind one. */
  lemma WhereIsFound(indexType: string, quotedIndex: string, quotedTable: string, columns: seq<string>, where: string)
    requires ')' !in indexType && ')' !in quotedIndex && ')' !in quotedTable && where != ""
    requires columns != [] && forall i | 0 <= i < |columns| :: IsTight(columns[i])
    ensures FindWhere(CreateIndexText(indexType, quotedIndex, quotedTable, columns, Some(where)))
            == Some(ReadPredicate(where))
  {
    hide FindWhere, WhereBehind, JoinList, IsTight;
    var before := "CREATE " + indexType + " " + quotedIndex + " ON " + quotedTable + " (";
    var tail := " WHERE " + where;
    var list := JoinList(columns) + ")" + tail;
    assert CreateIndexText(indexType, quotedIndex, quotedTable, columns, Some(where)) == before + list;
    assert ')' !in before;
    NoBracketPasses(before, list);
    ListHasNoWhere(columns, tail);
    WhereIsRead(where);
    FoundAtOnce(tail);
  }

  lemma FoundAtOnce(tail: string)
    requires WhereBehind(tail).Some?
    ensures FindWhere(")" + tail) == WhereBehind(tail)
  {
    assert (")" + tail)[1..] == tail;
  }

  // ---------------------------------------------------------------- columns of the catalog

  /** getTableIndexes: a column reported with a name is taken as it is, the others take the extracted parts one
      by one, from the first on. */
  function ReadColumns(reported: seq<Option<string>>, parts: seq<string>): seq<string> {
    if reported == [] then []
    else
      match reported[0]
      case Some(name) => [name] + ReadColumns(reported[1..], parts)
      case None =>
        [if parts == [] then "__expr" else parts[0]]
        + ReadColumns(reported[1..], if parts == [] then [] else parts[1..])
  }

  /** How many columns without a name stand before the `k`-th. */
  function ExpressionsBefore(reported: seq<Option<string>>, k: nat): (n: nat)
    requires k <= |reported|
    ensures n <= k
  {
    if k == 0 then 0 else ExpressionsBefore(reported, k - 1) + if reported[k - 1].None? then 1 else 0
  }

  lemma {:induction false} ExpressionsBeforeTail(reported: seq<Option<string>>, k: nat)
    requires 0 < k <= |reported|
    ensures ExpressionsBefore(reported, k)
            == (if reported[0].None? then 1 else 0) + ExpressionsBefore(reported[1..], k - 1)
  {
    if k > 1 { ExpressionsBeforeTail(reported, k - 1); }
  }

  lemma {:induction false} ReadColumnAt(reported: seq<Option<string>>, parts: seq<string>, k: nat)
    requires k < |reported| && ExpressionsBefore(reported, k) < |parts|
    ensures |ReadColumns(reported, parts)| == |reported|
    ensures ReadColumns(reported, parts)[k]
            == if reported[k].Some? then reported[k].value else parts[ExpressionsBefore(reported, k)]
    decreases |reported|
  {
    ReadsAsMany(reported, parts);
    if k > 0 {
      ExpressionsBeforeTail(reported, k);
      ReadColumnAt(reported[1..], if reported[0].None? then parts[1..] else parts, k - 1);
    }
  }

  lemma {:induction false} ReadsAsMany(reported: seq<Option<string>>, parts: seq<string>)
    ensures |ReadColumns(reported, parts)| == |reported|
    decreases |reported|
  {
    if reported != [] {
      ReadsAsMany(reported[1..], if reported[0].Some? then parts else if parts == [] then [] else parts[1..]);
    }
  }

  /** Every expression column is given its own printed part. */
  predicate ReadsRight(reported: seq<Option<string>>, parts: seq<string>)
    requires |parts| == |reported| == |ReadColumns(reported, parts)|
  {
    forall k | 0 <= k < |reported| && reported[k].None? :: ReadColumns(reported, parts)[k] == parts[k]
  }

  /** The cursor into the extracted parts only counts expression columns, while the parts hold every column: an
      index with distinct columns is read right if and only if no named column stands before an expression. */
  lemma ReadsRightExactlyWhen(reported: seq<Option<string>>, parts: seq<string>)
    requires |parts| == |reported| && forall i, j | 0 <= i < j < |parts| :: parts[i] != parts[j]
    ensures |ReadColumns(reported, parts)| == |reported|
    ensures ReadsRight(reported, parts)
            <==> forall i, j | 0 <= i < j < |reported| :: reported[j].None? ==> reported[i].None?
  {
    ReadsAsMany(reported, parts);
    forall k | 0 <= k < |reported| && reported[k].None?
      ensures ReadColumns(reported, parts)[k] == parts[k] <==> ExpressionsBefore(reported, k) == k
    {
      ReadColumnAt(reported, parts, k);
    }
    forall k | 0 <= k < |reported|
      ensures ExpressionsBefore(reported, k) == k <==> forall i | 0 <= i < k :: reported[i].None?
    {
      AllExpressionsBefore(reported, k);
    }
  }

  lemma {:induction false} AllExpressionsBefore(reported: seq<Option<string>>, k: nat)
    requires k <= |reported|
    ensures ExpressionsBefore(reported, k) == k <==> forall i | 0 <= i < k :: reported[i].None?
  {
    if k > 0 { AllExpressionsBefore(reported, k - 1); }
  }
}
