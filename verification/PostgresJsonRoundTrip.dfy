/** A functional JSON index on PostgreSQL, from the schema to the catalog and back
    (normalizePostgresIndexExpression of lib/dialects/PostgresDialect.js). */
module PostgresJsonRoundTrip {
  import opened Wrappers
  import opened Texts
  import opened Words
  import opened IndexColumns
  import opened PostgresJsonPath

  /** The field as the catalog prints it. */
  function FieldText(field: string, quoted: bool): string {
    if quoted then "\"" + field + "\"" else field
  }

  /** The literal with its cast and the closing parentheses. */
  function LiteralText(keys: seq<string>): string {
    if |keys| == 1 then "'" + (keys[0] + ['\''] + "::text))")
    else "'{" + (Commas(keys) + ['}'] + ("'" + "::text[]))"))
  }

  function CatalogTail(keys: seq<string>): string {
    (if |keys| == 1 then "->>" else "#>>") + (" " + LiteralText(keys))
  }

  /** How pg_get_indexdef prints the accessor made of a field and keys: an expression in its own parentheses and in
      those of the index column. */
  function CatalogText(field: string, quoted: bool, keys: seq<string>): string {
    "((" + FieldText(field, quoted) + " " + CatalogTail(keys)
  }

  // ---------------------------------------------------------------- white space

  lemma CommasAreGraphic(keys: seq<string>)
    requires AreKeys(keys)
    ensures AllGraphic(Commas(keys))
  {
    JoinedKeys(keys);
  }

  lemma LiteralIsGraphic(keys: seq<string>)
    requires AreKeys(keys) && keys != []
    ensures AllGraphic(LiteralText(keys))
  {
    CommasAreGraphic(keys);
    if |keys| == 1 {
      GraphicConcat(Commas(keys), ['\'']);
      GraphicConcat(Commas(keys) + ['\''], "::text))");
      GraphicConcat("'", Commas(keys) + ['\''] + "::text))");
    } else {
      GraphicConcat(Commas(keys), ['}']);
      GraphicConcat("'", "::text[]))");
      GraphicConcat(Commas(keys) + ['}'], "'" + "::text[]))");
      GraphicConcat("'{", Commas(keys) + ['}'] + ("'" + "::text[]))"));
    }
  }

  lemma FieldIsGraphic(field: string, quoted: bool)
    requires IsIdentifier(field)
    ensures AllGraphic("((" + FieldText(field, quoted))
  {
    IdentifierIsGraphic(field);
    if quoted {
      GraphicConcat("\"", field);
      GraphicConcat("\"" + field, "\"");
    }
    GraphicConcat("((", FieldText(field, quoted));
  }

  lemma OperatorsAreGraphic()
    ensures AllGraphic("->>") && AllGraphic("#>>")
  {
  }

  lemma CatalogIsCollapsed(field: string, quoted: bool, keys: seq<string>)
    requires IsIdentifier(field) && AreKeys(keys) && keys != []
    ensures Collapse(CatalogText(field, quoted, keys)) == CatalogText(field, quoted, keys)
  {
    hide IsCollapsed, IsTrimmed, AllGraphic, Collapse;
    var a, b, c := "((" + FieldText(field, quoted), if |keys| == 1 then "->>" else "#>>", LiteralText(keys);
    FieldIsGraphic(field, quoted);
    LiteralIsGraphic(keys);
    OperatorsAreGraphic();
    GraphicIsCollapsed(a);
    GraphicIsCollapsed(b);
    GraphicIsCollapsed(c);
    BlankBetween(b, c);
    assert b + " " + c == CatalogTail(keys);
    BlankBetween(a, CatalogTail(keys));
    CollapseCollapsed(CatalogText(field, quoted, keys));
  }

  // ---------------------------------------------------------------- finding the field

  /** What follows the field is the end of the text. */
  lemma FieldRest(s: string, inWord: bool) returns (k: nat)
    requires MatchField(s, inWord).Some?
    ensures k <= |s| && MatchField(s, inWord).value.1 == s[k..]
  {
    var o := if s != "" && (s[0] == '"' || s[0] == '(') then 1 else 0;
    var t := s[o..];
    assert o == 0 ==> t == s;
    var n := WordEnd(t);
    var c := if n < |t| && t[n] == '"' then n + 1 else n;
    assert t[c..] == s[o + c..];
    var j := TrimStartPart(t[c..]);
    k := o + c + j;
    assert s[o + c..][j..] == s[k..];
  }

  /** A nested match needs a `#`. */
  lemma NoHashNoMatch(s: string, inWord: bool)
    requires '#' !in s
    ensures MatchAt(s, inWord, true) == None
  {
    hide MatchField;
    if MatchField(s, inWord).Some? {
      var k := FieldRest(s, inWord);
      if k < |s| { assert s[k..][0] in s; }
    }
  }

  lemma {:induction false} NoHashNothingFound(s: string, inWord: bool)
    requires '#' !in s
    ensures Find(s, inWord, true) == None
  {
    if s != "" {
      NoHashNoMatch(s, inWord);
      NoHashNothingFound(s[1..], IsWordChar(s[0]));
    }
  }

  lemma PlainFieldIsRead(field: string, tail: string)
    requires IsIdentifier(field) && tail != "" && !IsSpace(tail[0])
    ensures MatchField("(" + field + " " + tail, false) == Some((field, tail))
  {
    var s, rest := "(" + field + " " + tail, " " + tail;
    assert s[1..] == field + rest;
    IdentifierThen(field, rest);
    assert s[1..][..|field|] == field && s[1..][|field|..] == rest;
    TrimBlank(tail);
  }

  lemma QuotedFieldIsRead(field: string, tail: string)
    requires IsIdentifier(field) && tail != "" && !IsSpace(tail[0])
    ensures MatchField("\"" + field + "\"" + " " + tail, false) == Some((field, tail))
  {
    var s, rest := "\"" + field + "\"" + " " + tail, "\"" + " " + tail;
    assert s[1..] == field + rest;
    IdentifierThen(field, rest);
    assert s[1..][..|field|] == field && s[1..][|field|..] == rest;
    assert s[1..][|field| + 1..] == " " + tail;
    TrimBlank(tail);
  }

  lemma QuoteIsNoSpace()
    ensures !IsSpace('\'') && !IsSpace('#') && !IsSpace('-')
  {
    GraphicIsNoSpace('\'');
    GraphicIsNoSpace('#');
    GraphicIsNoSpace('-');
  }

  /** The slices of operator, blank and literal. */
  lemma LiteralSlices(operator: string, mark: string, behind: string)
    ensures var rest := operator + (" " + (mark + behind));
            && rest[|operator|..] == " " + (mark + behind) && rest[..|operator|] == operator
            && (mark + behind)[|mark|..] == behind
  {
  }

  lemma ContentSlices(mark: string, content: string, end: char, after: string)
    ensures var literal := mark + (content + [end] + after);
            && literal[|mark|..|mark| + |content|] == content && literal[|mark| + |content|] == end
            && literal[|mark| + |content| + 1..] == after
  {
  }

  lemma PathLiteralIsRead(content: string, after: string)
    requires '}' !in content
    ensures MatchPathLiteral("#>>" + (" " + ("'{" + (content + ['}'] + ("'" + after))))) == Some(content)
  {
    hide TrimStart, IndexOf;
    var behind := content + ['}'] + ("'" + after);
    QuoteIsNoSpace();
    TrimBlank("'{" + behind);
    LiteralSlices("#>>", "'{", behind);
    IndexOfSkips(content, '}', "'" + after);
    ContentSlices("'{", content, '}', "'" + after);
  }

  lemma KeyLiteralIsRead(key: string, after: string)
    requires '\'' !in key && key != ""
    ensures MatchKeyLiteral("->>" + (" " + ("'" + (key + ['\''] + after)))) == Some(key)
  {
    hide TrimStart, IndexOf;
    var behind := key + ['\''] + after;
    QuoteIsNoSpace();
    TrimBlank("'" + behind);
    LiteralSlices("->>", "'", behind);
    IndexOfSkips(key, '\'', after);
    ContentSlices("'", key, '\'', after);
  }

  lemma FoundAtFront(s: string, nested: bool, m: (string, string))
    requires s != "" && MatchAt(s, false, nested) == Some(m)
    ensures Find(s, false, nested) == Some(m)
  {
  }

  lemma FoundAtSecond(s: string, nested: bool, m: (string, string))
    requires |s| > 1 && MatchAt(s, false, nested) == None && !IsWordChar(s[0])
    requires MatchAt(s[1..], false, nested) == Some(m)
    ensures Find(s, false, nested) == Some(m)
  {
  }

  lemma QuotedIsNoWord(field: string, tail: string)
    ensures MatchField("(" + ("\"" + field + "\"" + " " + tail), false) == None
  {
    var t := "\"" + field + "\"" + " " + tail;
    assert ("(" + t)[1..] == t && t[0] == '"';
  }

  lemma BracketIsNoWord(rest: string)
    ensures MatchField("((" + rest, false) == None
  {
    assert ("((" + rest)[1..] == "(" + rest;
  }

  /** The field and the literal are found behind one parenthesis. */
  lemma FoundBehindBracket(field: string, quoted: bool, tail: string, nested: bool, literal: string)
    requires IsIdentifier(field) && tail != "" && !IsSpace(tail[0])
    requires (if nested then MatchPathLiteral(tail) else MatchKeyLiteral(tail)) == Some(literal)
    ensures Find("(" + FieldText(field, quoted) + " " + tail, false, nested) == Some((field, literal))
  {
    hide Find, MatchField, MatchPathLiteral, MatchKeyLiteral;
    var s := "(" + FieldText(field, quoted) + " " + tail;
    if quoted {
      var t := "\"" + field + "\"" + " " + tail;
      assert s == "(" + t && s[1..] == t;
      QuotedFieldIsRead(field, tail);
      QuotedIsNoWord(field, tail);
      FoundAtSecond(s, nested, (field, literal));
    } else {
      PlainFieldIsRead(field, tail);
      FoundAtFront(s, nested, (field, literal));
    }
  }

  /** So they are in a catalog text. */
  lemma FoundInCatalog(field: string, quoted: bool, tail: string, nested: bool, literal: string)
    requires IsIdentifier(field) && tail != "" && !IsSpace(tail[0])
    requires (if nested then MatchPathLiteral(tail) else MatchKeyLiteral(tail)) == Some(literal)
    ensures Find("((" + FieldText(field, quoted) + " " + tail, false, nested) == Some((field, literal))
  {
    hide Find, MatchField, MatchPathLiteral, MatchKeyLiteral;
    var rest := FieldText(field, quoted) + " " + tail;
    var s := "((" + rest;
    FoundBehindBracket(field, quoted, tail, nested, literal);
    BracketIsNoWord(rest);
    assert s == "((" + FieldText(field, quoted) + " " + tail;
    assert s[1..] == "(" + FieldText(field, quoted) + " " + tail;
    FoundLater(s, nested, (field, literal));
  }

  lemma FoundLater(s: string, nested: bool, m: (string, string))
    requires |s| > 1 && MatchField(s, false) == None && !IsWordChar(s[0])
    requires Find(s[1..], false, nested) == Some(m)
    ensures Find(s, false, nested) == Some(m)
  {
  }

  lemma KeyTail(key: string)
    requires IsWord(key)
    ensures MatchKeyLiteral(CatalogTail([key])) == Some(key)
  {
    KeyLiteralIsRead(key, "::text))");
  }

  lemma NoBraceInCommas(keys: seq<string>)
    requires AreKeys(keys)
    ensures '}' !in Commas(keys)
  {
    JoinedKeys(keys);
  }

  lemma PathTail(keys: seq<string>)
    requires AreKeys(keys) && |keys| > 1
    ensures MatchPathLiteral(CatalogTail(keys)) == Some(Commas(keys))
  {
    NoBraceInCommas(keys);
    PathLiteralIsRead(Commas(keys), "::text[]))");
  }

  // ---------------------------------------------------------------- the round trip

  lemma {:induction false} CommasSplit(keys: seq<string>, part: string)
    requires AreKeys(keys) && keys != []
    ensures Split(Commas(keys), ',', part) == [part + keys[0]] + keys[1..]
  {
    var key := keys[0];
    assert IsWord(key) && ',' !in key;
    if |keys| == 1 {
      SplitPlain(key, "", ',', part);
      assert key + "" == key;
    } else {
      var rest := "," + Commas(keys[1..]);
      assert Commas(keys) == key + rest && rest[1..] == Commas(keys[1..]);
      SplitPlain(key, rest, ',', part);
      CommasSplit(keys[1..], "");
      assert "" + keys[1] == keys[1] && [keys[1]] + keys[1..][1..] == keys[1..];
    }
  }

  lemma {:induction false} JoinDotsIsDotted(keys: seq<string>)
    requires keys != []
    ensures "." + JoinDots(keys) == Dotted(keys)
  {
    if |keys| > 1 {
      JoinDotsIsDotted(keys[1..]);
      assert "." + (keys[0] + "." + JoinDots(keys[1..])) == "." + keys[0] + ("." + JoinDots(keys[1..]));
    } else {
      assert "." + keys[0] + "" == "." + keys[0];
    }
  }

  lemma KeyIsRooted(key: string)
    requires IsWord(key)
    ensures Rooted(key) == "$." + key
  {
    assert key[0] != '$' && key[0] != '.';
  }

  lemma FoundKey(text: string, field: string, key: string)
    requires Collapse(text) == text && Find(text, false, true) == None && Find(text, false, false) == Some((field, key))
    ensures NormalizeExpression(text) == AccessorText(Accessor(field, Rooted(key)))
  {
  }

  lemma KeyReads(field: string, quoted: bool, key: string)
    requires IsIdentifier(field) && IsWord(key)
    ensures NormalizeExpression(CatalogText(field, quoted, [key])) == AccessorText(Accessor(field, "$." + key))
  {
    var text := CatalogText(field, quoted, [key]);
    CatalogIsCollapsed(field, quoted, [key]);
    NoHashInCatalog(field, quoted, [key]);
    NoHashNothingFound(text, false);
    KeyIsFound(field, quoted, key);
    FoundKey(text, field, key);
    KeyIsRooted(key);
  }

  lemma KeyIsFound(field: string, quoted: bool, key: string)
    requires IsIdentifier(field) && IsWord(key)
    ensures Find(CatalogText(field, quoted, [key]), false, false) == Some((field, key))
  {
    QuoteIsNoSpace();
    KeyTail(key);
    FoundInCatalog(field, quoted, CatalogTail([key]), false, key);
  }

  lemma FoundPath(text: string, field: string, keys: seq<string>)
    requires Collapse(text) == text && AreKeys(keys) && keys != []
    requires Find(text, false, true) == Some((field, Commas(keys)))
    ensures NormalizeExpression(text) == AccessorText(Accessor(field, "$." + JoinDots(keys)))
  {
    hide Find, Collapse, AccessorText, JoinDots, Split, NonEmpty, Commas;
    CommasSplit(keys, "");
    assert "" + keys[0] == keys[0] && [keys[0]] + keys[1..] == keys;
    KeysStay(keys);
  }

  lemma PathReads(field: string, quoted: bool, keys: seq<string>)
    requires IsIdentifier(field) && AreKeys(keys) && |keys| > 1
    ensures NormalizeExpression(CatalogText(field, quoted, keys))
            == AccessorText(Accessor(field, "$." + JoinDots(keys)))
  {
    hide Find, Collapse, MatchPathLiteral, NormalizeExpression, Commas, LiteralText;
    CatalogIsCollapsed(field, quoted, keys);
    QuoteIsNoSpace();
    PathTail(keys);
    FoundInCatalog(field, quoted, CatalogTail(keys), true, Commas(keys));
    FoundPath(CatalogText(field, quoted, keys), field, keys);
  }

  /** What the reader makes of the catalog's text. */
  lemma CatalogReads(field: string, quoted: bool, keys: seq<string>)
    requires IsIdentifier(field) && AreKeys(keys) && keys != []
    ensures NormalizeExpression(CatalogText(field, quoted, keys)) == AccessorText(Accessor(field, "$" + Dotted(keys)))
  {
    JoinDotsIsDotted(keys);
    assert "$." + JoinDots(keys) == "$" + ("." + JoinDots(keys));
    if |keys| == 1 {
      assert keys == [keys[0]] && IsWord(keys[0]);
      KeyReads(field, quoted, keys[0]);
    } else {
      PathReads(field, quoted, keys);
    }
  }

  lemma NoHashInCatalog(field: string, quoted: bool, keys: seq<string>)
    requires IsIdentifier(field) && AreKeys(keys) && |keys| == 1
    ensures '#' !in CatalogText(field, quoted, keys)
  {
    WordEndStops(field);
    assert IsWord(keys[0]);
    assert '#' !in field && '#' !in keys[0];
    assert '#' !in LiteralText(keys);
    assert '#' !in "((" + FieldText(field, quoted);
  }

  predicate NoSubscripts(steps: seq<Step>) {
    forall i | 0 <= i < |steps| :: steps[i].Named?
  }

  /** Steps are written as they read back exactly when none is a subscript. */
  lemma {:induction false} DottedExactlyWhen(steps: seq<Step>)
    requires AreSteps(steps)
    ensures Dotted(Keys(steps)) == PathText(steps) <==> NoSubscripts(steps)
  {
    if steps != [] {
      DottedExactlyWhen(steps[1..]);
      var first := if steps[0].Named? then "." + steps[0].key else "[" + steps[0].digits + "]";
      if steps[0].Named? {
        assert NoSubscripts(steps) <==> NoSubscripts(steps[1..]);
        var a, b := Dotted(Keys(steps[1..])), PathText(steps[1..]);
        assert (first + a)[|first|..] == a && (first + b)[|first|..] == b;
      } else {
        assert Dotted(Keys(steps))[0] == '.' && PathText(steps)[0] == '[';
      }
    }
  }

  lemma NamedText(steps: seq<Step>)
    requires AreSteps(steps) && steps != [] && steps[0].Named?
    ensures |PathText(steps)| >= 2 && PathText(steps)[0] == '.' && IsWordChar(PathText(steps)[1])
  {
    assert IsStep(steps[0]);
  }

  lemma RootedSpelled(steps: seq<Step>, root: bool)
    requires AreSteps(steps) && steps != [] && (root || steps[0].Named?)
    ensures Rooted(Spelled(steps, root)) == "$" + PathText(steps)
  {
    hide PathText;
    if !root {
      var text := PathText(steps);
      NamedText(steps);
      assert DropDots(text[1..]) == text[1..];
      assert "$." + text[1..] == "$" + text;
    }
  }

  lemma SpecIsGraphic(field: string, quote: char, path: string)
    requires IsIdentifier(field) && AllGraphic(path) && (quote == '"' || quote == '\'')
    ensures AllGraphic(AccessorSpec(field, "->>", quote, path))
  {
    IdentifierIsGraphic(field);
    GraphicConcat(field, "->>");
    GraphicConcat(field + "->>", [quote]);
    GraphicConcat(field + "->>" + [quote], path);
    GraphicConcat(field + "->>" + [quote] + path, [quote]);
  }

  /** The canonical spelling of a schema's accessor. */
  lemma SchemaSpelling(field: string, quote: char, steps: seq<Step>, root: bool)
    requires IsIdentifier(field) && (quote == '"' || quote == '\'')
    requires AreSteps(steps) && steps != [] && (root || steps[0].Named?)
    ensures NormalizeSpec(AccessorSpec(field, "->>", quote, Spelled(steps, root)))
            == AccessorText(Accessor(field, "$" + PathText(steps)))
  {
    var path := Spelled(steps, root);
    var spec := AccessorSpec(field, "->>", quote, path);
    SpelledIsHarmless(steps, root);
    SpecIsGraphic(field, quote, path);
    GraphicIsCollapsed(spec);
    NormalOf(spec);
    AccessorIsRead(field, quote, path);
    RawAccessor(spec, field, path);
    RootedSpelled(steps, root);
  }

  lemma {:induction false} DottedIsHarmless(keys: seq<string>)
    requires AreKeys(keys)
    ensures NoQuotes(Dotted(keys)) && AllGraphic(Dotted(keys))
  {
    if keys != [] {
      DottedIsHarmless(keys[1..]);
      assert IsWord(keys[0]);
    }
  }

  lemma ReadBackIsNormal(field: string, keys: seq<string>)
    requires IsIdentifier(field) && AreKeys(keys)
    ensures var text := AccessorText(Accessor(field, "$" + Dotted(keys))); NormalizeSpec(text) == text
  {
    var path := "$" + Dotted(keys);
    DottedIsHarmless(keys);
    GraphicConcat("$", Dotted(keys));
    GraphicIsCollapsed(path);
    NormalAccessor(field, path);
  }

  lemma SameAccessorText(field: string, p: string, q: string)
    ensures AccessorText(Accessor(field, "$" + p)) == AccessorText(Accessor(field, "$" + q)) <==> p == q
  {
    var n := |field| + 5;
    var a, b := AccessorText(Accessor(field, "$" + p)), AccessorText(Accessor(field, "$" + q));
    assert a[n..|a| - 1] == p && b[n..|b| - 1] == q;
  }

  /** An accessor that is converted, created, printed by the catalog and read back has the canonical spelling
      of the schema's accessor exactly when its path has no subscript. */
  lemma AccessorReadsBackExactlyWhen(field: string, quoted: bool, quote: char, steps: seq<Step>, root: bool)
    requires IsIdentifier(field) && (quote == '"' || quote == '\'')
    requires AreSteps(steps) && steps != [] && (root || steps[0].Named?)
    ensures var spec := AccessorSpec(field, "->>", quote, Spelled(steps, root));
            var keys := SplitJsonPath(Spelled(steps, root));
            && Convert(spec) == field + OperatorAndLiteral(keys, true)
            && (NormalizeSpec(NormalizeExpression(CatalogText(field, quoted, keys))) == NormalizeSpec(spec)
                <==> NoSubscripts(steps))
  {
    var keys := Keys(steps);
    SpelledIsHarmless(steps, root);
    ConvertAccessor(field, true, quote, Spelled(steps, root));
    PathIsSplit(steps, root);
    KeysAreKeys(steps);
    CatalogReads(field, quoted, keys);
    ReadBackIsNormal(field, keys);
    SchemaSpelling(field, quote, steps, root);
    SameAccessorText(field, Dotted(keys), PathText(steps));
    DottedExactlyWhen(steps);
  }
}
