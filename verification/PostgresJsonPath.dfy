/** JSON accessors on PostgreSQL (lib/sql-transform/postgresJsonPath.js, lib/dialects/PostgresDialect.js). */
module PostgresJsonPath {
  // From the MySQL spelling of the schema to the operator and literal, and (normalizePostgresIndexExpression)
  // from the catalog's text back to the schema's spelling.

  import opened Wrappers
  import opened Texts
  import opened Words
  import opened Numerals
  import opened IndexColumns

  // ---------------------------------------------------------------- paths

  function StripRoot(p: string): string {
    if p == "" || p[0] != '$' then p
    else if |p| > 1 && p[1] == '.' then p[2..]
    else p[1..]
  }

  /** `replace(/\[(\d+)\]/g, '.$1')`. */
  function SpellSubscripts(s: string): string {
    if s == "" then ""
    else
      var d := if s[0] == '[' then DigitsEnd(s[1..]) else 0;
      if d > 0 && d + 1 < |s| && s[d + 1] == ']' then "." + s[1..d + 1] + SpellSubscripts(s[d + 2..])
      else [s[0]] + SpellSubscripts(s[1..])
  }

  function Split(s: string, sep: char, part: string): seq<string> {
    if s == "" then [part]
    else if s[0] == sep then [part] + Split(s[1..], sep, "")
    else Split(s[1..], sep, part + [s[0]])
  }

  /** The parts, trimmed, without the empty ones. */
  function NonEmpty(parts: seq<string>): seq<string> {
    if parts == [] then [] else (if Trim(parts[0]) == "" then [] else [Trim(parts[0])]) + NonEmpty(parts[1..])
  }

  function SplitJsonPath(path: string): seq<string> {
    NonEmpty(Split(SpellSubscripts(StripRoot(path)), '.', ""))
  }

  function Doubled(s: string): string {
    if s == "" then "" else (if s[0] == '\'' then "''" else [s[0]]) + Doubled(s[1..])
  }

  function JoinKeys(keys: seq<string>): string {
    if keys == [] then "" else if |keys| == 1 then Doubled(keys[0]) else Doubled(keys[0]) + "," + JoinKeys(keys[1..])
  }

  /** `jsonPathToPostgres`: the operator and the literal, side by side. */
  function OperatorAndLiteral(keys: seq<string>, wantsText: bool): string {
    if |keys| <= 1 then (if wantsText then "->>" else "->") + "'" + JoinKeys(keys) + "'"
    else (if wantsText then "#>>" else "#>") + "'{" + JoinKeys(keys) + "}'"
  }

  // ---------------------------------------------------------------- conversion

  datatype Match = Match(wantsText: bool, path: string, length: nat)

  function SpacesEnd(s: string): (n: nat)
    ensures n <= |s|
  {
    if s == "" || !IsSpace(s[0]) then 0 else 1 + SpacesEnd(s[1..])
  }

  /** How far a text goes without a quote of either kind. */
  function QuoteAt(s: string): (n: nat)
    ensures n <= |s|
  {
    if s == "" || s[0] == '"' || s[0] == '\'' then 0 else 1 + QuoteAt(s[1..])
  }

  function QuotedPath(r: string): Option<string> {
    if r == "" || (r[0] != '"' && r[0] != '\'') then None
    else
      var n := QuoteAt(r[1..]);
      if n > 0 && n + 1 < |r| && r[n + 1] == r[0] then Some(r[1..n + 1]) else None
  }

  /** `/(->>?)\s*(['"])([^'"]+)\2/` at the front. */
  function MatchAccessor(s: string): (m: Option<Match>)
    ensures m.Some? ==> 0 < m.value.length <= |s|
    ensures m.Some? ==> s[0] == '-'
  {
    if |s| < 2 || s[0] != '-' || s[1] != '>' then None
    else
      var o := if |s| > 2 && s[2] == '>' then 3 else 2;
      var w := SpacesEnd(s[o..]);
      match QuotedPath(s[o + w..])
      case None => None
      case Some(path) => Some(Match(o == 3, path, o + w + |path| + 2))
  }

  /** `convertJsonAccessorsToPostgres`. */
  function Convert(s: string): string {
    if s == "" then ""
    else
      match MatchAccessor(s)
      case Some(m) => OperatorAndLiteral(SplitJsonPath(m.path), m.wantsText) + Convert(s[m.length..])
      case None => [s[0]] + Convert(s[1..])
  }

  // ---------------------------------------------------------------- the catalog's text

  /** `["(]?\b([a-zA-Z_][a-zA-Z0-9_]*)"?\s*` at the front; `inWord` says that a word character precedes. */
  function MatchField(s: string, inWord: bool): Option<(string, string)> {
    var bracket := s != "" && (s[0] == '"' || s[0] == '(');
    var t := if bracket then s[1..] else s;
    var n := WordEnd(t);
    if (!bracket && inWord) || n == 0 || !IsWordStart(t[0]) then None
    else
      var rest := if n < |t| && t[n] == '"' then t[n + 1..] else t[n..];
      Some((t[..n], TrimStart(rest)))
  }

  /** `#>>?\s*'\{([^}]*)\}'` behind the field. */
  function MatchPathLiteral(rest: string): Option<string> {
    if |rest| < 2 || rest[0] != '#' || rest[1] != '>' then None
    else
      var literal := TrimStart(if |rest| > 2 && rest[2] == '>' then rest[3..] else rest[2..]);
      if |literal| < 2 || literal[0] != '\'' || literal[1] != '{' then None
      else
        var n := IndexOf(literal[2..], '}');
        if n + 3 < |literal| && literal[n + 3] == '\'' then Some(literal[2..n + 2]) else None
  }

  /** `->>\s*'([^']+)'` behind the field. */
  function MatchKeyLiteral(rest: string): Option<string> {
    if |rest| < 3 || rest[..3] != "->>" then None
    else
      var literal := TrimStart(rest[3..]);
      if literal == "" || literal[0] != '\'' then None
      else
        var n := IndexOf(literal[1..], '\'');
        if n > 0 && n + 1 < |literal| then Some(literal[1..n + 1]) else None
  }

  /** A field with a literal, at the front. */
  function MatchAt(s: string, inWord: bool, nested: bool): Option<(string, string)> {
    match MatchField(s, inWord)
    case None => None
    case Some(m) =>
      match (if nested then MatchPathLiteral(m.1) else MatchKeyLiteral(m.1))
      case None => None
      case Some(literal) => Some((m.0, literal))
  }

  /** The leftmost match. */
  function Find(s: string, inWord: bool, nested: bool): Option<(string, string)> {
    if s == "" then None
    else if MatchAt(s, inWord, nested).Some? then MatchAt(s, inWord, nested)
    else Find(s[1..], IsWordChar(s[0]), nested)
  }

  function JoinDots(keys: seq<string>): string {
    if keys == [] then "" else if |keys| == 1 then keys[0] else keys[0] + "." + JoinDots(keys[1..])
  }

  function NormalizeExpression(expression: string): string {
    var normalized := Collapse(expression);
    match Find(normalized, false, true)
    case Some(m) => AccessorText(Accessor(m.0, "$." + JoinDots(NonEmpty(Split(m.1, ',', "")))))
    case None =>
      match Find(normalized, false, false)
      case Some(m) => AccessorText(Accessor(m.0, Rooted(m.1)))
      case None => expression
  }

  // ---------------------------------------------------------------- accessors as schemas write them

  datatype Step = Named(key: string) | Subscript(digits: string)

  function KeyOf(step: Step): string {
    match step
    case Named(key) => key
    case Subscript(digits) => digits
  }

  predicate IsStep(step: Step) {
    KeyOf(step) != "" && forall i | 0 <= i < |KeyOf(step)| ::
      if step.Named? then IsWordChar(step.key[i]) else IsDigit(step.digits[i])
  }

  predicate AreSteps(steps: seq<Step>) {
    forall i | 0 <= i < |steps| :: IsStep(steps[i])
  }

  function Keys(steps: seq<Step>): seq<string> {
    if steps == [] then [] else [KeyOf(steps[0])] + Keys(steps[1..])
  }

  /** The steps behind the root: `.key` or `[n]` each. */
  function PathText(steps: seq<Step>): string {
    if steps == [] then ""
    else (if steps[0].Named? then "." + steps[0].key else "[" + steps[0].digits + "]") + PathText(steps[1..])
  }

  /** A path with its root, or without it and then without the first dot. */
  function Spelled(steps: seq<Step>, root: bool): string
    requires steps != [] && (root || steps[0].Named?)
  {
    if root then "$" + PathText(steps) else PathText(steps)[1..]
  }

  function AccessorSpec(field: string, operator: string, quote: char, path: string): string {
    field + operator + [quote] + path + [quote]
  }

  predicate AreKeys(keys: seq<string>) {
    forall i | 0 <= i < |keys| :: IsWord(keys[i])
  }

  function Dotted(keys: seq<string>): string {
    if keys == [] then "" else "." + keys[0] + Dotted(keys[1..])
  }

  lemma {:induction false} KeysAreKeys(steps: seq<Step>)
    requires AreSteps(steps)
    ensures AreKeys(Keys(steps)) && |Keys(steps)| == |steps|
  {
    if steps != [] { KeysAreKeys(steps[1..]); }
  }

  lemma {:induction false} SpellPlain(plain: string, rest: string)
    requires '[' !in plain
    ensures SpellSubscripts(plain + rest) == plain + SpellSubscripts(rest)
  {
    if plain == "" {
      assert plain + rest == rest;
    } else {
      assert (plain + rest)[1..] == plain[1..] + rest;
      assert plain[0] in plain;
      SpellPlain(plain[1..], rest);
    }
  }

  lemma SpellSubscript(digits: string, rest: string)
    requires digits != "" && forall i | 0 <= i < |digits| :: IsDigit(digits[i])
    ensures SpellSubscripts("[" + digits + "]" + rest) == "." + digits + SpellSubscripts(rest)
  {
    var s := "[" + digits + "]" + rest;
    assert s[1..] == digits + ("]" + rest);
    DigitsEndAt(digits, "]" + rest);
    assert s[1..|digits| + 1] == digits && s[|digits| + 1] == ']' && s[|digits| + 2..] == rest;
  }

  lemma {:induction false} SpellPath(steps: seq<Step>)
    requires AreSteps(steps)
    ensures SpellSubscripts(PathText(steps)) == Dotted(Keys(steps))
  {
    if steps != [] {
      SpellPath(steps[1..]);
      match steps[0]
      case Named(key) => SpellPlain("." + key, PathText(steps[1..]));
      case Subscript(digits) => SpellSubscript(digits, PathText(steps[1..]));
    }
  }

  lemma {:induction false} SplitPlain(plain: string, rest: string, sep: char, part: string)
    requires sep !in plain
    ensures Split(plain + rest, sep, part) == Split(rest, sep, part + plain)
  {
    if plain == "" {
      assert plain + rest == rest && part + plain == part;
    } else {
      assert (plain + rest)[1..] == plain[1..] + rest;
      assert plain[0] in plain;
      SplitPlain(plain[1..], rest, sep, part + [plain[0]]);
      assert part + [plain[0]] + plain[1..] == part + plain;
    }
  }

  lemma SplitAtSeparator(sep: char, rest: string, part: string)
    ensures Split([sep] + rest, sep, part) == [part] + Split(rest, sep, "")
  {
    assert ([sep] + rest)[1..] == rest;
  }

  lemma {:induction false} SplitDotted(keys: seq<string>, part: string)
    requires AreKeys(keys)
    ensures Split(Dotted(keys), '.', part) == [part] + keys
  {
    if keys != [] {
      hide Split;
      var key, more := keys[0], Dotted(keys[1..]);
      assert IsWord(key);
      assert Dotted(keys) == ['.'] + (key + more);
      SplitAtSeparator('.', key + more, part);
      SplitPlain(key, more, '.', "");
      assert "" + key == key;
      SplitDotted(keys[1..], key);
      assert [key] + keys[1..] == keys;
    }
  }

  lemma KeyIsTrimmed(key: string)
    requires IsWord(key)
    ensures Trim(key) == key
  {
    assert AllGraphic(key);
    GraphicIsCollapsed(key);
    TrimTrimmed(key);
  }

  lemma {:induction false} KeysStay(keys: seq<string>)
    requires AreKeys(keys)
    ensures NonEmpty(keys) == keys && NonEmpty([""] + keys) == keys
  {
    assert ([""] + keys)[1..] == keys;
    assert Trim("") == "";
    if keys != [] {
      KeyIsTrimmed(keys[0]);
      KeysStay(keys[1..]);
    }
  }

  /** What is left without the root: nothing, or the text without its first dot. */
  lemma RootIsStripped(steps: seq<Step>, root: bool)
    requires AreSteps(steps) && steps != [] && (root || steps[0].Named?)
    ensures StripRoot(Spelled(steps, root)) == if steps[0].Named? then PathText(steps)[1..] else PathText(steps)
  {
    var text := PathText(steps);
    assert ("$" + text)[1..] == text;
    if steps[0].Named? {
      assert text[0] == '.' && text[1] == steps[0].key[0];
      assert ("$" + text)[2..] == text[1..];
    } else {
      assert text[0] == '[';
    }
  }

  lemma FirstKeyIsSplit(key: string, rest: seq<Step>)
    requires IsWord(key) && AreSteps(rest)
    ensures Split(SpellSubscripts(key + PathText(rest)), '.', "") == [key] + Keys(rest)
  {
    SpellPlain(key, PathText(rest));
    SpellPath(rest);
    KeysAreKeys(rest);
    SplitPlain(key, Dotted(Keys(rest)), '.', "");
    assert "" + key == key;
    SplitDotted(Keys(rest), key);
  }

  lemma NamedPathText(steps: seq<Step>)
    requires steps != [] && steps[0].Named?
    ensures PathText(steps) == "." + (steps[0].key + PathText(steps[1..]))
    ensures PathText(steps)[1..] == steps[0].key + PathText(steps[1..])
  {
  }

  lemma NamedIsSplit(steps: seq<Step>)
    requires AreSteps(steps) && steps != [] && steps[0].Named?
    ensures Split(SpellSubscripts(PathText(steps)[1..]), '.', "") == Keys(steps)
  {
    hide Split, SpellSubscripts, PathText;
    assert IsStep(steps[0]) && KeyOf(steps[0]) == steps[0].key;
    NamedPathText(steps);
    FirstKeyIsSplit(steps[0].key, steps[1..]);
  }

  lemma SubscriptIsSplit(steps: seq<Step>)
    requires AreSteps(steps)
    ensures Split(SpellSubscripts(PathText(steps)), '.', "") == [""] + Keys(steps)
  {
    KeysAreKeys(steps);
    SpellPath(steps);
    SplitDotted(Keys(steps), "");
  }

  /** Splitting the text of a path gives its steps. */
  lemma PathIsSplit(steps: seq<Step>, root: bool)
    requires AreSteps(steps) && steps != [] && (root || steps[0].Named?)
    ensures SplitJsonPath(Spelled(steps, root)) == Keys(steps)
  {
    var text := StripRoot(Spelled(steps, root));
    RootIsStripped(steps, root);
    if steps[0].Named? { NamedIsSplit(steps); } else { SubscriptIsSplit(steps); }
    KeysAreKeys(steps);
    KeysStay(Keys(steps));
  }

  // ---------------------------------------------------------------- conversion of an accessor

  lemma {:induction false} QuoteAtEnd(path: string, q: char, rest: string)
    requires NoQuotes(path) && (q == '"' || q == '\'')
    ensures QuoteAt(path + [q] + rest) == |path|
  {
    if path == "" {
      assert path + [q] + rest == [q] + rest;
    } else {
      assert (path + [q] + rest)[1..] == path[1..] + [q] + rest;
      QuoteAtEnd(path[1..], q, rest);
    }
  }

  lemma QuotedPathIsRead(path: string, q: char, rest: string)
    requires NoQuotes(path) && path != "" && (q == '"' || q == '\'')
    ensures QuotedPath([q] + path + [q] + rest) == Some(path)
  {
    var r := [q] + path + [q] + rest;
    assert r[1..] == path + [q] + rest;
    QuoteAtEnd(path, q, rest);
    assert r[1..|path| + 1] == path && r[|path| + 1] == q;
  }

  function Arrow(wantsText: bool): string {
    if wantsText then "->>" else "->"
  }

  lemma AccessorIsMatched(wantsText: bool, path: string, q: char, rest: string)
    requires NoQuotes(path) && path != "" && (q == '"' || q == '\'')
    ensures MatchAccessor(Arrow(wantsText) + ([q] + path + [q] + rest))
            == Some(Match(wantsText, path, |Arrow(wantsText)| + |path| + 2))
  {
    var quoted := [q] + path + [q] + rest;
    var s := Arrow(wantsText) + quoted;
    QuotedPathIsRead(path, q, rest);
    GraphicIsNoSpace(q);
    var o := |Arrow(wantsText)|;
    assert s[o..] == quoted && quoted[0..] == quoted && quoted[0] == q;
    assert SpacesEnd(quoted) == 0 && s[o + 0..] == quoted;
    assert s[2] == if wantsText then '>' else q;
  }

  lemma {:induction false} ConvertSkips(plain: string, rest: string)
    requires forall i | 0 <= i < |plain| :: plain[i] != '-'
    ensures Convert(plain + rest) == plain + Convert(rest)
  {
    hide MatchAccessor, OperatorAndLiteral, SplitJsonPath;
    if plain == "" {
      assert plain + rest == rest;
    } else {
      assert (plain + rest)[1..] == plain[1..] + rest;
      ConvertSkips(plain[1..], rest);
    }
  }

  lemma ConvertAccessor(field: string, wantsText: bool, quote: char, path: string)
    requires IsIdentifier(field) && NoQuotes(path) && path != "" && (quote == '"' || quote == '\'')
    ensures Convert(AccessorSpec(field, Arrow(wantsText), quote, path))
            == field + OperatorAndLiteral(SplitJsonPath(path), wantsText)
  {
    var s := Arrow(wantsText) + ([quote] + path + [quote] + "");
    assert AccessorSpec(field, Arrow(wantsText), quote, path) == field + s;
    WordEndStops(field);
    ConvertSkips(field, s);
    AccessorIsMatched(wantsText, path, quote, "");
    assert s[|Arrow(wantsText)| + |path| + 2..] == "";
    var o := OperatorAndLiteral(SplitJsonPath(path), wantsText);
    assert o + "" == o;
  }

  // ---------------------------------------------------------------- steps have harmless texts

  predicate IsPathChar(c: char) {
    IsWordChar(c) || c == '.' || c == '[' || c == ']' || c == '$'
  }

  lemma {:induction false} PathChars(steps: seq<Step>)
    requires AreSteps(steps)
    ensures forall i | 0 <= i < |PathText(steps)| :: IsPathChar(PathText(steps)[i])
    ensures steps != [] ==> |PathText(steps)| >= 2
  {
    if steps != [] {
      PathChars(steps[1..]);
      assert IsStep(steps[0]);
    }
  }

  lemma SpelledIsHarmless(steps: seq<Step>, root: bool)
    requires AreSteps(steps) && steps != [] && (root || steps[0].Named?)
    ensures Spelled(steps, root) != "" && NoQuotes(Spelled(steps, root)) && AllGraphic(Spelled(steps, root))
  {
    hide PathText;
    PathChars(steps);
    var text := Spelled(steps, root);
    forall i | 0 <= i < |text| ensures IsPathChar(text[i]) {
      if root {
        assert i > 0 ==> text[i] == PathText(steps)[i - 1];
      } else {
        assert text[i] == PathText(steps)[i + 1];
      }
    }
  }

  lemma {:induction false} DoubledKey(key: string)
    requires '\'' !in key
    ensures Doubled(key) == key
  {
    if key != "" {
      assert key[0] in key;
      DoubledKey(key[1..]);
    }
  }

  /** Keys joined with commas, quotes not occurring. */
  function Commas(keys: seq<string>): string {
    if keys == [] then "" else if |keys| == 1 then keys[0] else keys[0] + "," + Commas(keys[1..])
  }

  lemma {:induction false} JoinedKeys(keys: seq<string>)
    requires AreKeys(keys)
    ensures JoinKeys(keys) == Commas(keys)
    ensures forall i | 0 <= i < |Commas(keys)| :: IsWordChar(Commas(keys)[i]) || Commas(keys)[i] == ','
  {
    if keys != [] {
      DoubledKey(keys[0]);
      JoinedKeys(keys[1..]);
    }
  }

  /** An accessor with one key keeps its operator; with more keys it becomes a path operator with an array. */
  lemma ConvertedText(field: string, wantsText: bool, quote: char, steps: seq<Step>, root: bool)
    requires IsIdentifier(field) && (quote == '"' || quote == '\'')
    requires AreSteps(steps) && steps != [] && (root || steps[0].Named?)
    ensures var keys := Keys(steps);
            Convert(field + (if wantsText then "->>" else "->") + [quote] + Spelled(steps, root) + [quote])
            == if |keys| == 1 then field + (if wantsText then "->>" else "->") + "'" + keys[0] + "'"
               else field + (if wantsText then "#>>" else "#>") + "'{" + Commas(keys) + "}'"
  {
    hide Convert, Spelled, Commas, AreSteps, OperatorAndLiteral, SplitJsonPath, AccessorSpec;
    SpelledIsHarmless(steps, root);
    ConvertAccessor(field, wantsText, quote, Spelled(steps, root));
    AccessorSpecText(field, wantsText, quote, Spelled(steps, root));
    PathIsSplit(steps, root);
    KeysAreKeys(steps);
    KeysText(field, wantsText, Keys(steps));
  }

  lemma AccessorSpecText(field: string, wantsText: bool, quote: char, path: string)
    ensures AccessorSpec(field, Arrow(wantsText), quote, path)
            == field + (if wantsText then "->>" else "->") + [quote] + path + [quote]
  {
  }

  lemma KeysText(field: string, wantsText: bool, keys: seq<string>)
    requires AreKeys(keys) && keys != []
    ensures field + OperatorAndLiteral(keys, wantsText)
            == if |keys| == 1 then field + (if wantsText then "->>" else "->") + "'" + keys[0] + "'"
               else field + (if wantsText then "#>>" else "#>") + "'{" + Commas(keys) + "}'"
  {
    JoinedKeys(keys);
    hide Commas, JoinKeys, AreKeys;
    if |keys| == 1 {
      OneKeyIsAlone(keys);
      LiteralBehind(field, if wantsText then "->>" else "->", "'", Commas(keys), "'");
    } else {
      LiteralBehind(field, if wantsText then "#>>" else "#>", "'{", Commas(keys), "}'");
    }
  }

  lemma LiteralBehind(field: string, operator: string, open: string, content: string, close: string)
    ensures field + (operator + open + content + close) == field + operator + open + content + close
  {
  }

  lemma OneKeyIsAlone(keys: seq<string>)
    requires |keys| == 1
    ensures Commas(keys) == keys[0]
  {
  }

  /** Converting an accessor twice is converting it once. */
  lemma ConvertTwice(field: string, wantsText: bool, quote: char, steps: seq<Step>, root: bool)
    requires IsIdentifier(field) && (quote == '"' || quote == '\'')
    requires AreSteps(steps) && steps != [] && (root || steps[0].Named?)
    ensures var spec := AccessorSpec(field, Arrow(wantsText), quote, Spelled(steps, root));
            Convert(Convert(spec)) == Convert(spec)
  {
    SpelledIsHarmless(steps, root);
    ConvertAccessor(field, wantsText, quote, Spelled(steps, root));
    PathIsSplit(steps, root);
    KeysAreKeys(steps);
    ConvertedStays(field, wantsText, Keys(steps));
  }

  lemma SingleKeyStays(field: string, wantsText: bool, key: string)
    requires IsIdentifier(field) && IsWord(key)
    ensures var converted := AccessorSpec(field, Arrow(wantsText), '\'', key); Convert(converted) == converted
  {
    ConvertAccessor(field, wantsText, '\'', key);
    SingleKeyIsSplit(key);
    DoubledKey(key);
    SingleKeyText(field, wantsText, key);
  }

  lemma SingleKeyText(field: string, wantsText: bool, key: string)
    requires Doubled(key) == key
    ensures field + OperatorAndLiteral([key], wantsText) == AccessorSpec(field, Arrow(wantsText), '\'', key)
  {
    assert OperatorAndLiteral([key], wantsText) == Arrow(wantsText) + "'" + key + "'";
    assert "'" == ['\''];
  }

  lemma SingleKeyIsSplit(key: string)
    requires IsWord(key)
    ensures SplitJsonPath(key) == [key]
  {
    var steps := [Named(key)];
    assert PathText(steps) == "." + key + PathText(steps[1..]) == "." + key;
    assert PathText(steps)[1..] == key;
    PathIsSplit(steps, false);
    assert Keys(steps) == [key];
  }

  lemma NestedStays(field: string, wantsText: bool, keys: seq<string>)
    requires IsIdentifier(field) && AreKeys(keys) && |keys| > 1
    ensures var converted := field + OperatorAndLiteral(keys, wantsText); Convert(converted) == converted
  {
    var literal := OperatorAndLiteral(keys, wantsText);
    JoinedKeys(keys);
    WordEndStops(field);
    assert forall i | 0 <= i < |literal| :: literal[i] != '-';
    ConvertSkips(field + literal, "");
    assert field + literal + "" == field + literal;
  }

  lemma ConvertedStays(field: string, wantsText: bool, keys: seq<string>)
    requires IsIdentifier(field) && AreKeys(keys) && keys != []
    ensures var converted := field + OperatorAndLiteral(keys, wantsText); Convert(converted) == converted
  {
    if |keys| == 1 {
      assert keys == [keys[0]] && IsWord(keys[0]);
      SingleKeyStays(field, wantsText, keys[0]);
      DoubledKey(keys[0]);
      SingleKeyText(field, wantsText, keys[0]);
    } else {
      NestedStays(field, wantsText, keys);
    }
  }
}
