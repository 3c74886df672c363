/** The spelling of one index column that signatures compare (normalizeIndexColumnSpec of lib/sync-to-db.js). */
module IndexColumns {
  import opened Wrappers
  import opened Texts
  import opened Words

  predicate IsIdentifier(s: string) {
    s != "" && IsWordStart(s[0]) && WordEnd(s) == |s|
  }

  /** `field->>"path"` or `field->>'path'`. */
  datatype Accessor = Accessor(field: string, path: string)

  predicate NoQuotes(s: string) {
    forall i | 0 <= i < |s| :: s[i] != '"' && s[i] != '\''
  }

  function AsAccessor(raw: string): Option<Accessor> {
    var n := WordEnd(raw);
    if n > 0 && IsWordStart(raw[0]) && |raw| >= n + 6 && raw[n..n + 3] == "->>"
       && (raw[n + 3] == '"' || raw[n + 3] == '\'') && raw[|raw| - 1] == raw[n + 3]
       && NoQuotes(raw[n + 4..|raw| - 1])
    then Some(Accessor(raw[..n], raw[n + 4..|raw| - 1]))
    else None
  }

  function DropDots(s: string): string {
    if s != "" && s[0] == '.' then DropDots(s[1..]) else s
  }

  function Rooted(path: string): string {
    if path != "" && path[0] == '$' then path else "$." + DropDots(path)
  }

  function AccessorText(a: Accessor): string {
    a.field + "->>\"" + a.path + "\""
  }

  /** A plain column, possibly in quotes, with a direction or without. */
  datatype Plain = Plain(name: string, direction: string)

  predicate IsColumnQuote(c: char) {
    c == '"' || c == '`'
  }

  function DropQuote(s: string): string {
    if s != "" && IsColumnQuote(s[0]) then s[1..] else s
  }

  /** ` asc` and ` desc` in any case; "" for nothing at all. */
  function AsDirection(s: string): Option<string> {
    if s == "" then Some("")
    else if !IsSpace(s[0]) then None
    else
      var word := Lower(TrimStart(s));
      if word == "asc" then Some(" ASC") else if word == "desc" then Some(" DESC") else None
  }

  function AsPlain(raw: string): Option<Plain> {
    var s := DropQuote(raw);
    var n := WordEnd(s);
    if n == 0 || !IsWordStart(s[0]) then None
    else
      match AsDirection(DropQuote(s[n..]))
      case None => None
      case Some(direction) => Some(Plain(s[..n], direction))
  }

  function NormalizeRaw(raw: string): string {
    match AsAccessor(raw)
    case Some(a) => AccessorText(a.(path := Rooted(a.path)))
    case None =>
      match AsPlain(raw)
      case Some(p) => p.name + p.direction
      case None => raw
  }

  function NormalizeSpec(col: string): string {
    NormalizeRaw(Collapse(Trim(col)))
  }

  // ---------------------------------------------------------------- reading texts of a known form

  lemma WordPrefix(s: string)
    ensures WordEnd(s[..WordEnd(s)]) == WordEnd(s)
  {
    WordEndStops(s);
    WordEndAt(s[..WordEnd(s)], "");
    assert s[..WordEnd(s)] + "" == s[..WordEnd(s)];
  }

  lemma IdentifierThen(field: string, rest: string)
    requires IsIdentifier(field) && (rest == "" || !IsWordChar(rest[0]))
    ensures WordEnd(field + rest) == |field|
  {
    WordEndStops(field);
    WordEndAt(field, rest);
  }

  lemma AccessorIsRead(field: string, q: char, path: string)
    requires IsIdentifier(field) && path != "" && NoQuotes(path) && (q == '"' || q == '\'')
    ensures AsAccessor(field + "->>" + [q] + path + [q]) == Some(Accessor(field, path))
  {
    var raw := field + "->>" + [q] + path + [q];
    var n := |field|;
    assert raw == field + ("->>" + [q] + path + [q]);
    IdentifierThen(field, "->>" + [q] + path + [q]);
    assert raw[..n] == field && raw[n..n + 3] == "->>" && raw[n + 3] == q && raw[n + 4..|raw| - 1] == path;
  }

  lemma NotAnAccessor(raw: string)
    requires WordEnd(raw) == |raw| || raw[WordEnd(raw)] != '-'
    ensures AsAccessor(raw) == None
  {
    var n := WordEnd(raw);
    assert |raw| >= n + 6 ==> raw[n..n + 3][0] == raw[n];
  }

  lemma DirectionsRead()
    ensures AsDirection(" ASC") == Some(" ASC") && AsDirection(" DESC") == Some(" DESC")
  {
    BlankIsSpace();
    assert TrimStart(" ASC") == TrimStart("ASC") == "ASC";
    assert TrimStart(" DESC") == TrimStart("DESC") == "DESC";
    assert Lower("ASC") == "asc" && Lower("DESC") == "desc";
  }

  /** A column with what follows it, unquoted. */
  lemma PlainIsRead(name: string, rest: string)
    requires IsIdentifier(name) && (rest == "" || (!IsWordChar(rest[0]) && !IsColumnQuote(rest[0])))
    ensures AsPlain(name + rest) == (match AsDirection(rest)
                                     case None => None
                                     case Some(direction) => Some(Plain(name, direction)))
  {
    IdentifierThen(name, rest);
    assert (name + rest)[|name|..] == rest && (name + rest)[..|name|] == name;
    assert DropQuote(name + rest) == name + rest;
    assert DropQuote(rest) == rest;
  }

  // ---------------------------------------------------------------- once is enough

  lemma RawOfNormal(col: string)
    ensures IsTrimmed(Collapse(Trim(col))) && IsCollapsed(Collapse(Trim(col)))
  {
    TrimTrims(col);
    CollapseTrimmed(Trim(col));
  }

  /** Normalising the spelling of a column twice is normalising it once, whatever the column says. */
  lemma NormalizeIsIdempotent(col: string)
    ensures NormalizeSpec(NormalizeSpec(col)) == NormalizeSpec(col)
  {
    var raw := Collapse(Trim(col));
    RawOfNormal(col);
    match AsAccessor(raw)
    case Some(a) => AccessorStays(raw, a);
    case None =>
      match AsPlain(raw)
      case Some(p) => PlainStays(raw, p);
      case None =>
        TrimTrimmed(raw);
        CollapseCollapsed(raw);
  }

  lemma NormalOf(text: string)
    requires IsTrimmed(text) && IsCollapsed(text)
    ensures NormalizeSpec(text) == NormalizeRaw(text)
  {
    TrimTrimmed(text);
    CollapseCollapsed(text);
  }

  lemma {:induction false} DropDotsIsSuffix(s: string) returns (k: nat)
    ensures k <= |s| && DropDots(s) == s[k..]
  {
    k := 0;
    if s != "" && s[0] == '.' {
      k := DropDotsIsSuffix(s[1..]);
      k := k + 1;
    }
  }

  lemma RootedIsSame(path: string)
    requires NoQuotes(path) && IsCollapsed(path)
    ensures NoQuotes(Rooted(path)) && IsCollapsed(Rooted(path))
    ensures Rooted(path) != "" && Rooted(path)[0] == '$' && Rooted(Rooted(path)) == Rooted(path)
  {
    var k := DropDotsIsSuffix(path);
    CollapsedPart(path, k, |path|);
    assert path[k..|path|] == path[k..];
    GraphicIsCollapsed("$.");
    CollapsedConcat("$.", path[k..]);
  }

  lemma IdentifierIsGraphic(s: string)
    requires IsIdentifier(s)
    ensures AllGraphic(s)
  {
    WordEndStops(s);
  }

  /** The text of an accessor is one that trimming and collapsing leave alone. */
  lemma AccessorTextIsNormal(field: string, path: string)
    requires IsIdentifier(field) && IsCollapsed(path)
    ensures IsTrimmed(AccessorText(Accessor(field, path))) && IsCollapsed(AccessorText(Accessor(field, path)))
  {
    IdentifierIsGraphic(field);
    assert AllGraphic(field + "->>\"");
    GraphicIsCollapsed(field + "->>\"");
    GraphicIsCollapsed("\"");
    CollapsedConcat(path, "\"");
    CollapsedConcat(field + "->>\"", path + "\"");
    assert field + "->>\"" + (path + "\"") == AccessorText(Accessor(field, path));
    GraphicIsNoSpace(field[0]);
    GraphicIsNoSpace('"');
  }

  lemma AccessorTextQuoted(field: string, path: string)
    ensures AccessorText(Accessor(field, path)) == field + "->>" + ['"'] + path + ['"']
  {
    assert "->>\"" == "->>" + ['"'] && "\"" == ['"'];
    assert field + ("->>" + ['"']) == field + "->>" + ['"'];
  }

  lemma RawAccessor(raw: string, field: string, path: string)
    requires AsAccessor(raw) == Some(Accessor(field, path))
    ensures NormalizeRaw(raw) == AccessorText(Accessor(field, Rooted(path)))
  {
  }

  lemma NormalAccessor(field: string, path: string)
    requires IsIdentifier(field) && IsCollapsed(path) && NoQuotes(path) && path != ""
    ensures NormalizeSpec(AccessorText(Accessor(field, path))) == AccessorText(Accessor(field, Rooted(path)))
  {
    var text := AccessorText(Accessor(field, path));
    AccessorTextIsNormal(field, path);
    NormalOf(text);
    AccessorTextQuoted(field, path);
    AccessorIsRead(field, '"', path);
    RawAccessor(text, field, path);
  }

  lemma AccessorStays(raw: string, a: Accessor)
    requires IsCollapsed(raw) && AsAccessor(raw) == Some(a)
    ensures NormalizeSpec(NormalizeRaw(raw)) == NormalizeRaw(raw)
  {
    var n := WordEnd(raw);
    WordPrefix(raw);
    CollapsedPart(raw, n + 4, |raw| - 1);
    RootedIsSame(a.path);
    NormalAccessor(a.field, Rooted(a.path));
  }

  lemma DirectionIsNormal(direction: string)
    requires direction == " ASC" || direction == " DESC"
    ensures IsCollapsed(direction) && !IsSpace(direction[|direction| - 1])
  {
    var word := direction[1..];
    assert AllGraphic(word);
    GraphicIsCollapsed(word);
    BlankIsSpace();
    CollapsedCons(' ', word);
    assert [' '] + word == direction;
    GraphicIsNoSpace('C');
  }

  lemma PlainTextIsNormal(name: string, direction: string)
    requires IsIdentifier(name) && (direction == "" || direction == " ASC" || direction == " DESC")
    ensures IsTrimmed(name + direction) && IsCollapsed(name + direction)
  {
    IdentifierIsGraphic(name);
    GraphicIsCollapsed(name);
    if direction != "" {
      DirectionIsNormal(direction);
      CollapsedConcat(name, direction);
    } else {
      assert name + direction == name;
    }
  }

  lemma NormalPlain(name: string, direction: string)
    requires IsIdentifier(name) && (direction == "" || direction == " ASC" || direction == " DESC")
    ensures NormalizeSpec(name + direction) == name + direction
  {
    PlainTextIsNormal(name, direction);
    NormalOf(name + direction);
    IdentifierThen(name, direction);
    NotAnAccessor(name + direction);
    PlainIsRead(name, direction);
    DirectionsRead();
  }

  lemma PlainStays(raw: string, p: Plain)
    requires AsAccessor(raw) == None && AsPlain(raw) == Some(p)
    ensures NormalizeSpec(NormalizeRaw(raw)) == NormalizeRaw(raw)
  {
    WordPrefix(DropQuote(raw));
    NormalPlain(p.name, p.direction);
  }

  // ---------------------------------------------------------------- spellings that mean the same

  lemma WrittenIsNormal(field: string, a: char, path: string, b: char)
    requires IsIdentifier(field) && AllGraphic(path) && '!' <= a <= '~' && '!' <= b <= '~'
    ensures var raw := field + "->>" + [a] + path + [b]; IsTrimmed(raw) && IsCollapsed(raw)
  {
    IdentifierIsGraphic(field);
    var raw := field + "->>" + [a] + path + [b];
    GraphicIsCollapsed(raw);
    GraphicIsNoSpace(raw[0]);
    GraphicIsNoSpace(b);
  }

  lemma {:induction false} DotsAreDropped(dots: string, rest: string)
    requires (forall i | 0 <= i < |dots| :: dots[i] == '.') && (rest == "" || rest[0] != '.')
    ensures DropDots(dots + rest) == rest
  {
    if dots == "" {
      assert dots + rest == rest;
    } else {
      assert (dots + rest)[1..] == dots[1..] + rest;
      DotsAreDropped(dots[1..], rest);
    }
  }

  lemma SpellingOf(field: string, q: char, path: string)
    requires IsIdentifier(field) && AllGraphic(path) && NoQuotes(path) && path != "" && (q == '"' || q == '\'')
    ensures NormalizeSpec(field + "->>" + [q] + path + [q]) == field + "->>\"" + Rooted(path) + "\""
  {
    hide IsTrimmed, IsCollapsed, AllGraphic, AsAccessor, Rooted, NormalizeSpec;
    var raw := field + "->>" + [q] + path + [q];
    WrittenIsNormal(field, q, path, q);
    NormalOf(raw);
    AccessorIsRead(field, q, path);
    RawAccessor(raw, field, path);
  }

  /** An accessor is spelled with double quotes and a rooted path, whichever quotes it had; dots in front are lost. */
  lemma AccessorSpelling(field: string, q: char, dots: string, rest: string)
    requires IsIdentifier(field) && (q == '"' || q == '\'') && dots + rest != ""
    requires AllGraphic(rest) && NoQuotes(rest) && forall i | 0 <= i < |dots| :: dots[i] == '.'
    requires rest == "" || (rest[0] != '.' && (rest[0] == '$' ==> dots == ""))
    ensures NormalizeSpec(field + "->>" + [q] + (dots + rest) + [q])
            == field + "->>\"" + (if rest != "" && rest[0] == '$' then rest else "$." + rest) + "\""
  {
    hide NormalizeSpec;
    assert AllGraphic(dots + rest) && NoQuotes(dots + rest);
    SpellingOf(field, q, dots + rest);
    DotsAreDropped(dots, rest);
    if rest != "" && rest[0] == '$' { assert dots + rest == rest; }
  }

  lemma MixedIsNoAccessor(field: string, q: char, path: string, r: char)
    requires IsIdentifier(field) && q != r
    ensures AsAccessor(field + "->>" + [q] + path + [r]) == None
  {
    var raw, rest := field + "->>" + [q] + path + [r], "->>" + ([q] + path + [r]);
    assert raw == field + rest;
    IdentifierThen(field, rest);
    assert raw[|field| + 3] == q && raw[|raw| - 1] == r;
  }

  lemma ArrowIsNoDirection(field: string, rest: string)
    requires IsIdentifier(field) && rest != "" && rest[0] == '-'
    ensures AsPlain(field + rest) == None
  {
    PlainIsRead(field, rest);
    GraphicIsNoSpace('-');
  }

  /** A text whose quotes do not match is no accessor. */
  lemma MixedQuotesStay(field: string, q: char, path: string, r: char)
    requires IsIdentifier(field) && AllGraphic(path) && (q == '"' || q == '\'') && (r == '"' || r == '\'') && q != r
    ensures var raw := field + "->>" + [q] + path + [r]; NormalizeSpec(raw) == raw
  {
    hide IsTrimmed, IsCollapsed, AllGraphic, AsAccessor, AsPlain, NormalizeSpec;
    var raw, rest := field + "->>" + [q] + path + [r], "->>" + ([q] + path + [r]);
    WrittenIsNormal(field, q, path, r);
    NormalOf(raw);
    MixedIsNoAccessor(field, q, path, r);
    assert raw == field + rest;
    ArrowIsNoDirection(field, rest);
  }

  /** A column without quotes, in double quotes or in backticks, is its name. */
  lemma NameSpelling(name: string, q: string)
    requires IsIdentifier(name) && q in ["", "\"", "`"]
    ensures NormalizeSpec(q + name + q) == name
  {
    var raw := q + name + q;
    IdentifierIsGraphic(name);
    assert AllGraphic(raw);
    GraphicIsCollapsed(raw);
    GraphicIsNoSpace(raw[0]);
    GraphicIsNoSpace(raw[|raw| - 1]);
    NormalOf(raw);
    QuotedIsPlain(name, q, "");
    assert raw + "" == raw && name + "" == name;
  }

  lemma QuotedIsPlain(name: string, q: string, rest: string)
    requires IsIdentifier(name) && q in ["", "\"", "`"] && (rest == "" || rest[0] == ' ')
    ensures AsPlain(q + name + q + rest)
            == (match AsDirection(rest) case None => None case Some(direction) => Some(Plain(name, direction)))
    ensures AsAccessor(q + name + q + rest) == None
  {
    var raw := q + name + q + rest;
    var behind := q + rest;
    assert raw == q + (name + behind);
    assert DropQuote(raw) == name + behind;
    IdentifierThen(name, behind);
    assert (name + behind)[|name|..] == behind && (name + behind)[..|name|] == name;
    assert DropQuote(behind) == rest;
    if q == "" { assert raw == name + rest; }
    NotAnAccessor(raw);
  }

  /** A direction in any case is spelled in capitals. */
  lemma DirectionSpelling(name: string, q: string, word: string)
    requires IsIdentifier(name) && q in ["", "\"", "`"] && (Spells(word, "asc") || Spells(word, "desc"))
    ensures NormalizeSpec(q + name + q + " " + word)
            == name + if |word| == 3 then " ASC" else " DESC"
  {
    var raw, rest := q + name + q + " " + word, " " + word;
    SpellsExactlyWhen(word, "asc");
    SpellsExactlyWhen(word, "desc");
    assert raw == q + name + q + rest;
    IdentifierIsGraphic(name);
    assert AllGraphic(q + name + q) && AllGraphic(word);
    GraphicIsCollapsed(q + name + q);
    GraphicIsCollapsed(word);
    BlankBetween(q + name + q, word);
    BlankIsSpace();
    GraphicIsNoSpace(word[0]);
    assert rest[1..] == word && TrimStart(rest) == TrimStart(word) == word;
    NormalOf(raw);
    QuotedIsPlain(name, q, rest);
  }
}
