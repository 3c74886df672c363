/** Index columns as schemas write them, the checks sync makes on them and the spelling it wants
    (lib/sync-to-db.js). */
module IndexSpecs {
  import opened Wrappers
  import opened Texts
  import opened Words
  import opened Numerals
  import opened IndexColumns

  // ---------------------------------------------------------------- sync's view of a column

  predicate NoLineBreak(s: string) {
    forall i | 0 <= i < |s| :: s[i] != '\n' && s[i] != '\r' && s[i] != '\U{2028}' && s[i] != '\U{2029}'
  }

  /** `/^([a-zA-Z][a-zA-Z0-9_]*?)([\s()].*)?$/`: the name and what follows it. */
  function SplitColumn(col: string): Option<(string, string)> {
    var n := WordEnd(col);
    if n == 0 || !IsWordStart(col[0]) || col[0] == '_' then None
    else
      var args := col[n..];
      if args == "" then Some((col[..n], ""))
      else if (IsSpace(args[0]) || args[0] == '(' || args[0] == ')') && NoLineBreak(args[1..]) then
        Some((col[..n], args))
      else None
  }

  /** A leading `(N)`, which a full-text index never has; the text without it. */
  function DropLength(args: string): string {
    var s := TrimStart(args);
    if s == "" || s[0] != '(' then args
    else
      var t := TrimStart(s[1..]);
      var d := DigitsEnd(t);
      var u := TrimStart(t[d..]);
      if d > 0 && u != "" && u[0] == ')' then u[1..] else args
  }

  /** What sync puts in `validatedCols`. */
  function ValidatedColumn(col: string, fulltext: bool): Option<string> {
    match SplitColumn(col)
    case None => None
    case Some((name, args)) => Some(name + if fulltext then DropLength(args) else args)
  }

  predicate StartsWithDirection(args: string) {
    var s := Lower(TrimStart(args));
    (|s| >= 3 && s[..3] == "asc") || (|s| >= 4 && s[..4] == "desc")
  }

  /** The column as the desired signature has it, before normalisation; `length` is what sync finds under its name
      in `textLengths`. */
  function DesiredColumn(col: string, length: Option<string>): string {
    match SplitColumn(col)
    case None => col
    case Some((name, args)) =>
      if TrimStart(args) != "" && TrimStart(args)[0] == '(' then col
      else if length.Some? then name + ("(" + (length.value + (")" + if StartsWithDirection(args) then args else "")))
      else col
  }

  function NameOf(col: string): string {
    match SplitColumn(col)
    case None => ""
    case Some((name, _)) => name
  }

  predicate HasAccessor(col: string) {
    |col| >= 3 && (col[..3] == "->>" || HasAccessor(col[1..]))
  }

  /** The checks on one column: an accessor needs a known field, a plain column too. */
  function CheckColumn(fields: set<string>, col: string, fulltext: bool): Option<string> {
    if HasAccessor(col) then
      if col[..WordEnd(col)] in fields then Some(col) else None
    else if NameOf(col) !in fields then None
    else ValidatedColumn(col, fulltext)
  }

  /** The properties every object inherits, with their texts: an object that is used as a table has them too. */
  type Inherited = map<string, string>

  function InheritedText(inherited: Inherited, name: string): Option<string> {
    if name in inherited then Some(inherited[name]) else None
  }

  /** The columns of the desired signature where sync records no lengths: `textLengths` is empty but for what it
      inherits. */
  function DesiredColumns(inherited: Inherited, cols: seq<string>): seq<string> {
    seq(|cols|, i requires 0 <= i < |cols| => DesiredColumn(cols[i], InheritedText(inherited, NameOf(cols[i]))))
  }

  function NormalizeAll(cols: seq<string>): seq<string> {
    seq(|cols|, i requires 0 <= i < |cols| => NormalizeSpec(cols[i]))
  }

  // ---------------------------------------------------------------- columns as schemas write them

  /** A name, a prefix length and a direction: "" or a blank with `asc` or `desc` in any case. */
  datatype Spec = Spec(name: string, prefix: Option<nat>, direction: string)

  predicate IsSpec(s: Spec) {
    && IsIdentifier(s.name) && s.name[0] != '_'
    && (s.prefix.Some? ==> s.prefix.value > 0)
    && (s.direction == "" || (s.direction[0] == ' ' && (IsAscending(s) || IsDescending(s))))
  }

  predicate IsAscending(s: Spec) {
    s.direction != "" && Lower(s.direction[1..]) == "asc"
  }

  predicate IsDescending(s: Spec) {
    s.direction != "" && Lower(s.direction[1..]) == "desc"
  }

  function LengthText(prefix: Option<nat>): string {
    match prefix
    case None => ""
    case Some(n) => "(" + Decimal(n) + ")"
  }

  function SpecText(s: Spec): string {
    s.name + (LengthText(s.prefix) + s.direction)
  }

  // ---------------------------------------------------------------- their texts

  lemma {:induction false} LowerLetters(word: string)
    ensures |Lower(word)| == |word|
    ensures forall i | 0 <= i < |word| :: Lower(word)[i] == LowerChar(word[i])
  {
    if word != "" { LowerLetters(word[1..]); }
  }

  predicate AllLetters(s: string) {
    forall i | 0 <= i < |s| :: 'a' <= LowerChar(s[i]) <= 'z'
  }

  lemma WordOfLetters(word: string)
    requires Lower(word) == "asc" || Lower(word) == "desc"
    ensures AllLetters(word) && word != ""
  {
    LowerLetters(word);
    var low := Lower(word);
    assert forall i | 0 <= i < |low| :: 'a' <= low[i] <= 'z';
  }

  /** A direction is a blank and letters. */
  lemma DirectionLetters(s: Spec)
    requires IsSpec(s) && s.direction != ""
    ensures AllLetters(s.direction[1..]) && |s.direction| >= 4
    ensures TrimStart(s.direction) == s.direction[1..]
    ensures AsDirection(s.direction) == Some(if IsDescending(s) then " DESC" else " ASC")
    ensures StartsWithDirection(s.direction)
  {
    var word := s.direction[1..];
    WordOfLetters(word);
    LowerLetters(word);
    BlankIsSpace();
    GraphicIsNoSpace(word[0]);
    assert TrimStart(s.direction) == TrimStart(word) == word;
    assert Lower(word)[..3] == "asc" || Lower(word)[..4] == "desc";
  }

  predicate IsArgsStart(c: char) {
    c == ' ' || c == '('
  }

  predicate IsArgsChar(c: char) {
    c == ' ' || IsGraphic(c)
  }

  /** What follows the name of a spec. */
  function Args(s: Spec): string {
    LengthText(s.prefix) + s.direction
  }

  lemma ArgsChars(s: Spec)
    requires IsSpec(s)
    ensures Args(s) != "" ==> IsArgsStart(Args(s)[0])
    ensures forall i | 0 <= i < |Args(s)| :: IsArgsChar(Args(s)[i]) && Args(s)[i] != '>'
  {
    var length := LengthText(s.prefix);
    assert forall i | 0 <= i < |length| :: IsArgsChar(length[i]) && length[i] != '>';
    if s.direction != "" {
      DirectionLetters(s);
      var word := s.direction[1..];
      forall i | 0 <= i < |s.direction| ensures IsArgsChar(s.direction[i]) && s.direction[i] != '>' {
        if i > 0 { assert s.direction[i] == word[i - 1]; }
      }
    }
  }

  lemma SpecIsSplit(s: Spec)
    requires IsSpec(s)
    ensures WordEnd(SpecText(s)) == |s.name|
    ensures SpecText(s)[..|s.name|] == s.name && SpecText(s)[|s.name|..] == Args(s)
    ensures SplitColumn(SpecText(s)) == Some((s.name, Args(s)))
  {
    ArgsChars(s);
    IdentifierThen(s.name, Args(s));
    BlankIsSpace();
    assert SpecText(s)[|s.name|..] == Args(s);
    assert NoLineBreak(Args(s));
  }

  lemma {:induction false} AccessorNeedsArrow(col: string)
    requires '>' !in col
    ensures !HasAccessor(col)
  {
    if |col| >= 3 {
      assert col[..3][1] == col[1] && col[1] in col;
      AccessorNeedsArrow(col[1..]);
    }
  }

  lemma NoAccessor(s: Spec)
    requires IsSpec(s)
    ensures !HasAccessor(SpecText(s))
  {
    ArgsChars(s);
    WordEndStops(s.name);
    var col := SpecText(s);
    forall i | 0 <= i < |col| ensures col[i] != '>' {
      if i < |s.name| { assert col[i] == s.name[i]; } else { assert col[i] == Args(s)[i - |s.name|]; }
    }
    AccessorNeedsArrow(col);
  }

  lemma NameOfSpec(s: Spec)
    requires IsSpec(s)
    ensures NameOf(SpecText(s)) == s.name && !HasAccessor(SpecText(s))
  {
    SpecIsSplit(s);
    NoAccessor(s);
  }

  lemma LengthIsDropped(prefix: Option<nat>)
    ensures DropLength(LengthText(prefix) + "") == ""
  {
    if prefix.Some? {
      var digits := Decimal(prefix.value);
      var s := LengthText(prefix) + "";
      GraphicIsNoSpace('(');
      GraphicIsNoSpace(')');
      GraphicIsNoSpace(digits[0]);
      assert TrimStart(s) == s && s[1..] == digits + ")";
      DigitsEndAt(digits, ")");
      assert (digits + ")")[|digits|..] == ")";
    }
  }

  /** A full-text index drops the length; otherwise the text stays as it is. */
  lemma SpecIsValidated(s: Spec)
    requires IsSpec(s)
    ensures ValidatedColumn(SpecText(s), false) == Some(SpecText(s))
    ensures s.direction == "" ==> ValidatedColumn(SpecText(s), true) == Some(s.name)
  {
    SpecIsSplit(s);
    LengthIsDropped(s.prefix);
    assert s.name + "" == s.name;
  }

  // ---------------------------------------------------------------- accessors

  lemma AccessorIsUnsplit(field: string, rest: string)
    requires IsIdentifier(field) && rest != "" && rest[0] == '-'
    ensures SplitColumn(field + rest) == None
  {
    IdentifierThen(field, rest);
    assert (field + rest)[|field|..] == rest;
    GraphicIsNoSpace('-');
  }

  lemma {:induction false} AccessorIsThere(field: string, rest: string)
    requires |rest| >= 3 && rest[..3] == "->>"
    ensures HasAccessor(field + rest)
  {
    if field == "" {
      assert field + rest == rest;
    } else {
      assert (field + rest)[1..] == field[1..] + rest;
      AccessorIsThere(field[1..], rest);
    }
  }

  /** A JSON accessor as schemas write it. */
  lemma AccessorIsSeen(field: string, quote: char, path: string)
    requires IsIdentifier(field) && path != "" && NoQuotes(path) && (quote == '"' || quote == '\'')
    ensures var col := field + "->>" + [quote] + path + [quote];
            && HasAccessor(col) && AsAccessor(col) == Some(Accessor(field, path)) && col[..WordEnd(col)] == field
            && SplitColumn(col) == None
  {
    var rest := "->>" + ([quote] + path + [quote]);
    assert !IsWordChar(rest[0]);
    hide *;
    assert field + "->>" + [quote] + path + [quote] == field + rest;
    AccessorIsThere(field, rest);
    AccessorIsRead(field, quote, path);
    IdentifierThen(field, rest);
    AccessorIsUnsplit(field, rest);
  }

  // ---------------------------------------------------------------- their normal spelling

  lemma LengthIsGraphic(prefix: Option<nat>)
    ensures AllGraphic(LengthText(prefix))
  {
  }

  lemma SpecDirectionIsCollapsed(s: Spec)
    requires IsSpec(s) && s.direction != ""
    ensures IsCollapsed(s.direction) && !IsSpace(s.direction[|s.direction| - 1])
  {
    DirectionLetters(s);
    var word := s.direction[1..];
    assert AllGraphic(word);
    GraphicIsCollapsed(word);
    BlankIsSpace();
    CollapsedCons(' ', word);
    assert [' '] + word == s.direction;
  }

  lemma SpecTextIsNormal(s: Spec)
    requires IsSpec(s)
    ensures IsTrimmed(SpecText(s)) && IsCollapsed(SpecText(s))
  {
    var head := s.name + LengthText(s.prefix);
    IdentifierIsGraphic(s.name);
    LengthIsGraphic(s.prefix);
    GraphicConcat(s.name, LengthText(s.prefix));
    GraphicIsCollapsed(head);
    if s.direction != "" {
      SpecDirectionIsCollapsed(s);
      CollapsedConcat(head, s.direction);
    }
    assert SpecText(s) == head + s.direction;
  }

  /** The normalised spelling: only a column without a length gets its direction in capitals. */
  function NormalText(s: Spec): string {
    if s.prefix.Some? then SpecText(s)
    else s.name + (if s.direction == "" then "" else if IsDescending(s) then " DESC" else " ASC")
  }

  lemma SpecIsNoAccessor(s: Spec)
    requires IsSpec(s)
    ensures AsAccessor(SpecText(s)) == None
  {
    ArgsChars(s);
    SpecIsSplit(s);
    assert Args(s) != "" ==> SpecText(s)[|s.name|] == Args(s)[0];
    NotAnAccessor(SpecText(s));
  }

  lemma LengthIsNoDirection(s: Spec)
    requires IsSpec(s) && s.prefix.Some?
    ensures Args(s) != "" && Args(s)[0] == '(' && AsDirection(Args(s)) == None
  {
    GraphicIsNoSpace('(');
  }

  lemma SpecIsPlain(s: Spec)
    requires IsSpec(s)
    ensures AsPlain(SpecText(s)) == if s.prefix.Some? then None
            else Some(Plain(s.name, if s.direction == "" then "" else if IsDescending(s) then " DESC" else " ASC"))
  {
    ArgsChars(s);
    PlainIsRead(s.name, Args(s));
    if s.prefix.Some? {
      LengthIsNoDirection(s);
    } else {
      assert Args(s) == s.direction;
      if s.direction != "" { DirectionLetters(s); }
    }
  }

  lemma NormalSpec(s: Spec)
    requires IsSpec(s)
    ensures NormalizeSpec(SpecText(s)) == NormalText(s)
  {
    SpecTextIsNormal(s);
    NormalOf(SpecText(s));
    SpecIsNoAccessor(s);
    SpecIsPlain(s);
  }

  /** The desired column of a spec: a length found under its name stands in for a missing one. */
  lemma DesiredOfSpec(s: Spec, length: Option<string>)
    requires IsSpec(s)
    ensures DesiredColumn(SpecText(s), length)
            == if s.prefix.Some? || length.None? then SpecText(s)
               else s.name + ("(" + (length.value + (")" + s.direction)))
  {
    SpecIsSplit(s);
    GraphicIsNoSpace('(');
    if s.prefix.None? {
      assert Args(s) == s.direction;
      if s.direction != "" {
        DirectionLetters(s);
        assert LowerChar('(') == '(';
      }
    } else {
      assert Args(s)[0] == '(' && TrimStart(Args(s)) == Args(s);
    }
  }

  lemma SameNameSameRest(name: string, a: string, b: string)
    ensures name + a == name + b <==> a == b
  {
    assert (name + a)[|name|..] == a && (name + b)[|name|..] == b;
  }

  // ---------------------------------------------------------------- columns named like a property of every object

  lemma {:induction false} CollapseGraphic(a: string, rest: string)
    requires AllGraphic(a)
    ensures Collapse(a + rest) == a + Collapse(rest)
  {
    if a == "" {
      assert a + rest == rest;
    } else {
      GraphicIsNoSpace(a[0]);
      assert (a + rest)[1..] == a[1..] + rest;
      CollapseGraphic(a[1..], rest);
    }
  }

  lemma RawWithBracket(name: string, tail: string)
    requires IsIdentifier(name)
    ensures NormalizeRaw(name + ("(" + tail)) == name + ("(" + tail)
  {
    hide AsDirection, Lower;
    var rest := "(" + tail;
    IdentifierThen(name, rest);
    NotAnAccessor(name + rest);
    PlainIsRead(name, rest);
    BracketIsNoDirection(tail);
  }

  lemma BracketIsNoDirection(tail: string)
    ensures AsDirection("(" + tail) == None
  {
    GraphicIsNoSpace('(');
  }

  lemma TrimmedWithBracket(name: string, tail: string)
    requires IsIdentifier(name) && tail != "" && !IsSpace(tail[|tail| - 1])
    ensures Trim(name + ("(" + tail)) == name + ("(" + tail)
  {
    hide IsSpace;
    var x := name + ("(" + tail);
    IdentifierIsGraphic(name);
    GraphicIsNoSpace(name[0]);
    assert x[|x| - 1] == tail[|tail| - 1];
    TrimTrimmed(x);
  }

  /** A name with an opening parenthesis behind it stays as it is, but for the white space further on. */
  lemma NormalWithBracket(name: string, tail: string)
    requires IsIdentifier(name) && tail != "" && !IsSpace(tail[|tail| - 1])
    ensures NormalizeSpec(name + ("(" + tail)) == name + ("(" + Collapse(tail))
  {
    hide IsSpace, Trim, Collapse, NormalizeRaw, AllGraphic;
    TrimmedWithBracket(name, tail);
    IdentifierIsGraphic(name);
    BracketIsGraphic();
    GraphicConcat(name, "(");
    CollapseGraphic(name + "(", tail);
    assert name + "(" + tail == name + ("(" + tail);
    assert name + "(" + Collapse(tail) == name + ("(" + Collapse(tail));
    RawWithBracket(name, Collapse(tail));
  }

  lemma BracketIsGraphic()
    ensures AllGraphic("(")
  {
  }

  /** Where sync finds an inherited text for a length, no report of the column has the spelling it wants. */
  lemma InheritedIsNeverReported(s: Spec, text: string, direction: string)
    requires IsSpec(s) && s.prefix.None? && (direction == "" || direction[0] == ' ')
    ensures NormalizeSpec(DesiredColumn(SpecText(s), Some(text))) != s.name + direction
  {
    DesiredOfSpec(s, Some(text));
    var tail := text + (")" + s.direction);
    GraphicIsNoSpace(')');
    if s.direction != "" { SpecDirectionIsCollapsed(s); }
    assert tail[|tail| - 1] == (")" + s.direction)[|s.direction|];
    NormalWithBracket(s.name, tail);
    assert (s.name + ("(" + Collapse(tail)))[|s.name|] == '(';
  }

  // ---------------------------------------------------------------- what the checks let through

  /** A column without an accessor: a word and what stands behind it. */
  predicate IsWordAnd(word: string, rest: string) {
    IsWord(word) && '>' !in rest && (rest == "" || !IsWordChar(rest[0]))
  }

  lemma WordIsSplit(word: string, rest: string)
    requires IsWordAnd(word, rest)
    ensures var col := word + rest;
            !HasAccessor(col) && WordEnd(col) == |word| && col[..|word|] == word && col[|word|..] == rest
  {
    WordEndAt(word, rest);
    assert '>' !in word + rest;
    AccessorNeedsArrow(word + rest);
  }

  /** A column is let through exactly when its name is one of the table and begins with a letter, and behind it stands
      nothing, or white space or a parenthesis and no line break further on; it is let through as it is. */
  lemma CheckedExactlyWhen(fields: set<string>, word: string, rest: string)
    requires IsWordAnd(word, rest) && "" !in fields
    ensures CheckColumn(fields, word + rest, false)
            == if word in fields && ('a' <= word[0] <= 'z' || 'A' <= word[0] <= 'Z')
                  && (rest == ""
                      || ((IsSpace(rest[0]) || rest[0] == '(' || rest[0] == ')')
                          && forall i | 1 <= i < |rest| ::
                               rest[i] as int != 10 && rest[i] as int != 13
                               && rest[i] as int != 0x2028 && rest[i] as int != 0x2029))
               then Some(word + rest) else None
  {
    WordIsSplit(word, rest);
    assert word + "" == word;
    LineBreaks(rest);
    hide NoLineBreak;
  }

  lemma LineBreaks(rest: string)
    ensures rest != "" ==>
              (NoLineBreak(rest[1..]) <==>
                 forall i | 1 <= i < |rest| ::
                   rest[i] as int != 10 && rest[i] as int != 13
                   && rest[i] as int != 0x2028 && rest[i] as int != 0x2029)
  {
    if rest != "" {
      assert forall i | 1 <= i < |rest| :: rest[i] == rest[1..][i - 1];
      assert forall i | 0 <= i < |rest[1..]| :: rest[1..][i] == rest[i + 1];
    }
  }

  lemma ArgsAreSplit(name: string, args: string)
    requires IsIdentifier(name) && name[0] != '_' && '>' !in args && NoLineBreak(args)
    requires args == "" || args[0] == '(' || args[0] == ' '
    ensures SplitColumn(name + args) == Some((name, args)) && !HasAccessor(name + args)
  {
    WordEndStops(name);
    BlankIsSpace();
    WordIsSplit(name, args);
  }

  lemma DigitsAreHarmless(digits: string)
    requires forall i | 0 <= i < |digits| :: IsDigit(digits[i])
    ensures NoLineBreak(digits) && '>' !in digits
  {
    assert forall i | 0 <= i < |digits| :: IsDigit(digits[i]);
  }

  /** A full-text column loses its length, and nothing else in parentheses. */
  lemma FulltextLengthIsDropped(fields: set<string>, name: string, digits: string, rest: string)
    requires IsIdentifier(name) && name[0] != '_' && name in fields && '>' !in rest && NoLineBreak(rest)
    requires digits != "" && forall i | 0 <= i < |digits| :: IsDigit(digits[i])
    ensures CheckColumn(fields, name + ("(" + (digits + (")" + rest))), true) == Some(name + rest)
    ensures CheckColumn(fields, name + ("(" + (digits + "")), true) == Some(name + ("(" + digits))
  {
    DigitsAreHarmless(digits);
    assert NoLineBreak("(" + (digits + (")" + rest))) && NoLineBreak("(" + (digits + ""));
    assert (")" + rest)[1..] == rest;
    LengthArgs(digits, ")" + rest);
    LengthArgs(digits, "");
    hide DropLength, SplitColumn, HasAccessor, NoLineBreak, IsIdentifier;
    ArgsAreSplit(name, "(" + (digits + (")" + rest)));
    ArgsAreSplit(name, "(" + (digits + ""));
  }

  /** Reading a length: the digits behind the parenthesis, and what follows them. */
  lemma LengthArgs(digits: string, tail: string)
    requires digits != "" && forall i | 0 <= i < |digits| :: IsDigit(digits[i])
    requires tail == "" || (tail[0] == ')' && !IsDigit(tail[0]))
    ensures DropLength("(" + (digits + tail)) == if tail == "" then "(" + digits else tail[1..]
  {
    var args := "(" + (digits + tail);
    GraphicIsNoSpace('(');
    GraphicIsNoSpace(digits[0]);
    if tail != "" { GraphicIsNoSpace(')'); }
    assert TrimStart(args) == args && args[1..] == digits + tail;
    assert TrimStart(digits + tail) == digits + tail;
    DigitsEndAt(digits, tail);
    assert (digits + tail)[|digits|..] == tail && TrimStart(tail) == tail;
    assert digits + "" == digits;
  }

  /** Where a length is recorded for a column without one, it is put behind the name; what follows is kept when it
      begins like a direction, in any case, and lost otherwise. */
  lemma LengthIsPutBehind(name: string, word: string, length: string)
    requires IsIdentifier(name) && name[0] != '_' && IsWord(word)
    ensures DesiredColumn(name, Some(length)) == name + "(" + length + ")"
    ensures DesiredColumn(name + (" " + word), Some(length))
            == name + "(" + length + ")"
               + if (|word| >= 3 && Spells(word[..3], "asc")) || (|word| >= 4 && Spells(word[..4], "desc"))
                 then " " + word else ""
    ensures DesiredColumn(name + (" " + word), None) == name + (" " + word)
  {
    var rest := " " + word;
    BlankIsSpace();
    GraphicIsNoSpace(word[0]);
    assert rest[1..] == word && TrimStart(rest) == TrimStart(word) == word;
    assert NoLineBreak(rest) && '>' !in rest && TrimStart("") == "" && word[0] != '(';
    assert name + "" == name;
    StartsLike(word);
    hide StartsWithDirection, SplitColumn, HasAccessor, NoLineBreak, TrimStart, Spells, IsIdentifier, IsWord;
    ArgsAreSplit(name, "");
    ArgsAreSplit(name, rest);
    PutBehind(name, length, "");
    PutBehind(name, length, rest);
  }

  lemma PutBehind(name: string, length: string, tail: string)
    ensures name + ("(" + (length + (")" + tail))) == name + "(" + length + ")" + tail
    ensures name + "(" + length + ")" + "" == name + "(" + length + ")"
  {
  }

  lemma StartsLike(word: string)
    requires IsWord(word)
    ensures StartsWithDirection(" " + word)
            <==> (|word| >= 3 && Spells(word[..3], "asc")) || (|word| >= 4 && Spells(word[..4], "desc"))
    ensures !StartsWithDirection("")
  {
    BlankIsSpace();
    GraphicIsNoSpace(word[0]);
    var rest := " " + word;
    assert rest[1..] == word && TrimStart(rest) == TrimStart(word) == word;
    LowerOfLower(word);
    if |word| >= 3 { LowerPrefix(word, 3); SpellsExactlyWhen(word[..3], "asc"); }
    if |word| >= 4 { LowerPrefix(word, 4); SpellsExactlyWhen(word[..4], "desc"); }
  }

  lemma {:induction false} LowerPrefix(s: string, n: nat)
    requires n <= |s|
    ensures |Lower(s)| == |s| && Lower(s)[..n] == Lower(s[..n])
  {
    LowerOfLower(s);
    if n > 0 {
      LowerPrefix(s[1..], n - 1);
      assert s[..n][1..] == s[1..][..n - 1];
      assert Lower(s) == [LowerChar(s[0])] + Lower(s[1..]);
    }
  }
}
