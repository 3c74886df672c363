/** The placeholder step of transformSqlWithScanner, and what the positional statement means once prepareParams has
    lined the values up (lib/sql-transform/PostgresSqlTransformer.js, lib/dialects/PostgresDialect.js). */
module PostgresBinding {
  import opened Numerals
  import opened Words
  import opened PostgresTokens
  import opened PostgresParams

  // ---------------------------------------------------------------- the order of the parameters

  predicate UsesKey(uses: seq<Use>, key: string) {
    exists i | 0 <= i < |uses| :: uses[i].key == key
  }

  /** The names in the order of their first use, without those in `skip`. */
  function FirstUses(uses: seq<Use>, skip: set<string>): seq<string> {
    if uses == [] then []
    else
      var order := FirstUses(uses[..|uses| - 1], skip);
      var key := uses[|uses| - 1].key;
      if key in skip || key in order then order else order + [key]
  }

  /** The index of the first use of a name. */
  function FirstUse(uses: seq<Use>, key: string): (n: nat)
    ensures n <= |uses|
    ensures n < |uses| ==> uses[n].key == key
    ensures forall i | 0 <= i < n :: uses[i].key != key
  {
    if uses == [] || uses[0].key == key then 0 else 1 + FirstUse(uses[1..], key)
  }

  predicate NoDuplicates(order: seq<string>) {
    forall i, j | 0 <= i < j < |order| :: order[i] != order[j]
  }

  /** Exactly the names used and not skipped, each once, by first use. */
  ghost predicate IsFirstUseOrder(order: seq<string>, uses: seq<Use>, skip: set<string>) {
    && NoDuplicates(order)
    && (forall key :: key in order <==> key !in skip && UsesKey(uses, key))
    && forall i, j | 0 <= i < j < |order| :: FirstUse(uses, order[i]) < FirstUse(uses, order[j])
  }

  lemma FirstUseIn(uses: seq<Use>, use: Use, key: string)
    ensures UsesKey(uses, key) ==> FirstUse(uses + [use], key) == FirstUse(uses, key) < |uses|
    ensures !UsesKey(uses, key) && use.key == key ==> FirstUse(uses + [use], key) == |uses|
    ensures UsesKey(uses + [use], key) <==> UsesKey(uses, key) || use.key == key
  {
    var more := uses + [use];
    assert more[|uses|] == use;
    assert forall i | 0 <= i < |uses| :: more[i] == uses[i];
    var n := FirstUse(more, key);
    if UsesKey(uses, key) {
      var m := FirstUse(uses, key);
      assert more[m].key == key;
    }
  }

  lemma {:induction false} FirstUsesIsOrder(uses: seq<Use>, skip: set<string>)
    ensures IsFirstUseOrder(FirstUses(uses, skip), uses, skip)
  {
    if uses != [] {
      var init, last := uses[..|uses| - 1], uses[|uses| - 1];
      assert uses == init + [last];
      FirstUsesIsOrder(init, skip);
      forall key ensures UsesKey(uses, key) <==> UsesKey(init, key) || last.key == key
      {
        FirstUseIn(init, last, key);
      }
      var order := FirstUses(uses, skip);
      forall i, j | 0 <= i < j < |order| ensures FirstUse(uses, order[i]) < FirstUse(uses, order[j]) {
        FirstUseIn(init, last, order[i]);
        FirstUseIn(init, last, order[j]);
        assert order[i] in FirstUses(init, skip);
      }
    }
  }

  // ---------------------------------------------------------------- transformSqlWithScanner

  /** What `key in paramMap` and `paramMap[key]` see besides the entries the code makes: the properties every
      object literal inherits (`constructor`, `toString`, `__proto__`, ...), with their texts. */
  type Inherited = map<string, string>

  /** What is inserted for a name. */
  function MarkerOf(index: map<string, nat>, inherited: Inherited, key: string): string {
    "$" + (if key in index then Decimal(index[key]) else if key in inherited then inherited[key] else "undefined")
  }

  /** `paramMap` once `paramOrder` is complete: each name's place, counted from one. */
  function PlacesOf(order: seq<string>): map<string, nat> {
    if order == [] then map[] else PlacesOf(order[..|order| - 1])[order[|order| - 1] := |order|]
  }

  lemma {:induction false} PlacesOfNames(order: seq<string>)
    ensures forall key :: key in PlacesOf(order) <==> key in order
  {
    if order != [] {
      PlacesOfNames(order[..|order| - 1]);
      assert order == order[..|order| - 1] + [order[|order| - 1]];
    }
  }

  lemma {:induction false} PlacesOfAt(order: seq<string>, i: nat)
    requires NoDuplicates(order) && i < |order|
    ensures order[i] in PlacesOf(order) && PlacesOf(order)[order[i]] == i + 1
  {
    if i < |order| - 1 { PlacesOfAt(order[..|order| - 1], i); }
  }

  function MarkersFor(order: seq<string>, inherited: Inherited, keys: seq<string>): map<string, string> {
    map key | key in keys :: MarkerOf(PlacesOf(order), inherited, key)
  }

  /** The texts of the inherited properties hold no colon and no dollar sign and start with no digit. */
  predicate Harmless(inherited: Inherited) {
    forall key | key in inherited ::
      inherited[key] != "" && ':' !in inherited[key] && '$' !in inherited[key] && !IsDigit(inherited[key][0])
  }

  function Rendered(t: Segment, markers: map<string, string>): string {
    match t
    case Code(text) => Substitute(text, markers)
    case Name(content) => "\"" + content + "\""
    case _ => t.text
  }

  lemma {:induction false} UsesAreNames(text: string, names: set<string>, offset: nat)
    ensures forall i | 0 <= i < |UsesIn(text, names, offset)| :: UsesIn(text, names, offset)[i].key in names
    decreases |text|
  {
    if text != "" {
      var word := if text[0] == ':' then WordAfterColon(text) else "";
      if word in names && word != "" {
        UsesAreNames(text[|word| + 1..], names, offset + |word| + 1);
      } else {
        UsesAreNames(text[1..], names, offset + 1);
      }
    }
  }

  lemma {:induction false} AllUsesAreNames(tokens: seq<Segment>, names: set<string>, offset: nat)
    ensures forall i | 0 <= i < |AllUses(tokens, names, offset)| :: AllUses(tokens, names, offset)[i].key in names
  {
    if tokens != [] {
      if tokens[0].Code? { UsesAreNames(tokens[0].text, names, offset); }
      AllUsesAreNames(tokens[1..], names, offset + Width(tokens[0]));
    }
  }

  lemma OrderIsNames(tokens: seq<Segment>, keys: seq<string>, inherited: Inherited)
    ensures forall i | 0 <= i < |FirstUses(AllUses(tokens, KeySet(keys), 0), inherited.Keys)| ::
              FirstUses(AllUses(tokens, KeySet(keys), 0), inherited.Keys)[i] in keys
  {
    var uses := AllUses(tokens, KeySet(keys), 0);
    var order := FirstUses(uses, inherited.Keys);
    FirstUsesIsOrder(uses, inherited.Keys);
    AllUsesAreNames(tokens, KeySet(keys), 0);
    forall i | 0 <= i < |order| ensures order[i] in keys {
      assert UsesKey(uses, order[i]);
    }
  }

  function ParamOrder(tokens: seq<Segment>, keys: seq<string>, inherited: Inherited): (order: seq<string>)
    ensures NoDuplicates(order)
    ensures forall i | 0 <= i < |order| :: order[i] in keys
  {
    FirstUsesIsOrder(AllUses(tokens, KeySet(keys), 0), inherited.Keys);
    OrderIsNames(tokens, keys, inherited);
    FirstUses(AllUses(tokens, KeySet(keys), 0), inherited.Keys)
  }

  /** The `exec` loops over one code segment. */
  method FindInSegment(text: string, keys: seq<string>, codeOffset: nat) returns (positions: seq<Use>)
    ensures positions == FoundAll(text, keys, codeOffset)
  {
    hide Found;
    positions := [];
    for k := 0 to |keys|
      invariant positions == FoundAll(text, keys[..k], codeOffset)
    {
      assert keys[..k + 1][..k] == keys[..k];
      positions := positions + Found(text, keys[k], codeOffset);
    }
    assert keys[..|keys|] == keys;
  }

  lemma AllFoundStep(tokens: seq<Segment>, t: nat, keys: seq<string>, codeOffset: nat)
    requires t < |tokens|
    ensures AllFound(tokens[t..], keys, codeOffset)
            == (if tokens[t].Code? then FoundAll(tokens[t].text, keys, codeOffset) else [])
               + AllFound(tokens[t + 1..], keys, codeOffset + Width(tokens[t]))
  {
    assert tokens[t..][1..] == tokens[t + 1..];
  }

  lemma AllFoundNothing(tokens: seq<Segment>, keys: seq<string>, codeOffset: nat)
    ensures AllFound(tokens[|tokens|..], keys, codeOffset) == []
  {
  }

  /** The first pass: where the names are used. */
  method FindUses(tokens: seq<Segment>, keys: seq<string>) returns (positions: seq<Use>)
    ensures positions == AllFound(tokens, keys, 0)
  {
    hide AllFound, FoundAll;
    positions := [];
    var codeOffset: nat := 0;
    assert tokens[0..] == tokens && [] + AllFound(tokens, keys, 0) == AllFound(tokens, keys, 0);
    for t := 0 to |tokens|
      invariant positions + AllFound(tokens[t..], keys, codeOffset) == AllFound(tokens, keys, 0)
    {
      AllFoundStep(tokens, t, keys, codeOffset);
      var found := [];
      if tokens[t].Code? {
        found := FindInSegment(tokens[t].text, keys, codeOffset);
      }
      ghost var rest := AllFound(tokens[t + 1..], keys, codeOffset + Width(tokens[t]));
      assert positions + (found + rest) == (positions + found) + rest;
      positions := positions + found;
      codeOffset := codeOffset + Width(tokens[t]);
    }
    AllFoundNothing(tokens, keys, codeOffset);
    assert positions + [] == positions;
  }

  /** The deduplication. */
  method NumberKeys(positions: seq<Use>, inherited: Inherited)
    returns (paramOrder: seq<string>, paramMap: map<string, nat>)
    ensures paramOrder == FirstUses(positions, inherited.Keys)
    ensures paramMap == PlacesOf(paramOrder)
  {
    paramOrder, paramMap := [], map[];
    for i := 0 to |positions|
      invariant paramOrder == FirstUses(positions[..i], inherited.Keys)
      invariant paramMap == PlacesOf(paramOrder)
    {
      var key := positions[i].key;
      assert positions[..i + 1][..i] == positions[..i];
      PlacesOfNames(paramOrder);
      if !(key in paramMap || key in inherited) {
        assert (paramOrder + [key])[..|paramOrder|] == paramOrder;
        paramOrder := paramOrder + [key];
        paramMap := paramMap[key := |paramOrder|];
      }
    }
    assert positions[..|positions|] == positions;
  }

  /** One code segment, name after name. */
  method ReplaceNames(text: string, keys: seq<string>, paramMap: map<string, nat>, inherited: Inherited)
    returns (result: string)
    requires DistinctKeys(keys) && Harmless(inherited)
    ensures result == Substitute(text, map key | key in keys :: MarkerOf(paramMap, inherited, key))
  {
    ghost var markers := map key | key in keys :: MarkerOf(paramMap, inherited, key);
    result := text;
    for k := 0 to |keys|
      invariant ReplaceAll(result, keys[k..], markers) == ReplaceAll(text, keys, markers)
    {
      assert keys[k..][1..] == keys[k + 1..];
      result := ReplaceKey(result, keys[k], MarkerOf(paramMap, inherited, keys[k]));
    }
    assert keys[|keys|..] == [];
    forall k | 0 <= k < |keys| ensures IsMarker(markers[keys[k]]) { MarkersAreMarkers(paramMap, inherited, keys[k]); }
    ReplaceAllIsSubstitute(text, keys, markers);
    assert Markers(keys, markers) == markers;
  }

  lemma MarkersAreMarkers(paramMap: map<string, nat>, inherited: Inherited, key: string)
    requires Harmless(inherited)
    ensures IsMarker(MarkerOf(paramMap, inherited, key))
  {
    if key in paramMap {
      var digits := Decimal(paramMap[key]);
      assert forall i | 0 <= i < |digits| :: IsDigit(digits[i]);
    }
  }

  /** The second pass. */
  method RenderSegments(tokens: seq<Segment>, keys: seq<string>, paramMap: map<string, nat>, inherited: Inherited)
    returns (parts: seq<string>)
    requires DistinctKeys(keys) && Harmless(inherited)
    ensures |parts| == |tokens|
    ensures forall i | 0 <= i < |tokens| ::
              parts[i] == Rendered(tokens[i], map key | key in keys :: MarkerOf(paramMap, inherited, key))
  {
    ghost var markers := map key | key in keys :: MarkerOf(paramMap, inherited, key);
    parts := [];
    for i := 0 to |tokens|
      invariant |parts| == i
      invariant forall j | 0 <= j < i :: parts[j] == Rendered(tokens[j], markers)
    {
      var part;
      match tokens[i] {
        case Code(text) => part := ReplaceNames(text, keys, paramMap, inherited);
        case Name(content) => part := "\"" + content + "\"";
        case _ => part := tokens[i].text;
      }
      parts := parts + [part];
    }
  }

  /** The two passes over a statement. The names may come in any order. */
  method TransformPlaceholders(sql: string, keys: seq<string>, inherited: Inherited)
    returns (tokens: seq<Segment>, parts: seq<string>, paramOrder: seq<string>)
    requires DistinctKeys(keys) && Harmless(inherited)
    ensures tokens == Tokenize(sql) && |parts| == |tokens|
    ensures paramOrder == ParamOrder(tokens, keys, inherited)
    ensures forall i | 0 <= i < |tokens| ::
              parts[i] == Rendered(tokens[i], MarkersFor(paramOrder, inherited, keys))
  {
    tokens := TokenizeSql(sql);
    var positions := FindUses(tokens, keys);
    SortedFoundIsUses(tokens, keys);
    var paramMap;
    paramOrder, paramMap := NumberKeys(SortByPos(positions), inherited);
    parts := RenderSegments(tokens, keys, paramMap, inherited);
  }

  // ---------------------------------------------------------------- what the statement means

  /** A statement with its parameters put in: plain characters and whole values. */
  datatype Piece<V> = Plain(c: char) | Bound(value: V)

  function Chars<V>(s: string): seq<Piece<V>> {
    if s == "" then [] else [Plain(s[0])] + Chars(s[1..])
  }

  /** The text as the code reads it: every placeholder stands for what `meaning` gives its name. */
  function ReadNamed<V>(text: string, meaning: map<string, seq<Piece<V>>>): seq<Piece<V>> {
    if text == "" then []
    else if text[0] == ':' && WordAfterColon(text) in meaning && WordAfterColon(text) != "" then
      meaning[WordAfterColon(text)] + ReadNamed(text[|WordAfterColon(text)| + 1..], meaning)
    else [Plain(text[0])] + ReadNamed(text[1..], meaning)
  }

  /** The text as PostgreSQL reads it: `$n` stands for the n-th value. */
  function ReadPositional<V>(text: string, args: seq<V>): seq<Piece<V>> {
    if text == "" then []
    else
      var d := DigitsEnd(text[1..]);
      if text[0] == '$' && d > 0 then
        var n := Number(text[1..][..d]);
        (if 1 <= n <= |args| then [Bound(args[n - 1])] else Chars(text[..d + 1])) + ReadPositional(text[d + 1..], args)
      else [Plain(text[0])] + ReadPositional(text[1..], args)
  }

  /** No dollar sign with a digit behind it. */
  predicate NoPositional(text: string) {
    forall i | 0 <= i < |text| - 1 :: text[i] == '$' ==> !IsDigit(text[i + 1])
  }

  /** What each name comes to mean through its marker and the list of values. */
  function MeaningOf<V>(order: seq<string>, inherited: Inherited, keys: seq<string>, args: seq<V>)
    : map<string, seq<Piece<V>>>
    requires NoDuplicates(order) && |args| == |order|
  {
    map key | key in keys ::
      if key in order then [Bound(args[IndexIn(order, key)])]
      else Chars(MarkerOf(PlacesOf(order), inherited, key))
  }

  function IndexIn(order: seq<string>, key: string): (i: nat)
    requires key in order
    ensures i < |order| && order[i] == key
  {
    if order[0] == key then 0 else 1 + IndexIn(order[1..], key)
  }

  lemma {:induction false} ReadPlain<V>(s: string, rest: string, args: seq<V>)
    requires '$' !in s
    ensures ReadPositional(s + rest, args) == Chars(s) + ReadPositional(rest, args)
  {
    if s == "" {
      assert s + rest == rest;
    } else {
      assert (s + rest)[1..] == s[1..] + rest;
      assert s[0] in s;
      ReadPlain(s[1..], rest, args);
    }
  }

  /** A dollar sign with no digit behind it is a character like any other. */
  lemma ReadDollar<V>(s: string, rest: string, args: seq<V>)
    requires s != "" && '$' !in s && !IsDigit(s[0])
    ensures ReadPositional("$" + s + rest, args) == Chars("$" + s) + ReadPositional(rest, args)
  {
    assert "$" + s + rest == ['$'] + (s + rest);
    ReadOneChar('$', s + rest, args);
    hide ReadPositional;
    ReadPlain(s, rest, args);
    assert ("$" + s)[1..] == s;
    assert [Plain('$')] + (Chars(s) + ReadPositional(rest, args))
        == [Plain('$')] + Chars(s) + ReadPositional(rest, args);
  }

  lemma ReadAt<V>(text: string, digits: string, rest: string, args: seq<V>)
    requires |text| > |digits| > 0 && text[0] == '$' && DigitsEnd(text[1..]) == |digits|
    requires text[1..][..|digits|] == digits && text[..|digits| + 1] == "$" + digits && text[|digits| + 1..] == rest
    ensures forall i | 0 <= i < |digits| :: IsDigit(digits[i])
    ensures ReadPositional(text, args)
            == (if 1 <= Number(digits) <= |args| then [Bound(args[Number(digits) - 1])] else Chars("$" + digits))
               + ReadPositional(rest, args)
  {
    hide Number, DigitsEnd, Chars;
  }

  lemma NumberText(digits: string, rest: string)
    ensures var text := "$" + digits + rest;
            text[1..] == digits + rest && text[1..][..|digits|] == digits
            && text[..|digits| + 1] == "$" + digits && text[|digits| + 1..] == rest
  {
  }

  /** A dollar sign and digits: a value, or characters where there is none. */
  lemma ReadNumber<V>(digits: string, rest: string, args: seq<V>)
    requires digits != "" && (forall i | 0 <= i < |digits| :: IsDigit(digits[i]))
    requires rest == "" || !IsDigit(rest[0])
    ensures ReadPositional("$" + digits + rest, args)
            == (if 1 <= Number(digits) <= |args| then [Bound(args[Number(digits) - 1])] else Chars("$" + digits))
               + ReadPositional(rest, args)
  {
    hide ReadPositional, Number, Chars;
    var text := "$" + digits + rest;
    NumberText(digits, rest);
    DigitsEndAt(digits, rest);
    ReadAt(text, digits, rest, args);
  }

  lemma ReadMarker<V>(n: nat, rest: string, args: seq<V>)
    requires 1 <= n <= |args| && (rest == "" || !IsDigit(rest[0]))
    ensures ReadPositional("$" + Decimal(n) + rest, args) == [Bound(args[n - 1])] + ReadPositional(rest, args)
  {
    hide ReadPositional, Decimal, Number;
    ReadNumber(Decimal(n), rest, args);
    NumberOfDecimal(n);
  }

  /** The marker of a name reads as that name's meaning. */
  lemma MarkerReads<V>(key: string, rest: string, order: seq<string>, inherited: Inherited, keys: seq<string>,
                       args: seq<V>)
    requires NoDuplicates(order) && |args| == |order| && Harmless(inherited) && key in keys
    requires rest == "" || !IsDigit(rest[0])
    ensures ReadPositional(MarkerOf(PlacesOf(order), inherited, key) + rest, args)
            == MeaningOf(order, inherited, keys, args)[key] + ReadPositional(rest, args)
  {
    hide ReadPositional, Decimal, Chars, PlacesOf, IndexIn;
    PlacesOfNames(order);
    if key in order {
      BoundMarkerReads(key, rest, order, inherited, args);
    } else {
      FreeMarkerReads(key, rest, order, inherited, args);
    }
  }

  lemma BoundMarkerReads<V>(key: string, rest: string, order: seq<string>, inherited: Inherited, args: seq<V>)
    requires NoDuplicates(order) && |args| == |order| && key in order && (rest == "" || !IsDigit(rest[0]))
    ensures ReadPositional(MarkerOf(PlacesOf(order), inherited, key) + rest, args)
            == [Bound(args[IndexIn(order, key)])] + ReadPositional(rest, args)
  {
    hide ReadPositional, Decimal, PlacesOf, IndexIn;
    PlacesOfAt(order, IndexIn(order, key));
    ReadMarker(IndexIn(order, key) + 1, rest, args);
  }

  lemma FreeMarkerReads<V>(key: string, rest: string, order: seq<string>, inherited: Inherited, args: seq<V>)
    requires Harmless(inherited) && key !in PlacesOf(order) && (rest == "" || !IsDigit(rest[0]))
    ensures ReadPositional(MarkerOf(PlacesOf(order), inherited, key) + rest, args)
            == Chars(MarkerOf(PlacesOf(order), inherited, key)) + ReadPositional(rest, args)
  {
    hide ReadPositional, Decimal, PlacesOf, Chars;
    var text := if key in inherited then inherited[key] else "undefined";
    ReadDollar(text, rest, args);
  }

  lemma SubstituteStart(text: string, markers: map<string, string>)
    requires forall key | key in markers :: IsMarker(markers[key])
    ensures text == "" ==> Substitute(text, markers) == ""
    ensures text != "" ==> Substitute(text, markers) != ""
                           && (Substitute(text, markers)[0] == text[0] || Substitute(text, markers)[0] == '$')
  {
    if text != "" && text[0] == ':' && WordAfterColon(text) in markers {
      assert IsMarker(markers[WordAfterColon(text)]);
    }
  }

  lemma SubstituteStep(text: string, subs: map<string, string>)
    requires text != ""
    ensures var n := StepOf(text, subs.Keys);
            && (n > 1 ==> WordAfterColon(text) in subs && n == |WordAfterColon(text)| + 1)
            && Substitute(text, subs)
               == (if n > 1 then subs[WordAfterColon(text)] else [text[0]]) + Substitute(text[n..], subs)
  {
  }

  lemma ReadNamedStep<V>(text: string, meaning: map<string, seq<Piece<V>>>)
    requires text != ""
    ensures var n := StepOf(text, meaning.Keys);
            && (n > 1 ==> WordAfterColon(text) in meaning)
            && ReadNamed(text, meaning)
               == (if n > 1 then meaning[WordAfterColon(text)] else [Plain(text[0])]) + ReadNamed(text[n..], meaning)
  {
  }

  /** What follows a step: neither a word character nor, behind a dollar sign, a digit. */
  lemma RestOfStep(text: string, names: set<string>)
    requires text != "" && NoPositional(text)
    ensures var rest := text[StepOf(text, names)..];
            && NoPositional(rest)
            && (rest != "" && (StepOf(text, names) > 1 || text[0] == '$') ==> !IsDigit(rest[0]))
  {
    WordEndStops(text[1..]);
    var n := StepOf(text, names);
    assert forall i | 0 <= i < |text| - n :: text[n..][i] == text[n + i];
    if n > 1 && n < |text| { assert text[n] == text[1..][n - 1]; }
  }

  /** The rewritten text read with positions is the original read with the names' meanings. */
  lemma {:induction false} PositionalReadsNamed<V>(text: string, order: seq<string>, inherited: Inherited,
                                                   keys: seq<string>, args: seq<V>)
    requires NoDuplicates(order) && |args| == |order| && Harmless(inherited) && NoPositional(text)
    ensures ReadPositional(Substitute(text, MarkersFor(order, inherited, keys)), args)
            == ReadNamed(text, MeaningOf(order, inherited, keys, args))
    decreases |text|
  {
    var markers, meaning := MarkersFor(order, inherited, keys), MeaningOf(order, inherited, keys, args);
    forall key | key in markers ensures IsMarker(markers[key]) { MarkersAreMarkers(PlacesOf(order), inherited, key); }
    if text == "" {
      assert ReadPositional("", args) == [];
    } else {
      hide ReadPositional, Substitute, ReadNamed, WordAfterColon, StepOf, NoPositional;
      assert meaning.Keys == markers.Keys;
      var n, word := StepOf(text, markers.Keys), WordAfterColon(text);
      var rest := text[n..];
      RestOfStep(text, markers.Keys);
      SubstituteStep(text, markers);
      ReadNamedStep(text, meaning);
      PositionalReadsNamed(rest, order, inherited, keys, args);
      SubstituteStart(rest, markers);
      if n > 1 {
        MarkerReads(word, Substitute(rest, markers), order, inherited, keys, args);
      } else {
        ReadOneChar(text[0], Substitute(rest, markers), args);
      }
    }
  }

  lemma ReadOneChar<V>(c: char, rest: string, args: seq<V>)
    requires c == '$' ==> rest == "" || !IsDigit(rest[0])
    ensures ReadPositional([c] + rest, args) == [Plain(c)] + ReadPositional(rest, args)
  {
    assert ([c] + rest)[1..] == rest;
  }

  // ---------------------------------------------------------------- every value reaches its name

  /** `prepareParams`, with the values passed through. */
  function PrepareParams<V>(params: map<string, V>, order: seq<string>): seq<V>
    requires forall i | 0 <= i < |order| :: order[i] in params
  {
    seq(|order|, i requires 0 <= i < |order| => params[order[i]])
  }

  /** What the caller gives each name. */
  function Given<V>(keys: seq<string>, params: map<string, V>): map<string, V>
    requires forall i | 0 <= i < |keys| :: keys[i] in params
  {
    map key | key in keys :: params[key]
  }

  /** What the caller means: a placeholder stands for its value, but a colon behind a colon starts none: `a::text`
      is a cast. */
  function ReadCaller<V>(text: string, given: map<string, V>, behind: bool): seq<Piece<V>> {
    if text == "" then []
    else
      var word := WordAfterColon(text);
      if text[0] == ':' && !behind && word in given && word != "" then
        [Bound(given[word])] + ReadCaller(text[|word| + 1..], given, false)
      else [Plain(text[0])] + ReadCaller(text[1..], given, text[0] == ':')
  }

  /** A name stands behind a double colon at place `i`; `behind` tells what stands before the text. */
  predicate CastAt(text: string, names: set<string>, behind: bool, i: nat)
    requires i < |text|
  {
    && text[i] == ':' && (if i == 0 then behind else text[i - 1] == ':')
    && WordAfterColon(text[i..]) in names && WordAfterColon(text[i..]) != ""
  }

  predicate NoCast(text: string, names: set<string>, behind: bool) {
    forall i | 0 <= i < |text| :: !CastAt(text, names, behind, i)
  }

  /** A cast is at the front or in what is left after one step. */
  lemma NoCastStep(text: string, names: set<string>, behind: bool)
    requires text != ""
    ensures var n := StepOf(text, names);
            NoCast(text, names, behind)
            <==> !(behind && n > 1) && NoCast(text[n..], names, n == 1 && text[0] == ':')
  {
    var n := StepOf(text, names);
    var left := n == 1 && text[0] == ':';
    WordEndStops(text[1..]);
    assert forall i | 1 <= i < n :: text[i] == text[1..][i - 1] && text[i] != ':';
    assert text[0..] == text;
    assert CastAt(text, names, behind, 0) <==> behind && n > 1;
    forall i | 0 <= i < |text| - n ensures CastAt(text[n..], names, left, i) <==> CastAt(text, names, behind, n + i) {
      assert text[n..][i..] == text[n + i..];
    }
    assert forall i | n <= i < |text| :: CastAt(text, names, behind, i) <==> CastAt(text[n..], names, left, i - n);
  }

  predicate AgreeOn<V(==)>(uses: seq<Use>, given: map<string, V>, meaning: map<string, seq<Piece<V>>>) {
    forall i | 0 <= i < |uses| ::
      uses[i].key in given && uses[i].key in meaning && meaning[uses[i].key] == [Bound(given[uses[i].key])]
  }

  lemma AgreeOnFirst<V>(use: Use, rest: seq<Use>, given: map<string, V>, meaning: map<string, seq<Piece<V>>>)
    requires use.key in given && use.key in meaning
    ensures AgreeOn([use] + rest, given, meaning)
            <==> meaning[use.key] == [Bound(given[use.key])] && AgreeOn(rest, given, meaning)
  {
    var all := [use] + rest;
    assert all[0] == use;
    assert forall i | 0 <= i < |rest| :: all[i + 1] == rest[i];
    assert forall i | 0 < i < |all| :: all[i] == rest[i - 1];
  }

  /** Every name means the value given for it, or a text that starts with neither a value nor a colon. */
  ghost predicate Comparable<V>(given: map<string, V>, meaning: map<string, seq<Piece<V>>>) {
    && given.Keys == meaning.Keys
    && forall key | key in given ::
         || meaning[key] == [Bound(given[key])]
         || (meaning[key] != [] && meaning[key][0].Plain? && meaning[key][0].c != ':')
  }

  /** Readings whose first pieces differ differ; those with one first piece agree when the rests do. */
  lemma FirstPieces<V>(a: seq<Piece<V>>, rest: seq<Piece<V>>, p: Piece<V>, others: seq<Piece<V>>)
    requires a != []
    ensures a == [p] ==> (a + rest == [p] + others <==> rest == others)
    ensures a[0] != p ==> a + rest != [p] + others
  {
    assert (a + rest)[0] == a[0] && ([p] + others)[0] == p;
    if a == [p] {
      assert (a + rest)[1..] == rest && ([p] + others)[1..] == others;
    }
  }

  lemma ReadCallerStep<V>(text: string, given: map<string, V>, behind: bool)
    requires text != ""
    ensures var n, word := StepOf(text, given.Keys), WordAfterColon(text);
            && (n > 1 ==> text[0] == ':' && word in given)
            && ReadCaller(text, given, behind)
               == if n > 1 && !behind then [Bound(given[word])] + ReadCaller(text[n..], given, false)
                  else [Plain(text[0])] + ReadCaller(text[1..], given, text[0] == ':')
  {
    hide WordAfterColon;
  }

  /** A use: the two readings agree when it is not behind a colon, the name means its value, and the rests
      agree. */
  lemma SameAtUse<V>(text: string, given: map<string, V>, meaning: map<string, seq<Piece<V>>>, behind: bool)
    requires Comparable(given, meaning) && text != "" && StepOf(text, given.Keys) > 1
    ensures var n, word := StepOf(text, given.Keys), WordAfterColon(text);
            && word in given && word in meaning
            && (ReadNamed(text, meaning) == ReadCaller(text, given, behind)
                <==> !behind && meaning[word] == [Bound(given[word])]
                     && ReadNamed(text[n..], meaning) == ReadCaller(text[n..], given, false))
  {
    hide WordAfterColon, ReadNamed, ReadCaller, StepOf;
    var n, word := StepOf(text, given.Keys), WordAfterColon(text);
    ReadNamedStep(text, meaning);
    ReadCallerStep(text, given, behind);
    var rest := ReadNamed(text[n..], meaning);
    if behind {
      FirstPieces(meaning[word], rest, Plain(':'), ReadCaller(text[1..], given, true));
    } else {
      FirstPieces(meaning[word], rest, Bound(given[word]), ReadCaller(text[n..], given, false));
    }
  }

  lemma SameAtPlain<V>(text: string, given: map<string, V>, meaning: map<string, seq<Piece<V>>>, behind: bool)
    requires given.Keys == meaning.Keys && text != "" && StepOf(text, given.Keys) == 1
    ensures ReadNamed(text, meaning) == ReadCaller(text, given, behind)
            <==> ReadNamed(text[1..], meaning) == ReadCaller(text[1..], given, text[0] == ':')
  {
    hide WordAfterColon, ReadNamed, ReadCaller, StepOf;
    ReadNamedStep(text, meaning);
    ReadCallerStep(text, given, behind);
    FirstPieces([Plain(text[0])], ReadNamed(text[1..], meaning), Plain(text[0]),
                ReadCaller(text[1..], given, text[0] == ':'));
  }

  /** The code reads the text as the caller does exactly when the two agree about every name used and no name
      stands behind a double colon. */
  lemma {:induction false} SameReading<V>(text: string, given: map<string, V>, meaning: map<string, seq<Piece<V>>>,
                                          behind: bool, offset: nat)
    requires Comparable(given, meaning)
    ensures ReadNamed(text, meaning) == ReadCaller(text, given, behind)
            <==> AgreeOn(UsesIn(text, given.Keys, offset), given, meaning) && NoCast(text, given.Keys, behind)
    decreases |text|
  {
    if text == "" {
    } else {
      hide WordAfterColon, AgreeOn, NoCast, UsesIn, ReadNamed, ReadCaller, StepOf;
      var n, word := StepOf(text, given.Keys), WordAfterColon(text);
      NoCastStep(text, given.Keys, behind);
      UsesStep(text, given.Keys, offset);
      if n > 1 {
        SameReading(text[n..], given, meaning, false, offset + n);
        SameAtUse(text, given, meaning, behind);
        hide Comparable;
        AgreeOnFirst(Use(word, offset), UsesIn(text[n..], given.Keys, offset + n), given, meaning);
      } else {
        SameReading(text[1..], given, meaning, text[0] == ':', offset + 1);
        SameAtPlain(text, given, meaning, behind);
        hide Comparable;
        assert [] + UsesIn(text[1..], given.Keys, offset + 1) == UsesIn(text[1..], given.Keys, offset + 1);
      }
    }
  }

  /** The positional reading of a segment is what the caller meant by it. */
  ghost predicate MeansTheSame<V(!new)>(t: Segment, order: seq<string>, inherited: Inherited, keys: seq<string>,
                                  params: map<string, V>)
    requires forall i | 0 <= i < |keys| :: keys[i] in params
    requires forall i | 0 <= i < |order| :: order[i] in params
  {
    t.Code? ==> ReadPositional(Rendered(t, MarkersFor(order, inherited, keys)), PrepareParams(params, order))
                == ReadCaller(t.text, Given(keys, params), false)
  }

  predicate OrderCovers(order: seq<string>, uses: seq<Use>, inherited: Inherited) {
    NoDuplicates(order)
    && forall i | 0 <= i < |uses| :: uses[i].key in order <==> uses[i].key !in inherited
  }

  predicate NoneInherited(uses: seq<Use>, inherited: Inherited) {
    forall i | 0 <= i < |uses| :: uses[i].key !in inherited
  }

  lemma MeaningsAreComparable<V>(order: seq<string>, inherited: Inherited, keys: seq<string>, params: map<string, V>)
    requires NoDuplicates(order)
    requires forall i | 0 <= i < |keys| :: keys[i] in params
    requires forall i | 0 <= i < |order| :: order[i] in params
    ensures Comparable(Given(keys, params), MeaningOf(order, inherited, keys, PrepareParams(params, order)))
    ensures forall key | key in keys ::
              MeaningOf(order, inherited, keys, PrepareParams(params, order))[key] == [Bound(Given(keys, params)[key])]
              <==> key in order
  {
    var args := PrepareParams(params, order);
    forall key | key in keys && key !in order
      ensures MeaningOf(order, inherited, keys, args)[key] != []
              && MeaningOf(order, inherited, keys, args)[key][0] == Plain('$')
    {
      var marker := MarkerOf(PlacesOf(order), inherited, key);
      assert marker[0] == '$';
    }
  }

  /** One segment means what the caller meant exactly when it uses no inherited name and has no name behind a
      double colon. */
  lemma SegmentMeansTheSame<V(!new)>(t: Segment, order: seq<string>, inherited: Inherited, keys: seq<string>,
                               params: map<string, V>, offset: nat)
    requires t.Code? && NoPositional(t.text) && Harmless(inherited)
    requires forall i | 0 <= i < |keys| :: keys[i] in params
    requires forall i | 0 <= i < |order| :: order[i] in params
    requires OrderCovers(order, UsesIn(t.text, KeySet(keys), offset), inherited)
    ensures MeansTheSame(t, order, inherited, keys, params)
            <==> NoneInherited(UsesIn(t.text, KeySet(keys), offset), inherited) && NoCast(t.text, KeySet(keys), false)
  {
    hide ReadPositional, ReadNamed, ReadCaller, UsesIn, NoCast, Substitute, PlacesOf;
    var args := PrepareParams(params, order);
    var given, meaning := Given(keys, params), MeaningOf(order, inherited, keys, args);
    PositionalReadsNamed(t.text, order, inherited, keys, args);
    MeaningsAreComparable(order, inherited, keys, params);
    assert given.Keys == KeySet(keys);
    SameReading(t.text, given, meaning, false, offset);
    UsesAreNames(t.text, KeySet(keys), offset);
  }

  lemma UsesSplit(a: seq<Use>, b: seq<Use>, order: seq<string>, inherited: Inherited)
    ensures NoneInherited(a + b, inherited) <==> NoneInherited(a, inherited) && NoneInherited(b, inherited)
    ensures OrderCovers(order, a + b, inherited)
            ==> OrderCovers(order, a, inherited) && OrderCovers(order, b, inherited)
  {
    assert forall i | 0 <= i < |a| :: (a + b)[i] == a[i];
    assert forall i | 0 <= i < |b| :: (a + b)[|a| + i] == b[i];
  }

  /** No name of the parameters stands behind a double colon in the code of the statement. */
  predicate NoCasts(tokens: seq<Segment>, names: set<string>) {
    forall i | 0 <= i < |tokens| :: tokens[i].Code? ==> NoCast(tokens[i].text, names, false)
  }

  ghost predicate AllMeanTheSame<V(!new)>(tokens: seq<Segment>, order: seq<string>, inherited: Inherited,
                                          keys: seq<string>, params: map<string, V>)
    requires forall i | 0 <= i < |keys| :: keys[i] in params
    requires forall i | 0 <= i < |order| :: order[i] in params
  {
    forall i | 0 <= i < |tokens| :: MeansTheSame(tokens[i], order, inherited, keys, params)
  }

  lemma {:induction false} SegmentsMeanTheSame<V(!new)>(tokens: seq<Segment>, order: seq<string>,
      inherited: Inherited, keys: seq<string>, params: map<string, V>, offset: nat)
    requires Harmless(inherited)
    requires forall i | 0 <= i < |tokens| :: tokens[i].Code? ==> NoPositional(tokens[i].text)
    requires forall i | 0 <= i < |keys| :: keys[i] in params
    requires forall i | 0 <= i < |order| :: order[i] in params
    requires OrderCovers(order, AllUses(tokens, KeySet(keys), offset), inherited)
    ensures AllMeanTheSame(tokens, order, inherited, keys, params)
            <==> NoneInherited(AllUses(tokens, KeySet(keys), offset), inherited) && NoCasts(tokens, KeySet(keys))
  {
    if tokens != [] {
      var first := if tokens[0].Code? then UsesIn(tokens[0].text, KeySet(keys), offset) else [];
      var next := offset + Width(tokens[0]);
      UsesSplit(first, AllUses(tokens[1..], KeySet(keys), next), order, inherited);
      if tokens[0].Code? { SegmentMeansTheSame(tokens[0], order, inherited, keys, params, offset); }
      SegmentsMeanTheSame(tokens[1..], order, inherited, keys, params, next);
      FirstAndRest(tokens, order, inherited, keys, params);
    }
  }

  lemma FirstAndRest<V(!new)>(tokens: seq<Segment>, order: seq<string>, inherited: Inherited, keys: seq<string>,
                              params: map<string, V>)
    requires tokens != []
    requires forall i | 0 <= i < |keys| :: keys[i] in params
    requires forall i | 0 <= i < |order| :: order[i] in params
    ensures AllMeanTheSame(tokens, order, inherited, keys, params)
            <==> MeansTheSame(tokens[0], order, inherited, keys, params)
                 && AllMeanTheSame(tokens[1..], order, inherited, keys, params)
    ensures NoCasts(tokens, KeySet(keys))
            <==> (tokens[0].Code? ==> NoCast(tokens[0].text, KeySet(keys), false)) && NoCasts(tokens[1..], KeySet(keys))
  {
    assert forall i | 0 <= i < |tokens| - 1 :: tokens[i + 1] == tokens[1..][i];
    assert forall i | 0 < i < |tokens| :: tokens[i] == tokens[1..][i - 1];
  }

  /** Run with the values prepareParams lists, the rewritten statement says what the caller meant, exactly when
      no name it uses is one that every object inherits and none stands behind a double colon. */
  lemma ValuesReachTheirNames<V(!new)>(tokens: seq<Segment>, keys: seq<string>, inherited: Inherited,
                                       params: map<string, V>)
    requires Harmless(inherited)
    requires forall i | 0 <= i < |tokens| :: tokens[i].Code? ==> NoPositional(tokens[i].text)
    requires forall i | 0 <= i < |keys| :: keys[i] in params
    ensures AllMeanTheSame(tokens, ParamOrder(tokens, keys, inherited), inherited, keys, params)
            <==> NoneInherited(AllUses(tokens, KeySet(keys), 0), inherited) && NoCasts(tokens, KeySet(keys))
  {
    var uses := AllUses(tokens, KeySet(keys), 0);
    var order := ParamOrder(tokens, keys, inherited);
    FirstUsesIsOrder(uses, inherited.Keys);
    forall i | 0 <= i < |uses| ensures uses[i].key in order <==> uses[i].key !in inherited {
      assert UsesKey(uses, uses[i].key);
    }
    SegmentsMeanTheSame(tokens, order, inherited, keys, params, 0);
  }

  // ---------------------------------------------------------------- two statements that fail

  /** A word and nothing behind it. */
  lemma WholeWord(word: string)
    requires word != "" && forall i | 0 <= i < |word| :: IsWordChar(word[i])
    ensures WordAfterColon(":" + word) == word
  {
    assert (":" + word)[1..] == word + "";
    WordEndAt(word, "");
  }

  lemma SingleUse(word: string, names: set<string>, offset: nat)
    requires word in names && word != "" && forall i | 0 <= i < |word| :: IsWordChar(word[i])
    ensures UsesIn(":" + word, names, offset) == [Use(word, offset)]
    ensures forall subs: map<string, string> | word in subs :: Substitute(":" + word, subs) == subs[word]
  {
    WholeWord(word);
    assert (":" + word)[|word| + 1..] == "";
    assert UsesIn("", names, offset + |word| + 1) == [];
    forall subs: map<string, string> | word in subs ensures Substitute(":" + word, subs) == subs[word] {
      assert Substitute("", subs) == "";
      assert subs[word] + "" == subs[word];
    }
  }

  lemma OneSegment(t: Segment, keys: seq<string>)
    requires t.Code?
    ensures AllUses([t], KeySet(keys), 0) == UsesIn(t.text, KeySet(keys), 0)
  {
    assert [t][1..] == [];
    assert UsesIn(t.text, KeySet(keys), 0) + [] == UsesIn(t.text, KeySet(keys), 0);
  }

  /** A colon in front of a colon starts no placeholder. */
  lemma ColonPasses(name: string, names: set<string>, offset: nat)
    requires name != "" && name[0] == ':'
    ensures UsesIn(":" + name, names, offset) == UsesIn(name, names, offset + 1)
    ensures forall subs: map<string, string> :: Substitute(":" + name, subs) == ":" + Substitute(name, subs)
  {
    assert (":" + name)[1..] == name;
    assert WordEnd(name) == 0;
    assert WordAfterColon(":" + name) == "";
  }

  /** `a::key`: one use, two places behind the front, which stands behind a double colon. */
  lemma CastText(key: string)
    requires IsWord(key)
    ensures var text := "a" + (":" + (":" + key));
            && UsesIn(text, {key}, 0) == [Use(key, 2)] && !NoCast(text, {key}, false)
            && forall subs: map<string, string> | key in subs :: Substitute(text, subs) == "a:" + subs[key]
  {
    hide UsesIn, Substitute, WordAfterColon;
    var name := ":" + key;
    var text := "a" + (":" + name);
    SingleUse(key, {key}, 2);
    ColonPasses(name, {key}, 1);
    UsesSkip("a", ":" + name, {key}, 0);
    WholeWord(key);
    assert text[2..] == name && text[1] == ':' && text[2] == ':';
    assert CastAt(text, {key}, false, 2);
    forall subs: map<string, string> | key in subs ensures Substitute(text, subs) == "a:" + subs[key] {
      SubstituteSkips("a", ":" + name, subs);
      assert "a" + (":" + subs[key]) == "a:" + subs[key];
    }
  }

  /** The order and the marker of a single name. */
  lemma SingleOrder(key: string, pos: nat)
    ensures FirstUses([Use(key, pos)], {}) == [key]
    ensures MarkersFor([key], map[], [key]) == map[key := "$1"]
  {
    assert FirstUses([Use(key, pos)][..0], {}) == [];
    assert PlacesOf([key][..0]) == map[];
    assert PlacesOf([key]) == map[key := 1];
    assert Decimal(1) == "1";
    assert MarkerOf(PlacesOf([key]), map[], key) == "$1";
  }

  /** A cast to a type that is also the name of a parameter, as `a::text` with a parameter `text`, becomes
      `a:$1`. */
  lemma CastIsTaken<V(!new)>(key: string, params: map<string, V>)
    requires IsWord(key) && key in params
    ensures var tokens := [Code("a" + (":" + (":" + key)))];
            && ParamOrder(tokens, [key], map[]) == [key]
            && Rendered(tokens[0], MarkersFor([key], map[], [key])) == "a:$1"
            && !AllMeanTheSame(tokens, [key], map[], [key], params)
  {
    hide UsesIn, Substitute, FirstUses, AllUses, MarkersFor, NoCast, AllMeanTheSame, ReadPositional;
    var tokens := [Code("a" + (":" + (":" + key)))];
    assert KeySet([key]) == {key};
    CastText(key);
    OneSegment(tokens[0], [key]);
    SingleOrder(key, 2);
    var none: Inherited := map[];
    assert none.Keys == {};
    PlainLetterFirst(":" + (":" + key));
    assert !NoCast(tokens[0].text, KeySet([key]), false);
    ValuesReachTheirNames(tokens, [key], map[], params);
  }

  lemma PlainLetterFirst(rest: string)
    requires forall i | 0 <= i < |rest| :: rest[i] == ':' || IsWordChar(rest[i])
    ensures NoPositional("a" + rest)
  {
  }

  /** A parameter called like a property of every object, as `toString` is, gets no place. */
  lemma InheritedIsNotBound<V(!new)>(key: string, inherited: Inherited, params: map<string, V>)
    requires Harmless(inherited) && key in inherited && IsWord(key) && key in params
    ensures var tokens := [Code(":" + key)];
            && ParamOrder(tokens, [key], inherited) == []
            && !AllMeanTheSame(tokens, [], inherited, [key], params)
  {
    hide UsesIn, AllUses, MarkersFor, NoCast, AllMeanTheSame, ReadPositional, Harmless;
    var tokens, use := [Code(":" + key)], Use(key, 0);
    assert KeySet([key]) == {key};
    SingleUse(key, {key}, 0);
    OneSegment(tokens[0], [key]);
    assert FirstUses([use][..0], inherited.Keys) == [];
    assert [use][0].key in inherited;
    ValuesReachTheirNames(tokens, [key], inherited, params);
  }
}
