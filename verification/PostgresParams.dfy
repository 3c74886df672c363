/** Named placeholders become positional ones (lib/sql-transform/PostgresSqlTransformer.js). */
module PostgresParams {
  import opened PostgresTokens
  import opened Words

  /** The word a colon at the front of `text` is followed by. */
  function WordAfterColon(text: string): string
    requires text != ""
  {
    text[1..][..WordEnd(text[1..])]
  }

  /** `:key` stands at the front, and no word character follows it. */
  predicate StartsWithKey(text: string, key: string) {
    |text| > |key| && text[0] == ':' && text[1..|key| + 1] == key
    && (|text| == |key| + 1 || !IsWordChar(text[|key| + 1]))
  }

  lemma StartsWithKeyIsWord(text: string, key: string)
    requires IsWord(key)
    ensures StartsWithKey(text, key) <==> text != "" && text[0] == ':' && WordAfterColon(text) == key
  {
    if StartsWithKey(text, key) {
      assert text[1..] == key + text[|key| + 1..];
      WordEndAt(key, text[|key| + 1..]);
    }
    if text != "" && text[0] == ':' && WordAfterColon(text) == key {
      WordEndStops(text[1..]);
      assert text[1..][..|key|] == text[1..|key| + 1];
    }
  }

  /** `text.replace(/:key(?![a-zA-Z0-9_])/g, () => with)`. */
  function ReplaceKey(text: string, key: string, sub: string): string {
    if text == "" then ""
    else if StartsWithKey(text, key) then sub + ReplaceKey(text[|key| + 1..], key, sub)
    else [text[0]] + ReplaceKey(text[1..], key, sub)
  }

  /** Every placeholder replaced at once: a colon and the whole word behind it, when that word is a name. */
  function Substitute(text: string, subs: map<string, string>): string {
    if text == "" then ""
    else if text[0] == ':' && WordAfterColon(text) in subs && WordAfterColon(text) != "" then
      subs[WordAfterColon(text)] + Substitute(text[|WordAfterColon(text)| + 1..], subs)
    else [text[0]] + Substitute(text[1..], subs)
  }

  /** What replaces a placeholder starts with a dollar sign and holds no colon. */
  predicate IsMarker(s: string) {
    s != "" && s[0] == '$' && ':' !in s
  }

  lemma {:induction false} SubstituteSkips(plain: string, text: string, subs: map<string, string>)
    requires ':' !in plain
    ensures Substitute(plain + text, subs) == plain + Substitute(text, subs)
  {
    if plain == "" {
      assert plain + text == text;
    } else {
      assert (plain + text)[1..] == plain[1..] + text;
      assert plain[0] in plain;
      SubstituteSkips(plain[1..], text, subs);
    }
  }

  lemma {:induction false} ReplaceSkips(plain: string, text: string, key: string, sub: string)
    requires ':' !in plain
    ensures ReplaceKey(plain + text, key, sub) == plain + ReplaceKey(text, key, sub)
  {
    if plain == "" {
      assert plain + text == text;
    } else {
      assert (plain + text)[1..] == plain[1..] + text;
      assert plain[0] in plain;
      ReplaceSkips(plain[1..], text, key, sub);
    }
  }

  /** A word stays a whole word when one key is replaced in what follows it. */
  lemma ReplaceKeepsWord(text: string, key: string, sub: string)
    requires IsWord(key) && IsMarker(sub)
    ensures var n, after := WordEnd(text), ReplaceKey(text, key, sub);
            && after == text[..n] + ReplaceKey(text[n..], key, sub)
            && WordEnd(after) == n && after[..n] == text[..n]
  {
    var n := WordEnd(text);
    WordEndStops(text);
    var word, rest := text[..n], text[n..];
    assert text == word + rest;
    assert ':' !in word;
    ReplaceSkips(word, rest, key, sub);
    var after := ReplaceKey(rest, key, sub);
    assert rest == "" || !IsWordChar(rest[0]);
    assert after == "" || !IsWordChar(after[0]);
    WordEndAt(word, after);
  }

  /** Replacing one key and then the others is replacing all of them at once. */
  lemma {:induction false} ReplaceThenSubstitute(text: string, key: string, sub: string, subs: map<string, string>)
    requires IsWord(key) && IsMarker(sub) && key !in subs
    ensures Substitute(ReplaceKey(text, key, sub), subs) == Substitute(text, subs[key := sub])
    decreases |text|
  {
    if text != "" {
      StartsWithKeyIsWord(text, key);
      if StartsWithKey(text, key) {
        var rest := text[|key| + 1..];
        SubstituteSkips(sub, ReplaceKey(rest, key, sub), subs);
        ReplaceThenSubstitute(rest, key, sub, subs);
      } else {
        ReplaceThenSubstitute(text[1..], key, sub, subs);
        if text[0] == ':' { ColonThenSubstitute(text, key, sub, subs); }
      }
    }
  }

  /** The case of a colon that is not a placeholder of `key`. */
  lemma {:induction false} ColonThenSubstitute(text: string, key: string, sub: string, subs: map<string, string>)
    requires IsWord(key) && IsMarker(sub) && key !in subs
    requires text != "" && text[0] == ':' && !StartsWithKey(text, key) && WordAfterColon(text) != key
    requires Substitute(ReplaceKey(text[1..], key, sub), subs) == Substitute(text[1..], subs[key := sub])
    ensures Substitute(ReplaceKey(text, key, sub), subs) == Substitute(text, subs[key := sub])
    decreases |text|, 0
  {
    var word := WordAfterColon(text);
    var after := ReplaceKey(text[1..], key, sub);
    ReplaceKeepsWord(text[1..], key, sub);
    assert ReplaceKey(text, key, sub) == [':'] + after;
    assert ([':'] + after)[1..] == after;
    assert WordAfterColon([':'] + after) == word;
    if word in subs && word != "" {
      var rest := text[|word| + 1..];
      assert text[1..][|word|..] == rest;
      assert ([':'] + after)[|word| + 1..] == ReplaceKey(rest, key, sub);
      ReplaceThenSubstitute(rest, key, sub, subs);
    }
  }

  // ---------------------------------------------------------------- the per-key loop

  predicate DistinctKeys(keys: seq<string>) {
    (forall i | 0 <= i < |keys| :: IsWord(keys[i])) && forall i, j | 0 <= i < j < |keys| :: keys[i] != keys[j]
  }

  function KeySet(keys: seq<string>): set<string> {
    set k | k in keys
  }

  /** The markers of some of the keys. */
  function Markers(keys: seq<string>, marker: map<string, string>): map<string, string> {
    map k | k in keys && k in marker :: marker[k]
  }

  function ReplaceAll(text: string, keys: seq<string>, marker: map<string, string>): string
    requires forall i | 0 <= i < |keys| :: keys[i] in marker
    decreases |keys|
  {
    if keys == [] then text
    else ReplaceAll(ReplaceKey(text, keys[0], marker[keys[0]]), keys[1..], marker)
  }

  lemma {:induction false} SubstituteNothing(text: string)
    ensures Substitute(text, map[]) == text
  {
    if text != "" { SubstituteNothing(text[1..]); }
  }

  /** Replacing key by key, in whatever order, is one simultaneous substitution. */
  lemma {:induction false} ReplaceAllIsSubstitute(text: string, keys: seq<string>, marker: map<string, string>)
    requires DistinctKeys(keys)
    requires forall i | 0 <= i < |keys| :: keys[i] in marker && IsMarker(marker[keys[i]])
    ensures ReplaceAll(text, keys, marker) == Substitute(text, Markers(keys, marker))
    decreases |keys|
  {
    if keys == [] {
      assert Markers(keys, marker) == map[];
      SubstituteNothing(text);
    } else {
      var key, sub := keys[0], marker[keys[0]];
      ReplaceAllIsSubstitute(ReplaceKey(text, key, sub), keys[1..], marker);
      var rest := Markers(keys[1..], marker);
      assert key !in rest by { assert forall i | 0 <= i < |keys| - 1 :: keys[1..][i] == keys[i + 1]; }
      ReplaceThenSubstitute(text, key, sub, rest);
      assert rest[key := sub] == Markers(keys, marker) by {
        assert keys == [key] + keys[1..];
      }
    }
  }

  /** The order of the keys does not matter. */
  lemma KeyOrderIrrelevant(text: string, keys: seq<string>, others: seq<string>, marker: map<string, string>)
    requires DistinctKeys(keys) && DistinctKeys(others) && KeySet(keys) == KeySet(others)
    requires forall i | 0 <= i < |keys| :: keys[i] in marker && IsMarker(marker[keys[i]])
    requires forall i | 0 <= i < |others| :: others[i] in marker && IsMarker(marker[others[i]])
    ensures ReplaceAll(text, keys, marker) == ReplaceAll(text, others, marker)
  {
    ReplaceAllIsSubstitute(text, keys, marker);
    ReplaceAllIsSubstitute(text, others, marker);
    assert forall k :: k in keys <==> k in KeySet(keys);
    assert forall k :: k in others <==> k in KeySet(others);
    assert Markers(keys, marker) == Markers(others, marker);
  }

  // ---------------------------------------------------------------- which names are used, and where

  /** The length of the source text a segment stands for, as `codeOffset` counts it. */
  function Width(t: Segment): nat {
    match t
    case Name(content) => |content| + 2
    case _ => |t.text|
  }

  /** A name and the offset of its colon in the source. */
  datatype Use = Use(key: string, pos: nat)

  /** What the `exec` loop finds for one key. */
  function Found(text: string, key: string, offset: nat): seq<Use> {
    if text == "" then []
    else if StartsWithKey(text, key) then
      [Use(key, offset)] + Found(text[|key| + 1..], key, offset + |key| + 1)
    else Found(text[1..], key, offset + 1)
  }

  function FoundAll(text: string, keys: seq<string>, offset: nat): seq<Use> {
    if keys == [] then [] else
      FoundAll(text, keys[..|keys| - 1], offset) + Found(text, keys[|keys| - 1], offset)
  }

  /** The placeholders of a text from left to right. */
  function UsesIn(text: string, names: set<string>, offset: nat): seq<Use> {
    if text == "" then []
    else
      if text[0] == ':' && WordAfterColon(text) in names && WordAfterColon(text) != "" then
        var n := |WordAfterColon(text)| + 1;
        [Use(WordAfterColon(text), offset)] + UsesIn(text[n..], names, offset + n)
      else UsesIn(text[1..], names, offset + 1)
  }

  /** How far a left-to-right reading moves on, and what it finds there. */
  function StepOf(text: string, names: set<string>): (n: nat)
    requires text != ""
    ensures 0 < n <= |text|
  {
    if text[0] == ':' && WordAfterColon(text) in names && WordAfterColon(text) != ""
    then |WordAfterColon(text)| + 1 else 1
  }

  lemma UsesStep(text: string, names: set<string>, offset: nat)
    requires text != ""
    ensures var n := StepOf(text, names);
            UsesIn(text, names, offset)
            == (if n > 1 then [Use(WordAfterColon(text), offset)] else []) + UsesIn(text[n..], names, offset + n)
  {
    hide WordAfterColon;
    assert [] + UsesIn(text[1..], names, offset + 1) == UsesIn(text[1..], names, offset + 1);
  }

  /** A use is a colon and the whole word behind it, when that word is a name; every such place is one. */
  predicate IsUseAt(text: string, names: set<string>, offset: nat, use: Use) {
    offset <= use.pos < offset + |text| && text[use.pos - offset] == ':'
    && WordAfterColon(text[use.pos - offset..]) == use.key && use.key in names && use.key != ""
  }

  lemma {:induction false} UsesAreExact(text: string, names: set<string>, offset: nat, use: Use)
    ensures use in UsesIn(text, names, offset) <==> IsUseAt(text, names, offset, use)
    decreases |text|
  {
    if text != "" {
      hide UsesIn;
      var n := StepOf(text, names);
      UsesStep(text, names, offset);
      UsesAreExact(text[n..], names, offset + n, use);
      UseMovesOn(text, names, offset, use, n);
    }
  }

  lemma NoColonInStep(text: string, names: set<string>)
    requires text != ""
    ensures forall i | 1 <= i < StepOf(text, names) :: text[i] != ':'
  {
    WordEndStops(text[1..]);
    assert forall i | 1 <= i < StepOf(text, names) :: text[i] == text[1..][i - 1];
  }

  /** A place behind the step is a use in what is left; within the step only its start can be one. */
  lemma UseMovesOn(text: string, names: set<string>, offset: nat, use: Use, n: nat)
    requires text != "" && n == StepOf(text, names)
    ensures IsUseAt(text, names, offset, use)
            <==> (n > 1 && use == Use(WordAfterColon(text), offset)) || IsUseAt(text[n..], names, offset + n, use)
  {
    NoColonInStep(text, names);
    hide WordAfterColon;
    var i := use.pos - offset;
    if i == 0 {
      assert text[0..] == text;
    } else if n <= i < |text| {
      assert text[n..][i - n] == text[i] && text[n..][i - n..] == text[i..];
    }
  }

  predicate Ascending(uses: seq<Use>) {
    forall i, j | 0 <= i < j < |uses| :: uses[i].pos < uses[j].pos
  }

  predicate Within(uses: seq<Use>, lo: nat, hi: nat) {
    forall i | 0 <= i < |uses| :: lo <= uses[i].pos < hi
  }

  lemma AscendingFirst(use: Use, rest: seq<Use>, offset: nat, next: nat, hi: nat)
    requires use.pos == offset < next && Ascending(rest) && Within(rest, next, hi) && offset < hi
    ensures Ascending([use] + rest) && Within([use] + rest, offset, hi)
  {
  }

  lemma {:induction false} UsesAscend(text: string, names: set<string>, offset: nat)
    ensures Ascending(UsesIn(text, names, offset))
    ensures Within(UsesIn(text, names, offset), offset, offset + |text|)
    decreases |text|
  {
    if text != "" {
      hide UsesIn, WordAfterColon;
      var n := StepOf(text, names);
      UsesStep(text, names, offset);
      UsesAscend(text[n..], names, offset + n);
      var rest := UsesIn(text[n..], names, offset + n);
      if n > 1 {
        AscendingFirst(Use(WordAfterColon(text), offset), rest, offset, offset + n, offset + |text|);
      } else {
        assert [] + rest == rest;
      }
    }
  }

  lemma {:induction false} FoundSkips(plain: string, text: string, key: string, offset: nat)
    requires ':' !in plain
    ensures Found(plain + text, key, offset) == Found(text, key, offset + |plain|)
  {
    if plain == "" {
      assert plain + text == text;
    } else {
      assert (plain + text)[1..] == plain[1..] + text;
      assert plain[0] in plain;
      FoundSkips(plain[1..], text, key, offset + 1);
    }
  }

  lemma {:induction false} UsesSkip(plain: string, text: string, names: set<string>, offset: nat)
    requires ':' !in plain
    ensures UsesIn(plain + text, names, offset) == UsesIn(text, names, offset + |plain|)
  {
    if plain == "" {
      assert plain + text == text;
    } else {
      assert (plain + text)[1..] == plain[1..] + text;
      assert plain[0] in plain;
      UsesSkip(plain[1..], text, names, offset + 1);
    }
  }

  /** At a colon, a left-to-right reading takes the placeholder, if any, and continues behind the word. */
  lemma ColonUses(text: string, names: set<string>, offset: nat)
    requires text != "" && text[0] == ':'
    ensures var word := WordAfterColon(text);
            UsesIn(text, names, offset)
            == (if word in names && word != "" then [Use(word, offset)] else [])
               + UsesIn(text[|word| + 1..], names, offset + |word| + 1)
  {
    var word := WordAfterColon(text);
    WordEndStops(text[1..]);
    assert text[1..] == word + text[|word| + 1..];
    assert ':' !in word;
    UsesSkip(word, text[|word| + 1..], names, offset + 1);
  }

  /** So does the search for one key. */
  lemma ColonFound(text: string, key: string, offset: nat)
    requires text != "" && text[0] == ':' && IsWord(key)
    ensures var word := WordAfterColon(text);
            Found(text, key, offset)
            == (if word == key then [Use(key, offset)] else [])
               + Found(text[|word| + 1..], key, offset + |word| + 1)
  {
    var word := WordAfterColon(text);
    StartsWithKeyIsWord(text, key);
    WordEndStops(text[1..]);
    assert text[1..] == word + text[|word| + 1..];
    assert ':' !in word;
    FoundSkips(word, text[|word| + 1..], key, offset + 1);
  }

  lemma MultisetOfConcat<T>(a: seq<T>, b: seq<T>)
    ensures multiset(a + b) == multiset(a) + multiset(b)
  {
  }

  lemma OneMoreAtPlain(text: string, names: set<string>, key: string, offset: nat)
    requires IsWord(key) && (text == "" || text[0] != ':')
    requires text != "" ==>
               multiset(UsesIn(text[1..], names + {key}, offset + 1))
               == multiset(UsesIn(text[1..], names, offset + 1)) + multiset(Found(text[1..], key, offset + 1))
    ensures multiset(UsesIn(text, names + {key}, offset))
            == multiset(UsesIn(text, names, offset)) + multiset(Found(text, key, offset))
  {
  }

  /** One more key adds exactly what is found for it. */
  lemma {:induction false} OneMoreKey(text: string, names: set<string>, key: string, offset: nat)
    requires IsWord(key) && key !in names
    ensures multiset(UsesIn(text, names + {key}, offset))
            == multiset(UsesIn(text, names, offset)) + multiset(Found(text, key, offset))
    decreases |text|
  {
    hide UsesIn, Found, WordAfterColon, IsWord;
    if text != "" && text[0] == ':' {
      WordIsShorter(text);
      var n := |WordAfterColon(text)| + 1;
      OneMoreKey(text[n..], names, key, offset + n);
      OneMoreAtColon(text, names, key, offset);
    } else {
      if text != "" { OneMoreKey(text[1..], names, key, offset + 1); }
      OneMoreAtPlain(text, names, key, offset);
    }
  }

  lemma WordIsShorter(text: string)
    requires text != ""
    ensures |WordAfterColon(text)| < |text|
  {
  }

  lemma OneMoreAtColon(text: string, names: set<string>, key: string, offset: nat)
    requires IsWord(key) && key !in names && text != "" && text[0] == ':'
    requires var n := |WordAfterColon(text)| + 1;
             multiset(UsesIn(text[n..], names + {key}, offset + n))
             == multiset(UsesIn(text[n..], names, offset + n)) + multiset(Found(text[n..], key, offset + n))
    ensures multiset(UsesIn(text, names + {key}, offset))
            == multiset(UsesIn(text, names, offset)) + multiset(Found(text, key, offset))
  {
    var word := WordAfterColon(text);
    var n := |word| + 1;
    var use := Use(word, offset);
    ColonUses(text, names, offset);
    ColonUses(text, names + {key}, offset);
    ColonFound(text, key, offset);
    MultisetOfConcat([use], UsesIn(text[n..], names + {key}, offset + n));
    MultisetOfConcat([use], UsesIn(text[n..], names, offset + n));
    MultisetOfConcat([use], Found(text[n..], key, offset + n));
  }

  lemma {:induction false} NoNamesNoUses(text: string, offset: nat)
    ensures UsesIn(text, {}, offset) == []
  {
    if text != "" { NoNamesNoUses(text[1..], offset + 1); }
  }

  /** Searching key by key finds the placeholders, in some order. */
  lemma {:induction false} FoundAllIsUses(text: string, keys: seq<string>, offset: nat)
    requires DistinctKeys(keys)
    ensures multiset(FoundAll(text, keys, offset)) == multiset(UsesIn(text, KeySet(keys), offset))
  {
    hide UsesIn, Found;
    if keys == [] {
      NoNamesNoUses(text, offset);
      assert KeySet(keys) == {};
    } else {
      var n := |keys| - 1;
      var init, key := keys[..n], keys[n];
      FoundAllIsUses(text, init, offset);
      assert key !in KeySet(init) by { assert forall i | 0 <= i < n :: init[i] == keys[i]; }
      OneMoreKey(text, KeySet(init), key, offset);
      assert keys == init + [key];
      assert KeySet(keys) == KeySet(init) + {key};
    }
  }

  // ---------------------------------------------------------------- over the tokens

  function AllFound(tokens: seq<Segment>, keys: seq<string>, offset: nat): seq<Use> {
    if tokens == [] then [] else
      (if tokens[0].Code? then FoundAll(tokens[0].text, keys, offset) else [])
      + AllFound(tokens[1..], keys, offset + Width(tokens[0]))
  }

  function AllUses(tokens: seq<Segment>, names: set<string>, offset: nat): seq<Use> {
    if tokens == [] then [] else
      (if tokens[0].Code? then UsesIn(tokens[0].text, names, offset) else [])
      + AllUses(tokens[1..], names, offset + Width(tokens[0]))
  }

  lemma {:induction false} AllFoundIsUses(tokens: seq<Segment>, keys: seq<string>, offset: nat)
    requires DistinctKeys(keys)
    ensures multiset(AllFound(tokens, keys, offset)) == multiset(AllUses(tokens, KeySet(keys), offset))
  {
    if tokens != [] {
      if tokens[0].Code? { FoundAllIsUses(tokens[0].text, keys, offset); }
      AllFoundIsUses(tokens[1..], keys, offset + Width(tokens[0]));
    }
  }

  predicate From(uses: seq<Use>, lo: nat) {
    forall i | 0 <= i < |uses| :: lo <= uses[i].pos
  }

  lemma AscendingConcat(a: seq<Use>, b: seq<Use>, lo: nat, middle: nat)
    requires Ascending(a) && Within(a, lo, middle) && Ascending(b) && From(b, middle) && lo <= middle
    ensures Ascending(a + b) && From(a + b, lo)
  {
  }

  /** The placeholders of the first segment. */
  lemma FirstUsesAscend(token: Segment, names: set<string>, offset: nat)
    ensures var first := if token.Code? then UsesIn(token.text, names, offset) else [];
            Ascending(first) && Within(first, offset, offset + Width(token))
  {
    hide UsesIn, Ascending, Within;
    if token.Code? {
      UsesAscend(token.text, names, offset);
    } else {
      NothingAscends(offset, offset + Width(token));
    }
  }

  lemma NothingAscends(lo: nat, hi: nat)
    ensures Ascending([]) && Within([], lo, hi) && From([], lo)
  {
  }

  lemma {:induction false} AllUsesAscend(tokens: seq<Segment>, names: set<string>, offset: nat)
    ensures Ascending(AllUses(tokens, names, offset)) && From(AllUses(tokens, names, offset), offset)
  {
    hide UsesIn, Ascending, Within, From, Width;
    if tokens == [] {
      NothingAscends(offset, offset);
    } else {
      var first := if tokens[0].Code? then UsesIn(tokens[0].text, names, offset) else [];
      var next := offset + Width(tokens[0]);
      FirstUsesAscend(tokens[0], names, offset);
      AllUsesAscend(tokens[1..], names, next);
      AscendingConcat(first, AllUses(tokens[1..], names, next), offset, next);
    }
  }

  // ---------------------------------------------------------------- sorting by position

  predicate SortedByPos(uses: seq<Use>) {
    forall i, j | 0 <= i < j < |uses| :: uses[i].pos <= uses[j].pos
  }

  function Insert(u: Use, sorted: seq<Use>): (r: seq<Use>)
    ensures multiset(r) == multiset(sorted) + multiset{u}
  {
    if sorted == [] then [u]
    else if u.pos < sorted[0].pos then [u] + sorted
    else
      assert sorted == [sorted[0]] + sorted[1..];
      [sorted[0]] + Insert(u, sorted[1..])
  }

  lemma {:induction false} InsertSorts(u: Use, sorted: seq<Use>)
    requires SortedByPos(sorted)
    ensures SortedByPos(Insert(u, sorted))
  {
    if sorted != [] && u.pos >= sorted[0].pos {
      InsertSorts(u, sorted[1..]);
      var r := Insert(u, sorted[1..]);
      forall i | 0 <= i < |r| ensures sorted[0].pos <= r[i].pos {
        assert r[i] in multiset(r);
        assert r[i] == u || r[i] in sorted[1..];
      }
    }
  }

  /** `sort((a, b) => a.pos - b.pos)`. */
  function SortByPos(uses: seq<Use>): (r: seq<Use>)
    ensures multiset(r) == multiset(uses)
  {
    if uses == [] then [] else
      assert uses == [uses[0]] + uses[1..];
      Insert(uses[0], SortByPos(uses[1..]))
  }

  lemma {:induction false} SortSorts(uses: seq<Use>)
    ensures SortedByPos(SortByPos(uses))
  {
    if uses != [] {
      SortSorts(uses[1..]);
      InsertSorts(uses[0], SortByPos(uses[1..]));
    }
  }

  lemma SameFirst(a: seq<Use>, b: seq<Use>)
    requires SortedByPos(a) && Ascending(b) && multiset(a) == multiset(b) && b != []
    ensures a != [] && a[0] == b[0]
  {
    assert b[0] in multiset(a);
    assert a != [];
    assert a[0] in multiset(b);
    var j :| 0 <= j < |b| && b[j] == a[0];
    var i :| 0 <= i < |a| && a[i] == b[0];
    assert a[0].pos <= a[i].pos;
  }

  lemma SameRest<T>(x: T, a: seq<T>, b: seq<T>)
    requires multiset([x] + a) == multiset([x] + b)
    ensures multiset(a) == multiset(b)
  {
    assert multiset([x] + a) - multiset{x} == multiset(a);
    assert multiset([x] + b) - multiset{x} == multiset(b);
  }

  /** A sorted list of things at different positions is determined by what it holds. */
  lemma {:induction false} SortedIsUnique(a: seq<Use>, b: seq<Use>)
    requires SortedByPos(a) && Ascending(b) && multiset(a) == multiset(b)
    ensures a == b
  {
    if b == [] {
      assert |multiset(a)| == 0;
    } else {
      SameFirst(a, b);
      assert a == [b[0]] + a[1..] && b == [b[0]] + b[1..];
      SameRest(b[0], a[1..], b[1..]);
      SortedIsUnique(a[1..], b[1..]);
    }
  }

  /** Sorted by position, what the searches found are the placeholders from left to right. */
  lemma SortedFoundIsUses(tokens: seq<Segment>, keys: seq<string>)
    requires DistinctKeys(keys)
    ensures SortByPos(AllFound(tokens, keys, 0)) == AllUses(tokens, KeySet(keys), 0)
  {
    AllFoundIsUses(tokens, keys, 0);
    AllUsesAscend(tokens, KeySet(keys), 0);
    SortSorts(AllFound(tokens, keys, 0));
    SortedIsUnique(SortByPos(AllFound(tokens, keys, 0)), AllUses(tokens, KeySet(keys), 0));
  }
}
