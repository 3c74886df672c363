/** Placeholders behind a comment, down to the positional text (lib/sql-transform/PostgresSqlTransformer.js). */
module PostgresStatement {
  import opened Numerals
  import opened Words
  import opened PostgresTokens
  import opened PostgresParams
  import opened PostgresBinding

  function JoinTexts(parts: seq<string>): string {
    if parts == [] then "" else parts[0] + JoinTexts(parts[1..])
  }

  /** Code in which nothing is replaced. */
  predicate IsPlainCode(s: string) {
    IsInert(s) && ':' !in s
  }

  /** A name behind plain code, and what follows it. */
  lemma NameIsUsed(a: string, key: string, rest: string, names: set<string>, offset: nat)
    requires ':' !in a && IsWord(key) && key in names && (rest == "" || !IsWordChar(rest[0]))
    ensures UsesIn(a + (":" + key + rest), names, offset)
            == [Use(key, offset + |a|)] + UsesIn(rest, names, offset + |a| + |key| + 1)
    ensures forall subs: map<string, string> | key in subs ::
              Substitute(a + (":" + key + rest), subs) == a + subs[key] + Substitute(rest, subs)
  {
    var text := ":" + key + rest;
    assert text[1..] == key + rest && text[|key| + 1..] == rest;
    WordEndAt(key, rest);
    assert WordAfterColon(text) == key;
    UsesSkip(a, text, names, offset);
    forall subs: map<string, string> | key in subs
      ensures Substitute(a + text, subs) == a + subs[key] + Substitute(rest, subs)
    {
      SubstituteSkips(a, text, subs);
      assert a + (subs[key] + Substitute(rest, subs)) == a + subs[key] + Substitute(rest, subs);
    }
  }

  lemma PlainHasNoUse(s: string, names: set<string>, offset: nat)
    requires ':' !in s
    ensures UsesIn(s, names, offset) == []
    ensures forall subs: map<string, string> :: Substitute(s, subs) == s
  {
    UsesSkip(s, "", names, offset);
    assert s + "" == s;
    forall subs: map<string, string> ensures Substitute(s, subs) == s { SubstituteSkips(s, "", subs); }
  }

  lemma OneAndTwo()
    ensures Decimal(1) == "1" && Decimal(2) == "2"
  {
  }

  /** The order of two names, or of one used twice. */
  lemma OrderOfTwo(k: string, i: nat, l: string, j: nat, skip: set<string>)
    requires k !in skip && l !in skip
    ensures FirstUses([Use(k, i), Use(l, j)], skip) == if k == l then [k] else [k, l]
  {
    assert [Use(k, i), Use(l, j)][..1] == [Use(k, i)] && [Use(k, i)][..0] == [];
    assert FirstUses([Use(k, i)], skip) == [k];
  }

  lemma MarkerAt(order: seq<string>, i: nat, keys: seq<string>, inherited: Inherited)
    requires NoDuplicates(order) && i < |order| && order[i] in keys
    ensures order[i] in MarkersFor(order, inherited, keys)
    ensures MarkersFor(order, inherited, keys)[order[i]] == "$" + Decimal(i + 1)
  {
    hide Decimal;
    PlacesOfAt(order, i);
  }

  lemma MarkersOfTwo(k: string, l: string, keys: seq<string>, inherited: Inherited)
    requires k in keys && l in keys
    ensures var order := if k == l then [k] else [k, l];
            && k in MarkersFor(order, inherited, keys) && l in MarkersFor(order, inherited, keys)
            && MarkersFor(order, inherited, keys)[k] == "$1"
            && MarkersFor(order, inherited, keys)[l] == if k == l then "$1" else "$2"
  {
    hide MarkersFor, Decimal;
    var order := if k == l then [k] else [k, l];
    OneAndTwo();
    MarkerAt(order, 0, keys, inherited);
    MarkerAt(order, |order| - 1, keys, inherited);
    assert "$" + "1" == "$1" && "$" + "2" == "$2";
  }

  /** Two names in one code segment. */
  function CodeOfTwo(a: string, k: string, b: string, l: string, e: string): string {
    a + (":" + k + (b + (":" + l + e)))
  }

  predicate AreTwo(a: string, k: string, b: string, l: string, e: string) {
    && IsPlainCode(a) && IsPlainCode(b) && IsPlainCode(e) && IsWord(k) && IsWord(l)
    && b != "" && !IsWordChar(b[0]) && (e == "" || !IsWordChar(e[0]))
  }

  lemma TwoNames(a: string, k: string, b: string, l: string, e: string, names: set<string>, offset: nat)
    requires AreTwo(a, k, b, l, e) && k in names && l in names
    ensures UsesIn(CodeOfTwo(a, k, b, l, e), names, offset)
            == [Use(k, offset + |a|), Use(l, offset + |a| + |k| + 1 + |b|)]
    ensures forall subs: map<string, string> | k in subs && l in subs ::
              Substitute(CodeOfTwo(a, k, b, l, e), subs) == a + subs[k] + (b + subs[l] + e)
  {
    hide UsesIn, Substitute, IsWord;
    var text := b + (":" + l + e);
    NameIsUsed(a, k, text, names, offset);
    NameIsUsed(b, l, e, names, offset + |a| + |k| + 1);
    PlainHasNoUse(e, names, offset + |a| + |k| + 1 + |b| + |l| + 1);
  }

  lemma TwoNamesAreInert(a: string, k: string, b: string, l: string, e: string)
    requires AreTwo(a, k, b, l, e)
    ensures IsInert(CodeOfTwo(a, k, b, l, e)) && CodeOfTwo(a, k, b, l, e) != ""
  {
    WordIsInert(k);
    WordIsInert(l);
    hide IsWord;
    assert IsInert(":");
    assert IsInert(":" + l + e);
    assert IsInert(b + (":" + l + e));
    assert IsInert(":" + k + (b + (":" + l + e)));
  }

  lemma WordIsInert(word: string)
    requires IsWord(word)
    ensures IsInert(word)
  {
  }

  lemma TokensBehindComment(comment: string, code: string)
    requires '\n' !in comment && code != "" && IsInert(code)
    ensures Tokenize("--" + comment + "\n" + code) == [Comment("--" + comment + "\n"), Code(code)]
  {
    hide Tokenize, IsInert;
    LineCommentEnds(comment, code);
    CodeEnds(code, "");
    assert code + "" == code;
    NothingIsTokenized();
  }

  /** A placeholder on the line behind a comment, and another one. */
  lemma BehindComment(comment: string, a: string, k: string, b: string, l: string, e: string, keys: seq<string>,
                      inherited: Inherited)
    requires '\n' !in comment && AreTwo(a, k, b, l, e)
    requires k in keys && l in keys && k !in inherited && l !in inherited
    ensures var tokens := [Comment("--" + comment + "\n"), Code(CodeOfTwo(a, k, b, l, e))];
            var order := if k == l then [k] else [k, l];
            && Tokenize("--" + comment + "\n" + CodeOfTwo(a, k, b, l, e)) == tokens
            && ParamOrder(tokens, keys, inherited) == order
            && Rendered(tokens[1], MarkersFor(order, inherited, keys))
               == a + "$1" + (b + (if k == l then "$1" else "$2") + e)
  {
    hide UsesIn, Substitute, Tokenize, MarkersFor, FirstUses, AreTwo, AllUses, CodeOfTwo;
    var front, code := "--" + comment + "\n", CodeOfTwo(a, k, b, l, e);
    TwoNamesAreInert(a, k, b, l, e);
    TokensBehindComment(comment, code);
    TwoNames(a, k, b, l, e, KeySet(keys), |front|);
    SecondSegment(Comment(front), code, keys);
    OrderOfTwo(k, |front| + |a|, l, |front| + |a| + |k| + 1 + |b|, inherited.Keys);
    MarkersOfTwo(k, l, keys, inherited);
  }

  lemma SecondSegment(comment: Segment, code: string, keys: seq<string>)
    requires comment.Comment?
    ensures AllUses([comment, Code(code)], KeySet(keys), 0) == UsesIn(code, KeySet(keys), |comment.text|)
  {
    hide UsesIn;
    assert [comment, Code(code)][1..] == [Code(code)] && [Code(code)][1..] == [];
    assert AllUses([Code(code)], KeySet(keys), |comment.text|) == UsesIn(code, KeySet(keys), |comment.text|) + [];
  }

  /** What the transformer makes of such a statement. */
  method TransformBehindComment(comment: string, a: string, k: string, b: string, l: string, e: string,
                                keys: seq<string>, inherited: Inherited)
    returns (sql: string, paramOrder: seq<string>)
    requires DistinctKeys(keys) && Harmless(inherited) && '\n' !in comment && AreTwo(a, k, b, l, e)
    requires k in keys && l in keys && k !in inherited && l !in inherited
    ensures sql == "--" + comment + "\n" + (a + "$1" + (b + (if k == l then "$1" else "$2") + e))
    ensures paramOrder == if k == l then [k] else [k, l]
  {
    hide AreTwo, CodeOfTwo, Tokenize, ParamOrder, MarkersFor;
    var tokens, parts;
    tokens, parts, paramOrder :=
      TransformPlaceholders("--" + comment + "\n" + CodeOfTwo(a, k, b, l, e), keys, inherited);
    BehindComment(comment, a, k, b, l, e, keys, inherited);
    JoinOfTwo(parts);
    sql := JoinTexts(parts);
  }

  lemma JoinOfTwo(parts: seq<string>)
    requires |parts| == 2
    ensures JoinTexts(parts) == parts[0] + parts[1]
  {
    assert parts[1..] == [parts[1]] && parts[1..][1..] == [];
    assert JoinTexts([parts[1]]) == parts[1] + "";
  }
}
