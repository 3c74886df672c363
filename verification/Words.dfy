/** ASCII words: the characters of identifiers, and lower case. */
module Words {

  predicate IsWordStart(c: char) {
    'A' <= c <= 'Z' || 'a' <= c <= 'z' || c == '_'
  }

  predicate IsWordChar(c: char) {
    IsWordStart(c) || '0' <= c <= '9'
  }

  predicate IsWord(s: string) {
    s != "" && forall i | 0 <= i < |s| :: IsWordChar(s[i])
  }

  /** The length of the longest prefix made of word characters. */
  function WordEnd(s: string): (n: nat)
    ensures n <= |s|
  {
    if s == "" || !IsWordChar(s[0]) then 0 else 1 + WordEnd(s[1..])
  }

  function LowerChar(c: char): char {
    if 'A' <= c <= 'Z' then (c as int + 32) as char else c
  }

  function Lower(s: string): string {
    if s == "" then "" else [LowerChar(s[0])] + Lower(s[1..])
  }

  lemma {:induction false} WordEndStops(s: string)
    ensures forall i | 0 <= i < WordEnd(s) :: IsWordChar(s[i])
    ensures WordEnd(s) < |s| ==> !IsWordChar(s[WordEnd(s)])
  {
    if s != "" && IsWordChar(s[0]) { WordEndStops(s[1..]); }
  }

  /** The longest word prefix of a word followed by something else is that word. */
  lemma {:induction false} WordEndAt(word: string, rest: string)
    requires forall i | 0 <= i < |word| :: IsWordChar(word[i])
    requires rest == "" || !IsWordChar(rest[0])
    ensures WordEnd(word + rest) == |word|
  {
    if word == "" {
      assert word + rest == rest;
    } else {
      assert (word + rest)[1..] == word[1..] + rest;
      WordEndAt(word[1..], rest);
    }
  }

  predicate IsLower(s: string) {
    forall i | 0 <= i < |s| :: !('A' <= s[i] <= 'Z')
  }

  lemma {:induction false} LowerOfLower(s: string)
    ensures |Lower(s)| == |s|
    ensures IsLower(Lower(s))
    ensures IsLower(s) ==> Lower(s) == s
    ensures forall i | 0 <= i < |s| :: IsWordChar(s[i]) <==> IsWordChar(Lower(s)[i])
  {
    if s != "" { LowerOfLower(s[1..]); }
  }

  /** `w` is the lower-case `keyword` in any case. */
  predicate Spells(w: string, keyword: string) {
    |w| == |keyword| && forall i | 0 <= i < |w| :: w[i] == keyword[i] || w[i] as int + 32 == keyword[i] as int
  }

  lemma {:induction false} SpellsExactlyWhen(w: string, keyword: string)
    requires forall i | 0 <= i < |keyword| :: 'a' <= keyword[i] <= 'z'
    ensures Spells(w, keyword) <==> Lower(w) == keyword
  {
    if w == "" {
    } else if keyword != "" {
      SpellsExactlyWhen(w[1..], keyword[1..]);
      SpellsStep(w, keyword);
      assert keyword == [keyword[0]] + keyword[1..];
    } else {
      assert |Lower(w)| > 0;
    }
  }

  lemma SpellsStep(w: string, keyword: string)
    requires w != "" && keyword != "" && 'a' <= keyword[0] <= 'z'
    ensures Spells(w, keyword) <==> LowerChar(w[0]) == keyword[0] && Spells(w[1..], keyword[1..])
  {
    if LowerChar(w[0]) == keyword[0] && Spells(w[1..], keyword[1..]) {
      forall i | 0 <= i < |w| ensures w[i] == keyword[i] || w[i] as int + 32 == keyword[i] as int {
        if i > 0 { assert w[1..][i - 1] == w[i] && keyword[1..][i - 1] == keyword[i]; }
      }
    }
  }
}
