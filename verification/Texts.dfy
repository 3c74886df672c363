/** Small text operations of JavaScript: `indexOf`, `\s`, `trim` and `replace(/\s+/g, ' ')`. */
module Texts {

  // ---------------------------------------------------------------- searching

  function IndexOf(s: string, c: char): (n: nat)
    ensures n <= |s|
    ensures n < |s| ==> s[n] == c
    ensures forall i | 0 <= i < n :: s[i] != c
  {
    if s == "" || s[0] == c then 0 else 1 + IndexOf(s[1..], c)
  }

  lemma {:induction false} IndexOfSkips(plain: string, c: char, rest: string)
    requires c !in plain
    ensures IndexOf(plain + [c] + rest, c) == |plain|
  {
    if plain == "" {
      assert plain + [c] + rest == [c] + rest;
    } else {
      assert (plain + [c] + rest)[1..] == plain[1..] + [c] + rest;
      assert plain[0] in plain;
      IndexOfSkips(plain[1..], c, rest);
    }
  }

  // ---------------------------------------------------------------- joining

  /** `join(', ')`. */
  function JoinList(parts: seq<string>): string {
    if parts == [] then "" else if |parts| == 1 then parts[0] else parts[0] + ", " + JoinList(parts[1..])
  }

  lemma JoinListMore(parts: seq<string>)
    requires |parts| > 1
    ensures JoinList(parts) == parts[0] + (", " + JoinList(parts[1..]))
  {
  }

  // ---------------------------------------------------------------- white space

  /** The JavaScript regular-expression class `\s`. */
  predicate IsSpace(c: char) {
    c == ' ' || '\t' <= c <= '\r' || c == '\U{00A0}' || c == '\U{1680}' || '\U{2000}' <= c <= '\U{200A}'
    || c == '\U{2028}' || c == '\U{2029}' || c == '\U{202F}' || c == '\U{205F}' || c == '\U{3000}' || c == '\U{FEFF}'
  }

  function TrimStart(s: string): string {
    if s != "" && IsSpace(s[0]) then TrimStart(s[1..]) else s
  }

  /** By code point, as WhiteSpace and LineTerminator of ECMA-262 (sections 12.2 and 12.3) list them. */
  lemma SpaceIsTrimmed(c: char)
    ensures TrimStart([c]) == ""
            <==> (c as int) in {9, 10, 11, 12, 13, 0x20, 0xA0, 0x1680, 0x2000, 0x2001, 0x2002, 0x2003, 0x2004, 0x2005,
                                0x2006, 0x2007, 0x2008, 0x2009, 0x200A, 0x2028, 0x2029, 0x202F, 0x205F, 0x3000, 0xFEFF}
  {
  }

  function TrimEnd(s: string): string {
    if s != "" && IsSpace(s[|s| - 1]) then TrimEnd(s[..|s| - 1]) else s
  }

  function Trim(s: string): string {
    TrimEnd(TrimStart(s))
  }

  predicate IsTrimmed(s: string) {
    s == "" || (!IsSpace(s[0]) && !IsSpace(s[|s| - 1]))
  }

  function Collapse(s: string): string {
    if s == "" then ""
    else if !IsSpace(s[0]) then [s[0]] + Collapse(s[1..])
    else if |s| > 1 && IsSpace(s[1]) then Collapse(s[1..])
    else " " + Collapse(s[1..])
  }

  /** Every run of white space is one blank. */
  predicate IsCollapsed(s: string) {
    forall i | 0 <= i < |s| && IsSpace(s[i]) :: s[i] == ' ' && (i + 1 < |s| ==> !IsSpace(s[i + 1]))
  }

  lemma {:induction false} TrimStartTrims(s: string)
    ensures TrimStart(s) == "" || !IsSpace(TrimStart(s)[0])
    ensures TrimStart(s) != "" && s != "" ==> TrimStart(s)[|TrimStart(s)| - 1] == s[|s| - 1]
  {
    if s != "" && IsSpace(s[0]) { TrimStartTrims(s[1..]); }
  }

  lemma {:induction false} TrimEndTrims(s: string)
    ensures TrimEnd(s) == "" || !IsSpace(TrimEnd(s)[|TrimEnd(s)| - 1])
    ensures TrimEnd(s) != "" ==> TrimEnd(s)[0] == s[0]
  {
    if s != "" && IsSpace(s[|s| - 1]) { TrimEndTrims(s[..|s| - 1]); }
  }

  lemma TrimTrims(s: string)
    ensures IsTrimmed(Trim(s))
  {
    TrimStartTrims(s);
    TrimEndTrims(TrimStart(s));
  }

  lemma TrimTrimmed(s: string)
    requires IsTrimmed(s)
    ensures Trim(s) == s
  {
  }

  lemma CollapsedCons(c: char, s: string)
    requires IsCollapsed(s) && (IsSpace(c) ==> c == ' ' && (s == "" || !IsSpace(s[0])))
    ensures IsCollapsed([c] + s)
  {
  }

  lemma BlankIsSpace()
    ensures IsSpace(' ')
  {
  }

  lemma {:induction false} CollapseCollapses(s: string)
    ensures IsCollapsed(Collapse(s))
    ensures s == "" ==> Collapse(s) == ""
    ensures s != "" ==> Collapse(s) != "" && Collapse(s)[0] == (if IsSpace(s[0]) then ' ' else s[0])
  {
    if s != "" {
      BlankIsSpace();
      CollapseCollapses(s[1..]);
      if !IsSpace(s[0]) {
        CollapsedCons(s[0], Collapse(s[1..]));
      } else if |s| == 1 || !IsSpace(s[1]) {
        CollapsedCons(' ', Collapse(s[1..]));
      }
    }
  }

  lemma {:induction false} CollapseEnd(s: string)
    requires s != ""
    ensures Collapse(s) != ""
    ensures Collapse(s)[|Collapse(s)| - 1] == (if IsSpace(s[|s| - 1]) then ' ' else s[|s| - 1])
  {
    if |s| > 1 { CollapseEnd(s[1..]); }
  }

  lemma {:induction false} CollapseCollapsed(s: string)
    requires IsCollapsed(s)
    ensures Collapse(s) == s
  {
    if s != "" {
      assert IsCollapsed(s[1..]) by { assert forall i | 0 <= i < |s| - 1 :: s[1..][i] == s[i + 1]; }
      CollapseCollapsed(s[1..]);
    }
  }

  lemma CollapseTrimmed(s: string)
    requires IsTrimmed(s)
    ensures IsTrimmed(Collapse(s)) && IsCollapsed(Collapse(s))
  {
    CollapseCollapses(s);
    if s != "" { CollapseEnd(s); }
  }

  predicate IsGraphic(c: char) {
    '!' <= c <= '~'
  }

  lemma GraphicIsNoSpace(c: char)
    requires IsGraphic(c)
    ensures !IsSpace(c)
  {
  }

  predicate AllGraphic(s: string) {
    forall i | 0 <= i < |s| :: IsGraphic(s[i])
  }

  lemma GraphicIsCollapsed(s: string)
    requires AllGraphic(s)
    ensures IsCollapsed(s) && IsTrimmed(s)
  {
    forall i | 0 <= i < |s| ensures !IsSpace(s[i]) { GraphicIsNoSpace(s[i]); }
  }

  lemma CollapsedConcat(a: string, b: string)
    requires IsCollapsed(a) && IsCollapsed(b)
    requires a == "" || b == "" || !IsSpace(a[|a| - 1]) || !IsSpace(b[0])
    ensures IsCollapsed(a + b)
  {
    var s := a + b;
    forall i | 0 <= i < |s| && IsSpace(s[i]) ensures s[i] == ' ' && (i + 1 < |s| ==> !IsSpace(s[i + 1])) {
      if i < |a| {
        assert s[i] == a[i];
        if i + 1 < |a| { assert s[i + 1] == a[i + 1]; }
      } else {
        assert s[i] == b[i - |a|];
        if i + 1 < |s| { assert s[i + 1] == b[i + 1 - |a|]; }
      }
    }
  }

  lemma CollapsedPart(s: string, from: nat, to: nat)
    requires IsCollapsed(s) && from <= to <= |s|
    ensures IsCollapsed(s[from..to])
  {
    var t := s[from..to];
    assert forall i | 0 <= i < |t| :: t[i] == s[from + i];
  }

  lemma GraphicConcat(a: string, b: string)
    requires AllGraphic(a) && AllGraphic(b)
    ensures AllGraphic(a + b)
  {
  }

  lemma BlankBetween(a: string, b: string)
    requires IsCollapsed(a) && IsTrimmed(a) && a != "" && IsCollapsed(b) && IsTrimmed(b) && b != ""
    ensures IsCollapsed(a + " " + b) && IsTrimmed(a + " " + b)
  {
    BlankIsSpace();
    CollapsedCons(' ', b);
    assert [' '] + b == " " + b;
    CollapsedConcat(a, " " + b);
    assert a + (" " + b) == a + " " + b;
  }

  lemma {:induction false} TrimStartPart(s: string) returns (k: nat)
    ensures k <= |s| && TrimStart(s) == s[k..]
  {
    k := 0;
    if s != "" && IsSpace(s[0]) {
      k := TrimStartPart(s[1..]);
      k := k + 1;
    }
  }

  lemma TrimBlank(tail: string)
    requires tail == "" || !IsSpace(tail[0])
    ensures TrimStart(" " + tail) == tail
  {
    BlankIsSpace();
    assert (" " + tail)[1..] == tail;
  }
}
