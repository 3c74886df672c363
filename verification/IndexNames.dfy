/** Physical index names (fitIdentifierToLimit and resolvePhysicalIndexName of lib/sync-to-db.js). */
module IndexNames {
  // The eight hexadecimal digits of the hash are any function of the name.


  /** A dialect that prefixes index names with the table, and its identifier limit (0 for none). */
  datatype Naming = Naming(table: string, limit: nat, digest: string -> string)

  predicate IsNaming(m: Naming, name: string) {
    |m.digest(name)| == 8
  }

  /** `value.slice(0, end)`, a negative end counting from the back. */
  function SliceTo(value: string, end: int): string {
    var e := if end < 0 then |value| + end else end;
    if e < 0 then "" else if e > |value| then value else value[..e]
  }

  function Fit(m: Naming, name: string): string {
    if m.limit == 0 || |name| <= m.limit then name else SliceTo(name, m.limit - 9) + "_" + m.digest(name)
  }

  function Prefix(m: Naming): string {
    m.table + "_"
  }

  predicate StartsWith(s: string, p: string) {
    |s| >= |p| && s[..|p|] == p
  }

  function Prefixed(m: Naming, name: string): string {
    if StartsWith(name, Prefix(m)) then name else Prefix(m) + name
  }

  function Resolve(m: Naming, name: string): string {
    Fit(m, Prefixed(m, name))
  }

  // ---------------------------------------------------------------- the limit

  /** The name fits exactly when it did already or the limit leaves room for the hash. */
  lemma FitsExactlyWhen(m: Naming, name: string)
    requires IsNaming(m, name) && m.limit > 0
    ensures |Fit(m, name)| <= m.limit <==> |name| <= m.limit || m.limit >= 9
  {
  }

  /** Fitting twice is fitting once. */
  lemma FitTwice(m: Naming, name: string)
    requires IsNaming(m, name) && (m.limit == 0 || m.limit >= 9)
    ensures Fit(m, Fit(m, name)) == Fit(m, name)
  {
    if m.limit > 0 { FitsExactlyWhen(m, name); }
  }

  // ---------------------------------------------------------------- resolving a physical name

  predicate IsCut(m: Naming, name: string) {
    m.limit > 0 && |Prefixed(m, name)| > m.limit
  }

  /** The cut is inside the prefix. */
  predicate PrefixIsCut(m: Naming, name: string) {
    IsCut(m, name) && |m.table| + 9 > m.limit
  }

  /** The underscore and the hash happen to spell what the cut took from the prefix. */
  predicate HashSpellsPrefix(m: Naming, name: string)
    requires PrefixIsCut(m, name) && m.limit >= 9
  {
    |m.table| + 1 <= m.limit && StartsWith("_" + m.digest(Prefixed(m, name)), m.table[m.limit - 9..] + "_")
  }

  /** What a name is cut to: its beginning, an underscore and the hash. */
  lemma CutName(m: Naming, name: string)
    requires IsCut(m, name) && m.limit >= 9 && IsNaming(m, Prefixed(m, name))
    ensures var long, physical := Prefixed(m, name), Resolve(m, name);
            physical == long[..m.limit - 9] + "_" + m.digest(long) && |physical| == m.limit
  {
  }

  lemma PrefixedStarts(m: Naming, name: string)
    ensures StartsWith(Prefixed(m, name), Prefix(m))
  {
    assert (Prefix(m) + name)[..|Prefix(m)|] == Prefix(m);
  }

  /** A text and a continuation against a pattern that the text begins. */
  lemma StartsInTwo(front: string, back: string, pattern: string)
    requires |front| <= |pattern| && pattern[..|front|] == front
    ensures StartsWith(front + back, pattern) <==> StartsWith(back, pattern[|front|..])
  {
    var rest := pattern[|front|..];
    assert pattern == front + rest;
    if |back| >= |rest| {
      assert (front + back)[..|pattern|] == front + back[..|rest|];
      assert (front + back[..|rest|])[|front|..] == back[..|rest|];
    }
  }

  /** The prefix is still there exactly when the cut is behind it, where the underscore before the hash may serve
      as its last character, or when the hash spells the rest of it. */
  lemma PrefixStaysExactlyWhen(m: Naming, name: string)
    requires m.limit == 0 || m.limit >= 9
    requires IsNaming(m, Prefixed(m, name))
    ensures StartsWith(Resolve(m, name), Prefix(m)) <==> !PrefixIsCut(m, name) || HashSpellsPrefix(m, name)
    ensures PrefixIsCut(m, name) ==> Prefixed(m, name)[..m.limit - 9] == Prefix(m)[..m.limit - 9]
  {
    PrefixedStarts(m, name);
    if IsCut(m, name) {
      CutName(m, name);
      var long, cut := Prefixed(m, name), m.limit - 9;
      var physical := Resolve(m, name);
      assert long[..|Prefix(m)|] == Prefix(m);
      if |m.table| < cut {
        assert physical[..|Prefix(m)|] == long[..|Prefix(m)|];
      } else if |m.table| == cut {
        assert physical[..|Prefix(m)|] == long[..cut] + "_" == Prefix(m)[..cut] + "_";
      } else {
        assert long[..cut] == long[..|Prefix(m)|][..cut];
        assert physical == long[..cut] + ("_" + m.digest(long));
        StartsInTwo(long[..cut], "_" + m.digest(long), Prefix(m));
        assert Prefix(m)[cut..] == m.table[cut..] + "_";
      }
    }
  }

  /** A physical name resolves to itself exactly when the prefix was not cut, or the hash spells what was cut off,
      or the name and its prefixed physical name have one hash. */
  lemma ResolveTwiceExactlyWhen(m: Naming, name: string)
    requires m.limit == 0 || m.limit >= 9
    requires IsNaming(m, Prefixed(m, name)) && IsNaming(m, Prefix(m) + Resolve(m, name))
    ensures Resolve(m, Resolve(m, name)) == Resolve(m, name)
            <==> || !PrefixIsCut(m, name)
                 || HashSpellsPrefix(m, name)
                 || (var long := Prefixed(m, name);
                     m.digest(long) == m.digest(Prefix(m) + (long[..m.limit - 9] + "_" + m.digest(long))))
  {
    var physical, long := Resolve(m, name), Prefixed(m, name);
    FitTwice(m, long);
    PrefixStaysExactlyWhen(m, name);
    if PrefixIsCut(m, name) { CutName(m, name); }
    if !StartsWith(physical, Prefix(m)) {
      var again := Prefix(m) + physical;
      var cut := m.limit - 9;
      assert again[..cut] == Prefix(m)[..cut];
      assert physical[cut + 1..] == m.digest(long);
      assert Resolve(m, physical)[cut + 1..] == m.digest(again);
    }
  }

  /** Tables whose name leaves room for the hash are safe: resolving is idempotent there. */
  lemma ShortTablesResolveOnce(m: Naming, name: string)
    requires m.limit == 0 || |m.table| + 9 <= m.limit
    requires IsNaming(m, Prefixed(m, name)) && IsNaming(m, Prefix(m) + Resolve(m, name))
    ensures Resolve(m, Resolve(m, name)) == Resolve(m, name)
  {
    ResolveTwiceExactlyWhen(m, name);
  }

  lemma DifferentStart(s: string, p: string)
    requires |s| > 0 && |p| > 0 && s[0] != p[0]
    ensures !StartsWith(s, p)
  {
    assert |s| >= |p| ==> s[..|p|][0] == s[0];
  }

  /** PostgreSQL allows 63 characters. A table name of 60 without underscores takes the hash of the index `abc`
      off the prefix, so that resolving again prefixes and hashes again. */
  lemma SixtyCharacterTable(table: string, digest: string -> string)
    requires |table| == 60 && forall k | 0 <= k < 60 :: table[k] != '_'
    requires forall name: string :: |digest(name)| == 8
    requires digest(table + "_abc") != digest(table + "_" + (table[..54] + "_" + digest(table + "_abc")))
    ensures var m := Naming(table, 63, digest); Resolve(m, Resolve(m, "abc")) != Resolve(m, "abc")
  {
    var m := Naming(table, 63, digest);
    assert Prefixed(m, "abc") == table + "_abc";
    assert (table + "_abc")[..54] == table[..54];
    var tail := table[54..] + "_";
    assert tail[0] == table[54] != '_';
    DifferentStart("_" + digest(table + "_abc"), tail);
    ResolveTwiceExactlyWhen(m, "abc");
  }

  // ---------------------------------------------------------------- collisions

  /** `b` is what `a` becomes by prefixing. */
  predicate Hides(m: Naming, a: string, b: string) {
    !StartsWith(a, Prefix(m)) && b == Prefix(m) + a
  }

  /** Two names get one prefixed name exactly when they are equal or one is the other with the prefix. */
  lemma SamePrefixedExactlyWhen(m: Naming, a: string, b: string)
    ensures Prefixed(m, a) == Prefixed(m, b) <==> a == b || Hides(m, a, b) || Hides(m, b, a)
  {
    assert (Prefix(m) + a)[|Prefix(m)|..] == a && (Prefix(m) + b)[|Prefix(m)|..] == b;
    assert StartsWith(Prefix(m) + a, Prefix(m)) && StartsWith(Prefix(m) + b, Prefix(m));
  }

  /** `b` is declared under the very name that `a` is cut to, with the prefix or without it. */
  predicate Takes(m: Naming, a: string, b: string)
    requires IsCut(m, a) && m.limit >= 9
  {
    var physical := Prefixed(m, a)[..m.limit - 9] + "_" + m.digest(Prefixed(m, a));
    Hides(m, b, physical) || (b == physical && StartsWith(physical, Prefix(m)))
  }

  /** When two declared names meet. */
  predicate Meet(m: Naming, a: string, b: string)
    requires m.limit == 0 || m.limit >= 9
  {
    if IsCut(m, a) && IsCut(m, b) then
      && Prefixed(m, a)[..m.limit - 9] == Prefixed(m, b)[..m.limit - 9]
      && m.digest(Prefixed(m, a)) == m.digest(Prefixed(m, b))
    else if IsCut(m, a) then Takes(m, a, b)
    else if IsCut(m, b) then Takes(m, b, a)
    else a == b || Hides(m, a, b) || Hides(m, b, a)
  }

  /** A name that is not cut meets one that is exactly when it is what that one is cut to. */
  lemma TakesExactlyWhen(m: Naming, a: string, b: string)
    requires IsCut(m, a) && !IsCut(m, b) && m.limit >= 9
    requires IsNaming(m, Prefixed(m, a))
    ensures Resolve(m, a) == Resolve(m, b) <==> Takes(m, a, b)
  {
    CutName(m, a);
    PrefixedStarts(m, b);
  }

  /** Two declared names get one physical name exactly when they meet: neither is cut and they are equal or differ
      by the prefix alone; both are cut and beginning and hash agree; or one is the name the other is cut to. */
  lemma SameNameExactlyWhen(m: Naming, a: string, b: string)
    requires m.limit == 0 || m.limit >= 9
    requires IsNaming(m, Prefixed(m, a)) && IsNaming(m, Prefixed(m, b))
    ensures Resolve(m, a) == Resolve(m, b) <==> Meet(m, a, b)
  {
    SamePrefixedExactlyWhen(m, a, b);
    var p, q := Prefixed(m, a), Prefixed(m, b);
    if IsCut(m, a) && IsCut(m, b) {
      var cut := m.limit - 9;
      CutName(m, a);
      CutName(m, b);
      assert Resolve(m, a)[..cut] == p[..cut] && Resolve(m, b)[..cut] == q[..cut];
      assert Resolve(m, a)[cut + 1..] == m.digest(p) && Resolve(m, b)[cut + 1..] == m.digest(q);
    } else if IsCut(m, a) {
      TakesExactlyWhen(m, a, b);
    } else if IsCut(m, b) {
      TakesExactlyWhen(m, b, a);
    }
  }

  /** The declared names of a table have distinct physical names exactly when no two of them meet. */
  lemma DistinctExactlyWhen(m: Naming, names: seq<string>)
    requires m.limit == 0 || m.limit >= 9
    requires forall i | 0 <= i < |names| :: IsNaming(m, Prefixed(m, names[i]))
    ensures (forall i, j | 0 <= i < j < |names| :: Resolve(m, names[i]) != Resolve(m, names[j]))
            <==> forall i, j | 0 <= i < j < |names| :: !Meet(m, names[i], names[j])
  {
    forall i, j | 0 <= i < j < |names|
      ensures Resolve(m, names[i]) == Resolve(m, names[j]) <==> Meet(m, names[i], names[j])
    {
      SameNameExactlyWhen(m, names[i], names[j]);
    }
  }

  /** Whatever the table and the limit, `x` and the table's own `<table>_x` are one index. */
  lemma PrefixedTwinsMeet(m: Naming)
    ensures "x" != m.table + "_x" && Resolve(m, "x") == Resolve(m, m.table + "_x")
  {
    assert m.table + "_x" == Prefix(m) + "x";
    if m.table == "" { DifferentStart("x", Prefix(m)); }
    SamePrefixedExactlyWhen(m, "x", m.table + "_x");
  }

  /** Where the table leaves room for the hash, each name that is cut meets a shorter one that is not: its own
      physical name, declared beside it. */
  lemma CutNameMeetsUncut(m: Naming, a: string)
    requires IsCut(m, a) && |m.table| + 9 <= m.limit && IsNaming(m, Prefixed(m, a))
    ensures var b := Resolve(m, a); !IsCut(m, b) && Resolve(m, b) == Resolve(m, a) && |b| < |Prefixed(m, a)|
  {
    CutName(m, a);
    PrefixStaysExactlyWhen(m, a);
  }
}
