/** Declared indexes as lists of columns, on any dialect, and which schemas settle in one pass (lib/sync-to-db.js). */
module IndexEntries {
  import opened Wrappers
  import opened Words
  import opened IndexColumns
  import opened IndexSpecs
  import opened IndexSync

  datatype Entry = Column(spec: Spec) | Json(field: string, quote: char, path: string)

  function EntryText(e: Entry): string {
    match e
    case Column(spec) => SpecText(spec)
    case Json(field, quote, path) => field + "->>" + [quote] + path + [quote]
  }

  function EntryTexts(entries: seq<Entry>): seq<string> {
    seq(|entries|, i requires 0 <= i < |entries| => EntryText(entries[i]))
  }

  /** An entry over a column of the table. */
  predicate IsEntry(fields: set<string>, e: Entry) {
    match e
    case Column(spec) => IsSpec(spec) && spec.name in fields
    case Json(field, quote, path) =>
      IsIdentifier(field) && field in fields && path != "" && NoQuotes(path) && (quote == '"' || quote == '\'')
  }

  predicate AreEntries(fields: set<string>, entries: seq<Entry>) {
    forall i | 0 <= i < |entries| :: IsEntry(fields, entries[i])
  }

  /** What `validatedCols` holds for an entry. */
  function Checked(fulltext: bool, e: Entry): string {
    if fulltext && e.Column? then e.spec.name else EntryText(e)
  }

  function CheckedTexts(fulltext: bool, entries: seq<Entry>): seq<string> {
    seq(|entries|, i requires 0 <= i < |entries| => Checked(fulltext, entries[i]))
  }

  lemma JsonEntry(fields: set<string>, e: Entry)
    requires IsEntry(fields, e) && e.Json?
    ensures HasAccessor(EntryText(e)) && AsAccessor(EntryText(e)) == Some(Accessor(e.field, e.path))
    ensures EntryText(e)[..WordEnd(EntryText(e))] == e.field && SplitColumn(EntryText(e)) == None
  {
    AccessorIsSeen(e.field, e.quote, e.path);
  }

  /** Sync's checks let the entry through. */
  lemma EntryIsChecked(fields: set<string>, fulltext: bool, e: Entry)
    requires IsEntry(fields, e) && (fulltext && e.Column? ==> e.spec.direction == "")
    ensures CheckColumn(fields, EntryText(e), fulltext) == Some(Checked(fulltext, e))
  {
    match e
    case Json(_, _, _) => JsonEntry(fields, e);
    case Column(spec) =>
      NameOfSpec(spec);
      SpecIsValidated(spec);
  }

  predicate AreChecked(d: Dialect, fulltext: bool, entries: seq<Entry>) {
    forall i | 0 <= i < |entries| :: d.column(EntryText(entries[i]), fulltext) == Some(Checked(fulltext, entries[i]))
  }

  lemma {:induction false} EntriesAreChecked(d: Dialect, fulltext: bool, entries: seq<Entry>)
    requires AreChecked(d, fulltext, entries)
    ensures ValidatedColumns(d, EntryTexts(entries), fulltext) == Some(CheckedTexts(fulltext, entries))
  {
    hide EntryText, Checked;
    if entries != [] {
      EntriesAreChecked(d, fulltext, entries[1..]);
      assert EntryTexts(entries)[1..] == EntryTexts(entries[1..]);
      assert CheckedTexts(fulltext, entries) == [Checked(fulltext, entries[0])] + CheckedTexts(fulltext, entries[1..]);
    } else {
      assert CheckedTexts(fulltext, entries) == [];
    }
  }

  // ---------------------------------------------------------------- declared indexes

  /** `mark` is a word in front of the columns that makes it a full-text index. */
  datatype Index = Index(name: string, mark: Option<string>, entries: seq<Entry>, fulltext: bool, unique: bool,
                         where: Option<string>)

  predicate IsFulltext(index: Index) {
    index.fulltext || index.mark.Some?
  }

  /** It has columns; `fulltext` in front of them, in any case, is the mark unless the index is declared as a
      full-text one already. */
  predicate HasColumns(index: Index) {
    index.entries != []
    && match index.mark
       case Some(word) => !index.fulltext && Spells(word, "fulltext")
       case None => index.fulltext || !Spells(EntryText(index.entries[0]), "fulltext")
  }

  function Declaration(index: Index): (string, IndexSpec) {
    var mark := if index.mark.Some? then [index.mark.value] else [];
    (index.name, IndexSpec(Columns(mark + EntryTexts(index.entries)), index.fulltext, index.unique, index.where))
  }

  function Declarations(indexes: seq<Index>): Schema {
    seq(|indexes|, i requires 0 <= i < |indexes| => Declaration(indexes[i]))
  }

  function DefinitionOf(d: Dialect, index: Index): Definition {
    Definition(CheckedTexts(IsFulltext(index), index.entries), IsFulltext(index), index.unique,
               if d.supportsPartial then GivenWhere(index.where) else None)
  }

  /** Whether sync manages the index: no full-text index where there are none or a unique one, and no unique partial
      index where there are no partial ones. */
  predicate IsManaged(d: Dialect, index: Index) {
    && !(IsFulltext(index) && (index.unique || !d.supportsFullText))
    && !(GivenWhere(index.where).Some? && index.unique && !d.supportsPartial)
  }

  /** The mark is dropped, and the columns behind it are those of a full-text index. */
  lemma ColumnsAreFound(index: Index)
    requires HasColumns(index)
    ensures var all := Declaration(index).1.cols.list;
            var marked := !index.fulltext && all != [] && Lower(all[0]) == "fulltext";
            && marked == index.mark.Some? && all != []
            && (if marked then all[1..] else all) == EntryTexts(index.entries)
  {
    hide EntryText, Lower, Spells;
    var all := Declaration(index).1.cols.list;
    SpellsExactlyWhen(all[0], "fulltext");
    if index.mark.Some? {
      assert all[1..] == EntryTexts(index.entries);
    } else {
      assert all == EntryTexts(index.entries) && all[0] == EntryText(index.entries[0]);
    }
  }

  lemma DecisionIs(d: Dialect, c: Catalog, index: Index)
    requires HasColumns(index) && (IsManaged(d, index) ==> AreChecked(d, IsFulltext(index), index.entries))
    ensures DecideFor(d, c, Declaration(index)) == if IsManaged(d, index) then Manage(DefinitionOf(d, index)) else Leave
  {
    assert index.entries != [];
    hide EntryText, Checked, Lower, ValidatedColumns, HasColumns;
    ColumnsAreFound(index);
    var all := Declaration(index).1.cols.list;
    assert (if index.mark.Some? then all[1..] else all) == EntryTexts(index.entries) != [];
    if IsManaged(d, index) { EntriesAreChecked(d, IsFulltext(index), index.entries); }
  }

  /** Sync leaves the index alone, or it is in the database as declared already, or it will be once it is created. */
  predicate Settles(d: Dialect, before: Catalog, index: Index, readsBack: bool) {
    || !IsManaged(d, index)
    || Lookup(before, index.name) == Some(d.desired(DefinitionOf(d, index)))
    || readsBack
  }

  /** `readsBack` tells of every managed index whether its report has the signature sync wants. */
  predicate Tells(d: Dialect, before: Catalog, index: Index, readsBack: bool) {
    && DecideFor(d, before, Declaration(index))
       == (if IsManaged(d, index) then Manage(DefinitionOf(d, index)) else Leave)
    && (IsManaged(d, index) ==>
          (d.reported(DefinitionOf(d, index)) == Some(d.desired(DefinitionOf(d, index))) <==> readsBack))
  }

  /** Where DROP does not mind a missing index, nothing fails for an index that the server takes. */
  lemma TakenNeverFails(d: Dialect, before: Catalog, index: Index, readsBack: bool)
    requires Tells(d, before, index, readsBack) && d.dropsIfExists
    requires IsManaged(d, index) ==> d.reported(DefinitionOf(d, index)).Some?
    ensures Failing(d, before, Declaration(index)) == []
  {
    hide DefinitionOf, IsManaged, DecideFor, Declaration;
  }

  lemma AllFaithfulExactlyWhen(d: Dialect, before: Catalog, indexes: seq<Index>, readsBack: Index -> bool)
    requires forall i | 0 <= i < |indexes| :: Tells(d, before, indexes[i], readsBack(indexes[i]))
    ensures Faithful(d, before, Declarations(indexes))
            <==> forall i | 0 <= i < |indexes| :: Settles(d, before, indexes[i], readsBack(indexes[i]))
  {
    hide DefinitionOf, IsManaged, DecideFor;
    var schema := Declarations(indexes);
    forall i | 0 <= i < |indexes|
      ensures FaithfulFor(d, before, schema[i]) <==> Settles(d, before, indexes[i], readsBack(indexes[i]))
    {
      assert Tells(d, before, indexes[i], readsBack(indexes[i]));
    }
  }

  // ---------------------------------------------------------------- signatures

  /** Two lists of columns have one spelling exactly when each pair of columns has. */
  lemma SameListsExactlyWhen(a: seq<string>, b: seq<string>, same: seq<bool>)
    requires |a| == |b| == |same| && forall i | 0 <= i < |a| :: NormalizeSpec(a[i]) == NormalizeSpec(b[i]) <==> same[i]
    ensures NormalizeAll(a) == NormalizeAll(b) <==> forall i | 0 <= i < |same| :: same[i]
  {
    hide NormalizeSpec;
    var p, q := NormalizeAll(a), NormalizeAll(b);
    if i :| 0 <= i < |same| && !same[i] {
      assert p[i] != q[i];
    } else {
      assert p == q;
    }
  }

  /** The predicate of a signature: the canonical form of what was declared, or of what was read. */
  function Canonical(canonical: string -> string, where: Option<string>): Option<string> {
    if where.Some? then Some(canonical(where.value)) else None
  }

  /** The predicate as the catalog gives it back has the canonical form of the declared one. */
  predicate WhereReadsBack(canonical: string -> string, reread: string -> string, where: Option<string>) {
    where.Some? ==> canonical(reread(where.value)) == canonical(where.value)
  }

  function Reread(reread: string -> string, where: Option<string>): Option<string> {
    if where.Some? then Some(reread(where.value)) else None
  }

  // ---------------------------------------------------------------- names that every object inherits

  /** A raw index of such a name is taken for one that is there: it is never created. */
  lemma InheritedRawIsNeverCreated(d: Dialect, before: Catalog, name: string, text: string)
    requires name in d.inherited && name !in before
    ensures var index := (name, IndexSpec(RawSql(text), false, false, None));
            && After(d, before, index) == None && InPlace(d, before, index)
            && (|text| >= 2 && text[0] == '(' && text[|text| - 1] == ')' ==> !GoesWell(d, before, index))
  {
  }
}
