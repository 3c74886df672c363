/** The canonical comparison text of a predicate (lib/sql-transform/indexPredicate.js): over identifier-shaped
    names it loses the case of names and nothing else. */
module IndexPredicateText {
  import opened Words
  import opened IndexPredicate
  import opened IndexPredicateMeaning

  /** Trees of AND, OR and NOT over column names. */
  predicate IsSkeleton(node: Ast) {
    match node
    case Column(_) => true
    case Unary(operator, e) => operator == "NOT" && IsSkeleton(e)
    case Binary(_, _, _) => false
    case Connective(_, l, r, _) => IsSkeleton(l) && IsSkeleton(r)
  }

  function OpText(op: Op): string {
    if op == And then "and" else "or"
  }

  /** `render`, for these trees: every composite is parenthesised. */
  function Render(node: Ast): string
    requires IsSkeleton(node)
  {
    match node
    case Column(name) => Lower(name)
    case Unary(_, e) => "(not " + Render(e) + ")"
    case Connective(op, l, r, _) => "(" + Render(l) + " " + OpText(op) + " " + Render(r) + ")"
  }

  /** The tree with its names in lower case and its own parentheses forgotten: all the text can know. */
  function Canonical(node: Ast): (c: Ast)
    requires IsSkeleton(node)
    ensures IsSkeleton(c)
  {
    match node
    case Column(name) => Column(Lower(name))
    case Unary(operator, e) => Unary(operator, Canonical(e))
    case Connective(op, l, r, _) => Connective(op, Canonical(l), Canonical(r), false)
  }

  predicate NamesOk(node: Ast)
    requires IsSkeleton(node)
  {
    match node
    case Column(name) => IsWord(name)
    case Unary(_, e) => NamesOk(e)
    case Connective(_, l, r, _) => NamesOk(l) && NamesOk(r)
  }

  predicate IsCanonical(node: Ast) {
    IsSkeleton(node) && NamesOk(node) && Canonical(node) == node
  }

  lemma {:induction false} CanonicalRenders(node: Ast)
    requires IsSkeleton(node) && NamesOk(node)
    ensures Render(Canonical(node)) == Render(node) && IsCanonical(Canonical(node))
  {
    match node
    case Column(name) => LowerOfLower(name); LowerOfLower(Lower(name));
    case Unary(_, e) => CanonicalRenders(e);
    case Connective(_, l, r, _) => CanonicalRenders(l); CanonicalRenders(r);
  }

  // ---------------------------------------------------------------- reading a rendered text back

  /** What may follow a rendered tree inside a larger text. */
  predicate Stops(rest: string) {
    rest == "" || rest[0] == ' ' || rest[0] == ')'
  }

  lemma NamesEndTogether(a: string, s: string, b: string, t: string)
    requires IsWord(a) && IsWord(b) && Stops(s) && Stops(t) && a + s == b + t
    ensures a == b && s == t
  {
    WordEndAt(a, s);
    WordEndAt(b, t);
    assert a == (a + s)[..|a|] && b == (b + t)[..|b|];
    assert s == (a + s)[|a|..] && t == (b + t)[|b|..];
  }

  /** Cancel a common beginning. */
  lemma Cancel(p: string, s: string, t: string)
    requires p + s == p + t
    ensures s == t
  {
    assert s == (p + s)[|p|..] && t == (p + t)[|p|..];
  }

  lemma RenderStart(node: Ast)
    requires IsCanonical(node)
    ensures Render(node) != ""
    ensures Render(node)[0] == '(' <==> !node.Column?
  {
    if node.Column? { assert IsWordChar(node.name[0]); }
  }

  /** A rendered tree and what follows it can be told apart: no rendering is the beginning of another. */
  lemma {:induction false} RenderIsExact(a: Ast, s: string, b: Ast, t: string)
    requires IsCanonical(a) && IsCanonical(b) && Stops(s) && Stops(t)
    requires Render(a) + s == Render(b) + t
    ensures a == b && s == t
    decreases Size(a) + Size(b), 1
  {
    RenderStart(a);
    RenderStart(b);
    assert (Render(a) + s)[0] == Render(a)[0] && (Render(b) + t)[0] == Render(b)[0];
    match (a, b)
    case (Column(m), Column(n)) => NamesEndTogether(m, s, n, t);
    case (Unary(_, e), Unary(_, f)) => UnaryIsExact(e, s, f, t);
    case (Connective(_, _, _, _), Connective(_, _, _, _)) => ConnectiveIsExact(a, s, b, t);
    case (Unary(_, e), Connective(_, _, _, _)) => UnaryIsNoConnective(e, s, b, t);
    case (Connective(_, _, _, _), Unary(_, f)) => UnaryIsNoConnective(f, t, a, s);
  }

  lemma {:induction false} UnaryIsExact(e: Ast, s: string, f: Ast, t: string)
    requires IsCanonical(e) && IsCanonical(f) && Stops(s) && Stops(t)
    requires "(not " + Render(e) + ")" + s == "(not " + Render(f) + ")" + t
    ensures e == f && s == t
    decreases Size(e) + Size(f) + 1, 0
  {
    assert "(not " + Render(e) + ")" + s == "(not " + (Render(e) + (")" + s));
    assert "(not " + Render(f) + ")" + t == "(not " + (Render(f) + (")" + t));
    Cancel("(not ", Render(e) + (")" + s), Render(f) + (")" + t));
    RenderIsExact(e, ")" + s, f, ")" + t);
    Cancel(")", s, t);
  }

  /** A rendered connective as its left operand and what follows it. */
  function AfterLeft(node: Ast, s: string): string
    requires node.Connective? && IsSkeleton(node)
  {
    " " + (OpText(node.op) + (" " + Render(node.right) + ")" + s))
  }

  lemma Reassociates(l: string, o: string, r: string, s: string)
    ensures "(" + l + " " + o + " " + r + ")" + s == "(" + (l + (" " + (o + (" " + r + ")" + s))))
  {
  }

  lemma ConnectiveSplits(node: Ast, s: string)
    requires node.Connective? && IsSkeleton(node)
    ensures Render(node) + s == "(" + (Render(node.left) + AfterLeft(node, s))
    ensures Stops(AfterLeft(node, s))
  {
    Reassociates(Render(node.left), OpText(node.op), Render(node.right), s);
  }

  lemma {:induction false} ConnectiveIsExact(a: Ast, s: string, b: Ast, t: string)
    requires a.Connective? && b.Connective? && IsCanonical(a) && IsCanonical(b) && Stops(s) && Stops(t)
    requires Render(a) + s == Render(b) + t
    ensures a == b && s == t
    decreases Size(a) + Size(b), 0
  {
    ConnectiveSplits(a, s);
    ConnectiveSplits(b, t);
    Cancel("(", Render(a.left) + AfterLeft(a, s), Render(b.left) + AfterLeft(b, t));
    RenderIsExact(a.left, AfterLeft(a, s), b.left, AfterLeft(b, t));
    var x, y := " " + Render(a.right) + ")" + s, " " + Render(b.right) + ")" + t;
    Cancel(" ", OpText(a.op) + x, OpText(b.op) + y);
    NamesEndTogether(OpText(a.op), x, OpText(b.op), y);
    RightIsExact(a.right, s, b.right, t);
  }

  lemma {:induction false} RightIsExact(a: Ast, s: string, b: Ast, t: string)
    requires IsCanonical(a) && IsCanonical(b)
    requires " " + Render(a) + ")" + s == " " + Render(b) + ")" + t
    ensures a == b && s == t
    decreases Size(a) + Size(b) + 1, 0
  {
    assert " " + Render(a) + ")" + s == " " + (Render(a) + (")" + s));
    assert " " + Render(b) + ")" + t == " " + (Render(b) + (")" + t));
    Cancel(" ", Render(a) + (")" + s), Render(b) + (")" + t));
    RenderIsExact(a, ")" + s, b, ")" + t);
    Cancel(")", s, t);
  }

  /** `(not x)` is never `(l op r)`, not even where a column is called `not`. */
  lemma NotSplits(rest: string, e: string, s: string)
    requires rest == e + (")" + s)
    ensures "(not " + e + ")" + s == "(" + ("not" + (" " + rest))
  {
  }

  lemma {:induction false} UnaryIsNoConnective(e: Ast, s: string, b: Ast, t: string)
    requires IsCanonical(e) && IsCanonical(b) && b.Connective? && Stops(s) && Stops(t)
    ensures "(not " + Render(e) + ")" + s != Render(b) + t
    decreases Size(e) + Size(b), 0
  {
    var rest, y := Render(e) + (")" + s), " " + Render(b.right) + ")" + t;
    NotSplits(rest, Render(e), s);
    ConnectiveSplits(b, t);
    assert Size(b) == 1 + Size(b.left) + Size(b.right) && Size(b.left) > 0;
    OperandIsNoConnective(e, s, b.op, y);
    if "(" + ("not" + (" " + rest)) == "(" + (Render(b.left) + AfterLeft(b, t)) {
      Cancel("(", "not" + (" " + rest), Render(b.left) + AfterLeft(b, t));
      LeftIsNot(rest, b.left, AfterLeft(b, t));
      Cancel(" ", rest, OpText(b.op) + y);
    }
  }

  /** If a text starts like the column `not`, its left operand is that column. */
  lemma {:induction false} LeftIsNot(rest: string, left: Ast, after: string)
    requires IsCanonical(left) && Stops(after) && "not" + (" " + rest) == Render(left) + after
    ensures " " + rest == after
    decreases Size(left) + 1, 2
  {
    LowerOfLower("not");
    RenderIsExact(Column("not"), " " + rest, left, after);
  }

  lemma {:induction false} OperandIsNoConnective(e: Ast, s: string, op: Op, y: string)
    requires IsCanonical(e) && y != "" && y[0] == ' '
    ensures Render(e) + (")" + s) != OpText(op) + y
    decreases Size(e) + 1, 2
  {
    LowerOfLower(OpText(op));
    if Render(e) + (")" + s) == OpText(op) + y {
      RenderIsExact(e, ")" + s, Column(OpText(op)), y);
    }
    assert (")" + s)[0] == ')';
  }

  // ---------------------------------------------------------------- comparing two texts

  predicate TextNamesOk(t: Text) {
    OperandNamesOk(t.operand) && (t.More? ==> TextNamesOk(t.rest))
  }

  predicate OperandNamesOk(o: Operand) {
    match o
    case Name(name) => IsWord(name)
    case Not(operand) => OperandNamesOk(operand)
    case Group(text) => TextNamesOk(text)
  }

  predicate Fine(node: Ast) {
    IsSkeleton(node) && NamesOk(node)
  }

  lemma {:induction false} FoldIsFine(groups: seq<Ast>)
    requires groups != [] && forall i | 0 <= i < |groups| :: Fine(groups[i])
    ensures Fine(FoldOrs(groups))
  {
    if |groups| > 1 { FoldIsFine(groups[..|groups| - 1]); }
  }

  lemma {:induction false} SqlIsFine(t: Text)
    requires TextNamesOk(t)
    ensures Fine(Sql(t))
    decreases t, 1
  {
    TermsAreFine(t);
    FoldIsFine(Terms(t));
  }

  lemma {:induction false} TermsAreFine(t: Text)
    requires TextNamesOk(t)
    ensures forall i | 0 <= i < |Terms(t)| :: Fine(Terms(t)[i])
    decreases t, 0
  {
    OperandIsFine(t.operand);
    if t.More? { TermsRestAreFine(SqlOperand(t.operand), t.op, t.rest); }
  }

  lemma {:induction false} TermsRestAreFine(group: Ast, op: Op, t: Text)
    requires Fine(group) && TextNamesOk(t)
    ensures forall i | 0 <= i < |TermsRest(group, op, t)| :: Fine(TermsRest(group, op, t)[i])
    decreases t, 0
  {
    OperandIsFine(t.operand);
    var head := SqlOperand(t.operand);
    var next := if op == And then Connective(And, group, head, false) else head;
    if t.More? { TermsRestAreFine(next, t.op, t.rest); }
  }

  lemma {:induction false} OperandIsFine(o: Operand)
    requires OperandNamesOk(o)
    ensures Fine(SqlOperand(o))
    decreases o, 0
  {
    match o
    case Name(_) =>
    case Not(operand) => OperandIsFine(operand);
    case Group(text) => SqlIsFine(text);
  }

  /** The canonical text of a predicate: parse, repair, render. */
  function CanonicalText(t: Text): string
    requires IsSkeleton(Reassociate(Parse(t)))
  {
    Render(Reassociate(Parse(t)))
  }

  /** The comparison is exact: two predicate texts have the same canonical text exactly when SQL reads them as
      the same tree, up to the case of names and however many parentheses either is written with. */
  lemma ComparisonIsExact(t: Text, u: Text)
    requires TextNamesOk(t) && TextNamesOk(u)
    ensures IsSkeleton(Reassociate(Parse(t))) && IsSkeleton(Reassociate(Parse(u)))
    ensures IsSkeleton(Sql(t)) && IsSkeleton(Sql(u))
    ensures CanonicalText(t) == CanonicalText(u) <==> Canonical(Sql(t)) == Canonical(Sql(u))
  {
    RepairIsSqlReading(t);
    RepairIsSqlReading(u);
    SqlIsFine(t);
    SqlIsFine(u);
    CanonicalRenders(Sql(t));
    CanonicalRenders(Sql(u));
    if CanonicalText(t) == CanonicalText(u) {
      assert Render(Canonical(Sql(t))) + "" == Render(Canonical(Sql(u))) + "";
      RenderIsExact(Canonical(Sql(t)), "", Canonical(Sql(u)), "");
    }
  }

  ghost predicate CaseBlind(m: Interpretation) {
    forall name: string :: m.column(Lower(name)) == m.column(name)
  }

  lemma {:induction false} CanonicalKeepsValue(node: Ast, m: Interpretation)
    requires IsSkeleton(node) && CaseBlind(m)
    ensures Value(Canonical(node), m) == Value(node, m)
  {
    match node
    case Column(_) =>
    case Unary(_, e) => CanonicalKeepsValue(e, m);
    case Connective(_, l, r, _) => CanonicalKeepsValue(l, m); CanonicalKeepsValue(r, m);
  }

  /** Equal canonical texts are equally true under every assignment that does not look at the case of names. */
  lemma EqualTextsMeanTheSame(t: Text, u: Text, m: Interpretation)
    requires TextNamesOk(t) && TextNamesOk(u)
    requires IsSkeleton(Reassociate(Parse(t))) && IsSkeleton(Reassociate(Parse(u)))
    requires CanonicalText(t) == CanonicalText(u)
    requires CaseBlind(m)
    ensures SourceValue(Parse(t), m) == SourceValue(Parse(u), m)
  {
    ComparisonIsExact(t, u);
    RepairIsSqlReading(t);
    RepairIsSqlReading(u);
    MeaningIsRepaired(Parse(t), m);
    MeaningIsRepaired(Parse(u), m);
    CanonicalKeepsValue(Sql(t), m);
    CanonicalKeepsValue(Sql(u), m);
  }

  // ---------------------------------------------------------------- what such a text looks like

  lemma NameRenders(name: string)
    requires IsLower(name)
    ensures Render(Column(name)) == name
  {
    LowerOfLower(name);
  }

  lemma NotRenders(name: string)
    requires IsLower(name)
    ensures IsSkeleton(Unary("NOT", Column(name)))
    ensures Render(Unary("NOT", Column(name))) == "(not " + name + ")"
  {
    NameRenders(name);
  }

  lemma LastTerms(group: Ast, op: Op, o: Operand)
    ensures TermsRest(group, op, Last(o))
            == if op == And then [Connective(And, group, SqlOperand(o), false)] else [group, SqlOperand(o)]
  {
    assert [] + [Connective(And, group, SqlOperand(o), false)] == [Connective(And, group, SqlOperand(o), false)];
  }

  lemma NextTerms(group: Ast, op: Op, o: Operand, next: Op, rest: Text)
    ensures TermsRest(group, op, More(o, next, rest))
            == if op == And then TermsRest(Connective(And, group, SqlOperand(o), false), next, rest)
               else [group] + TermsRest(SqlOperand(o), next, rest)
  {
    var joined := Connective(And, group, SqlOperand(o), false);
    assert [] + TermsRest(joined, next, rest) == TermsRest(joined, next, rest);
  }

  lemma FoldTwo(l: Ast, r: Ast)
    ensures FoldOrs([l, r]) == Connective(Or, l, r, false)
  {
    assert [l, r][..1] == [l];
    assert FoldOrs([l]) == l;
  }

  lemma OperandsAre(name: string)
    ensures SqlOperand(Operand.Name(name)) == Column(name)
    ensures SqlOperand(Not(Operand.Name(name))) == Unary("NOT", Column(name))
  {
  }

  /** What the canonical text of a predicate is, once SQL's tree is known. */
  lemma TextOfTree(t: Text, tree: Ast)
    requires Sql(t) == tree && IsSkeleton(tree)
    ensures IsSkeleton(Reassociate(Parse(t))) && CanonicalText(t) == Render(tree)
  {
    RepairIsSqlReading(t);
    hide Render, Sql;
  }

  lemma OrAndTree(a: string, b: string, c: string)
    ensures Sql(More(Operand.Name(a), Or, More(Operand.Name(b), And, Last(Operand.Name(c)))))
            == Connective(Or, Column(a), Connective(And, Column(b), Column(c), false), false)
  {
    hide TermsRest, FoldOrs, SqlOperand;
    OperandsAre(a);
    OperandsAre(b);
    OperandsAre(c);
    NextTerms(Column(a), Or, Operand.Name(b), And, Last(Operand.Name(c)));
    LastTerms(Column(b), And, Operand.Name(c));
    var both := Connective(And, Column(b), Column(c), false);
    assert [Column(a)] + [both] == [Column(a), both];
    FoldTwo(Column(a), both);
  }

  lemma AndOrNotTree(a: string, b: string, c: string)
    ensures Sql(More(Operand.Name(a), And, More(Operand.Name(b), Or, Last(Not(Operand.Name(c))))))
            == Connective(Or, Connective(And, Column(a), Column(b), false), Unary("NOT", Column(c)), false)
  {
    hide TermsRest, FoldOrs, SqlOperand;
    OperandsAre(a);
    OperandsAre(b);
    OperandsAre(c);
    var both := Connective(And, Column(a), Column(b), false);
    NextTerms(Column(a), And, Operand.Name(b), Or, Last(Not(Operand.Name(c))));
    LastTerms(both, Or, Not(Operand.Name(c)));
    FoldTwo(both, Unary("NOT", Column(c)));
  }

  /** `a OR b AND c`: AND binds tighter, every composite has its parentheses, operators are in lower case. */
  lemma OrAndText(a: string, b: string, c: string)
    requires IsLower(a) && IsLower(b) && IsLower(c)
    ensures var t := More(Operand.Name(a), Or, More(Operand.Name(b), And, Last(Operand.Name(c))));
            IsSkeleton(Reassociate(Parse(t))) && CanonicalText(t) == "(" + a + " or (" + b + " and " + c + "))"
  {
    hide Reassociate, Parse, Sql, CanonicalText, IsLower, Lower;
    NameRenders(a);
    NameRenders(b);
    NameRenders(c);
    OrAndTree(a, b, c);
    var both := Connective(And, Column(b), Column(c), false);
    assert IsSkeleton(both);
    TextOfTree(More(Operand.Name(a), Or, More(Operand.Name(b), And, Last(Operand.Name(c)))),
               Connective(Or, Column(a), both, false));
    assert Render(both) == "(" + b + " and " + c + ")";
    assert "(" + a + " or " + ("(" + b + " and " + c + ")") + ")" == "(" + a + " or (" + b + " and " + c + "))";
  }

  lemma JoinedText(a: string, b: string, c: string)
    ensures "(" + ("(" + a + " and " + b + ")") + " " + "or" + " " + ("(not " + c + ")") + ")"
            == "((" + a + " and " + b + ") or (not " + c + "))"
  {
  }

  lemma PairRenders(op: Op, l: Ast, r: Ast)
    requires IsSkeleton(l) && IsSkeleton(r)
    ensures Render(Connective(op, l, r, false))
            == "(" + Render(l) + " " + (if op == And then "and" else "or") + " " + Render(r) + ")"
  {
  }

  /** `a AND b OR NOT c`. */
  lemma AndOrNotText(a: string, b: string, c: string)
    requires IsLower(a) && IsLower(b) && IsLower(c)
    ensures var t := More(Operand.Name(a), And, More(Operand.Name(b), Or, Last(Not(Operand.Name(c)))));
            IsSkeleton(Reassociate(Parse(t))) && CanonicalText(t) == "((" + a + " and " + b + ") or (not " + c + "))"
  {
    hide Reassociate, Parse, Sql, CanonicalText, IsLower, Lower;
    NameRenders(a);
    NameRenders(b);
    NameRenders(c);
    AndOrNotTree(a, b, c);
    var both, last := Connective(And, Column(a), Column(b), false), Unary("NOT", Column(c));
    NotRenders(c);
    assert IsSkeleton(both);
    TextOfTree(More(Operand.Name(a), And, More(Operand.Name(b), Or, Last(Not(Operand.Name(c))))),
               Connective(Or, both, last, false));
    PairRenders(And, Column(a), Column(b));
    PairRenders(Or, both, last);
    assert "(" + a + " " + "and" + " " + b + ")" == "(" + a + " and " + b + ")";
    JoinedText(a, b, c);
  }
}
