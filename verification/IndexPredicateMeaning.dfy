/** What the repaired predicate means, and why its canonical text is an exact comparison
    (lib/sql-transform/indexPredicate.js). */
module IndexPredicateMeaning {
  import opened Wrappers
  import opened IndexPredicate

  // ---------------------------------------------------------------- three-valued truth

  datatype Truth = False | Unknown | True

  function And3(a: Truth, b: Truth): Truth {
    if a == False || b == False then False else if a == True && b == True then True else Unknown
  }

  function Or3(a: Truth, b: Truth): Truth {
    if a == True || b == True then True else if a == False && b == False then False else Unknown
  }

  function Rank(t: Truth): int {
    match t
    case False => 0
    case Unknown => 1
    case True => 2
  }

  /** SQL's connectives are the smaller and the larger of the two, with the unknown in the middle. */
  lemma SmallerAndLarger(a: Truth, b: Truth)
    ensures Rank(And3(a, b)) == if Rank(a) < Rank(b) then Rank(a) else Rank(b)
    ensures Rank(Or3(a, b)) == if Rank(a) < Rank(b) then Rank(b) else Rank(a)
  {
  }

  /** What columns and the other operators stand for; any interpretation will do. */
  datatype Interpretation = Interpretation(column: string -> Truth, unary: (string, Truth) -> Truth,
                                           binary: (string, Truth, Truth) -> Truth)

  /** The value of a tree, taken as it stands. */
  function Value(node: Ast, m: Interpretation): Truth {
    match node
    case Column(name) => m.column(name)
    case Unary(operator, e) => m.unary(operator, Value(e, m))
    case Binary(operator, l, r) => m.binary(operator, Value(l, m), Value(r, m))
    case Connective(And, l, r, _) => And3(Value(l, m), Value(r, m))
    case Connective(Or, l, r, _) => Or3(Value(l, m), Value(r, m))
  }

  /** SQL's reading of operand values in source order: AND binds tighter than OR. */
  function Read(group: Truth, values: seq<Truth>, operators: seq<Op>): Truth
    requires |values| == |operators|
    decreases |values|
  {
    if operators == [] then group
    else if operators[0] == And then Read(And3(group, values[0]), values[1..], operators[1..])
    else Or3(group, Read(values[0], values[1..], operators[1..]))
  }

  /** The value of the text a tree was parsed from: parenthesised groups are units, everything else is a run of
      operands and connectives to be read by SQL's precedence, whatever shape the parser gave it. */
  function SourceValue(node: Ast, m: Interpretation): Truth
    decreases Size(node)
  {
    match node
    case Column(name) => m.column(name)
    case Unary(operator, e) => m.unary(operator, SourceValue(e, m))
    case Binary(operator, l, r) => m.binary(operator, SourceValue(l, m), SourceValue(r, m))
    case Connective(op, l, r, _) =>
      var operands := Operands(l) + Operands(r);
      assert forall i | 0 <= i < |operands| :: Size(operands[i]) < Size(node);
      var values := seq(|operands|, i requires 0 <= i < |operands| => SourceValue(operands[i], m));
      Read(values[0], values[1..], Operators(l) + [op] + Operators(r))
  }

  function Values(parts: seq<Ast>, m: Interpretation): seq<Truth> {
    seq(|parts|, i requires 0 <= i < |parts| => Value(parts[i], m))
  }

  lemma {:induction false} RegroupReads(sum: Option<Ast>, group: Ast, parts: seq<Ast>, operators: seq<Op>,
                                        m: Interpretation)
    requires |parts| == |operators|
    ensures var read := Read(Value(group, m), Values(parts, m), operators);
            Value(Regroup(sum, group, parts, operators), m)
            == if sum.None? then read else Or3(Value(sum.value, m), read)
    decreases |parts|
  {
    if operators != [] {
      assert Values(parts, m)[1..] == Values(parts[1..], m);
      if operators[0] == And {
        RegroupReads(sum, Connective(And, group, parts[0], false), parts[1..], operators[1..], m);
      } else {
        RegroupReads(Some(Close(sum, group)), parts[0], parts[1..], operators[1..], m);
      }
    }
  }

  /** Whatever tree the parser built, parenthesised root or not, the repaired tree evaluates as SQL reads the
      source, in two- and in three-valued logic. */
  lemma {:induction false} MeaningIsRepaired(node: Ast, m: Interpretation)
    ensures Value(Reassociate(node), m) == SourceValue(node, m)
    decreases Size(node)
  {
    match node
    case Column(_) =>
    case Unary(_, e) => MeaningIsRepaired(e, m);
    case Binary(_, l, r) => MeaningIsRepaired(l, m); MeaningIsRepaired(r, m);
    case Connective(op, l, r, _) =>
      var operands := Operands(l) + Operands(r);
      var parts := seq(|operands|, i requires 0 <= i < |operands| => Reassociate(operands[i]));
      var values := seq(|operands|, i requires 0 <= i < |operands| => SourceValue(operands[i], m));
      forall i | 0 <= i < |operands| ensures Value(parts[i], m) == values[i] { MeaningIsRepaired(operands[i], m); }
      assert Values(parts, m) == values;
      assert Values(parts[1..], m) == values[1..];
      RegroupReads(None, parts[0], parts[1..], Operators(l) + [op] + Operators(r), m);
  }

  // ---------------------------------------------------------------- source texts

  datatype Operand = Name(name: string) | Not(operand: Operand) | Group(text: Text)

  /** A predicate text made of names, NOT, AND, OR and parentheses. */
  datatype Text = Last(operand: Operand) | More(operand: Operand, op: Op, rest: Text)

  function Parenthesise(node: Ast): Ast {
    if node.Connective? then node.(parentheses := true) else node
  }

  /** The parser: AND and OR are chained from left to right. */
  function Parse(t: Text): Ast {
    match t
    case Last(o) => ParseOperand(o)
    case More(o, op, rest) => ParseRest(ParseOperand(o), op, rest)
  }

  function ParseRest(left: Ast, op: Op, t: Text): Ast
    decreases t
  {
    match t
    case Last(o) => Connective(op, left, ParseOperand(o), false)
    case More(o, next, rest) => ParseRest(Connective(op, left, ParseOperand(o), false), next, rest)
  }

  function ParseOperand(o: Operand): Ast {
    match o
    case Name(name) => Column(name)
    case Not(operand) => Unary("NOT", ParseOperand(operand))
    case Group(text) => Parenthesise(Parse(text))
  }

  /** The tree of a text by SQL's grammar: a disjunction of conjunctions, each associating to the left. */
  function Sql(t: Text): Ast
    decreases t, 1
  {
    FoldOrs(Terms(t))
  }

  function Terms(t: Text): (terms: seq<Ast>)
    ensures terms != []
    decreases t, 0
  {
    match t
    case Last(o) => [SqlOperand(o)]
    case More(o, op, rest) => TermsRest(SqlOperand(o), op, rest)
  }

  /** The conjunctions from `group` on, of which `op` and the text are the continuation. */
  function TermsRest(group: Ast, op: Op, t: Text): (terms: seq<Ast>)
    ensures terms != []
    decreases t, 0
  {
    var head := SqlOperand(t.operand);
    var tail := if op == And then [] else [group];
    var next := if op == And then Connective(And, group, head, false) else head;
    match t
    case Last(_) => tail + [next]
    case More(_, op', rest) => tail + TermsRest(next, op', rest)
  }

  function SqlOperand(o: Operand): Ast
    decreases o, 0
  {
    match o
    case Name(name) => Column(name)
    case Not(operand) => Unary("NOT", SqlOperand(operand))
    case Group(text) => Sql(text)
  }

  // ---------------------------------------------------------------- repair is the SQL reading

  function Units(t: Text): seq<Ast> {
    match t
    case Last(o) => [ParseOperand(o)]
    case More(o, _, rest) => [ParseOperand(o)] + Units(rest)
  }

  function Ops(t: Text): seq<Op> {
    match t
    case Last(_) => []
    case More(_, op, rest) => [op] + Ops(rest)
  }

  lemma UnitIsNoChain(o: Operand)
    ensures !IsChain(ParseOperand(o))
  {
  }

  lemma ChainGrows(left: Ast, op: Op, unit: Ast)
    requires !IsChain(unit)
    ensures var next := Connective(op, left, unit, false);
            && IsChain(next) && Operands(next) == Operands(left) + [unit]
            && Operators(next) == Operators(left) + [op]
  {
  }

  lemma {:induction false} ParseRestFlattens(left: Ast, op: Op, t: Text)
    ensures var node := ParseRest(left, op, t);
            && IsChain(node) && Operands(node) == Operands(left) + Units(t)
            && Operators(node) == Operators(left) + ([op] + Ops(t))
    decreases t
  {
    hide Operands, Operators, IsChain, ParseOperand;
    var unit := ParseOperand(t.operand);
    UnitIsNoChain(t.operand);
    ChainGrows(left, op, unit);
    if t.More? {
      ParseRestFlattens(Connective(op, left, unit, false), t.op, t.rest);
      assert Operands(left) + [unit] + Units(t.rest) == Operands(left) + ([unit] + Units(t.rest));
      assert Operators(left) + [op] + ([t.op] + Ops(t.rest)) == Operators(left) + ([op] + ([t.op] + Ops(t.rest)));
    } else {
      assert [op] + Ops(t) == [op];
    }
  }

  function SqlUnits(t: Text): seq<Ast> {
    match t
    case Last(o) => [SqlOperand(o)]
    case More(o, _, rest) => [SqlOperand(o)] + SqlUnits(rest)
  }

  /** Groups closed earlier, as Regroup's running sum. */
  function SumOfClosed(closed: seq<Ast>): Option<Ast> {
    if closed == [] then None else Some(FoldOrs(closed))
  }

  lemma CloseGroup(closed: seq<Ast>, group: Ast)
    ensures SumOfClosed(closed + [group]) == Some(Close(SumOfClosed(closed), group))
    ensures Close(SumOfClosed(closed), group) == FoldOrs(closed + [group])
  {
    assert (closed + [group])[..|closed|] == closed;
    if closed == [] { assert closed + [group] == [group]; }
  }

  /** The group in progress and the groups closed, one operand further on. */
  function NextClosed(closed: seq<Ast>, group: Ast, op: Op): seq<Ast> {
    if op == And then closed else closed + [group]
  }

  function NextGroup(group: Ast, op: Op, head: Ast): Ast {
    if op == And then Connective(And, group, head, false) else head
  }

  lemma RegroupStep(closed: seq<Ast>, group: Ast, op: Op, head: Ast, units: seq<Ast>, ops: seq<Op>)
    requires |units| == |ops|
    ensures Regroup(SumOfClosed(closed), group, [head] + units, [op] + ops)
            == Regroup(SumOfClosed(NextClosed(closed, group, op)), NextGroup(group, op, head), units, ops)
  {
    assert ([head] + units)[1..] == units && ([op] + ops)[1..] == ops;
    CloseGroup(closed, group);
  }

  lemma TermsStep(closed: seq<Ast>, group: Ast, op: Op, t: Text)
    ensures var next := NextGroup(group, op, SqlOperand(t.operand));
            closed + TermsRest(group, op, t)
            == NextClosed(closed, group, op) + (if t.Last? then [next] else TermsRest(next, t.op, t.rest))
  {
  }

  lemma {:induction false} RegroupIsTerms(closed: seq<Ast>, group: Ast, op: Op, t: Text)
    ensures |SqlUnits(t)| == |[op] + Ops(t)|
    ensures Regroup(SumOfClosed(closed), group, SqlUnits(t), [op] + Ops(t))
            == FoldOrs(closed + TermsRest(group, op, t))
    decreases t
  {
    hide Regroup, SumOfClosed, FoldOrs, TermsRest, SqlOperand;
    var head := SqlOperand(t.operand);
    var closed', next := NextClosed(closed, group, op), NextGroup(group, op, head);
    TermsStep(closed, group, op, t);
    match t
    case Last(_) =>
      RegroupStep(closed, group, op, head, [], []);
      RegroupNothing(SumOfClosed(closed'), next);
      assert SqlUnits(t) == [head] + [] && [op] + Ops(t) == [op] + [];
      CloseGroup(closed', next);
    case More(_, op', rest) =>
      RegroupIsTerms(closed', next, op', rest);
      RegroupStep(closed, group, op, head, SqlUnits(rest), [op'] + Ops(rest));
      assert SqlUnits(t) == [head] + SqlUnits(rest) && Ops(t) == [op'] + Ops(rest);
  }

  lemma RegroupNothing(sum: Option<Ast>, group: Ast)
    ensures Regroup(sum, group, [], []) == Close(sum, group)
  {
  }

  lemma {:induction false} UnitsRepair(t: Text)
    ensures |SqlUnits(t)| == |Units(t)|
    ensures forall i | 0 <= i < |Units(t)| :: Reassociate(Units(t)[i]) == SqlUnits(t)[i]
    decreases t, 0
  {
    OperandRepairs(t.operand);
    if t.More? { UnitsRepair(t.rest); }
  }

  lemma {:induction false} OperandRepairs(o: Operand)
    ensures Reassociate(ParseOperand(o)) == SqlOperand(o)
    decreases o, 0
  {
    match o
    case Name(_) =>
    case Not(operand) => OperandRepairs(operand);
    case Group(text) => RepairIsSqlReading(text);
  }

  /** Repairing what the parser made of a text gives exactly the tree SQL's grammar gives it. */
  lemma {:induction false} RepairIsSqlReading(t: Text)
    ensures Reassociate(Parse(t)) == Sql(t)
    decreases t, 1
  {
    match t
    case Last(o) => OperandRepairs(o);
    case More(o, op, rest) =>
      var first, node := ParseOperand(o), Parse(t);
      UnitIsNoChain(o);
      OperandRepairs(o);
      UnitsRepair(rest);
      ParseRestFlattens(first, op, rest);
      var parts := [SqlOperand(o)] + SqlUnits(rest);
      assert Operands(node) == [first] + Units(rest);
      ReassociateChain(node, parts);
      assert parts[1..] == SqlUnits(rest);
      assert Operators(node) == [op] + Ops(rest);
      RegroupIsTerms([], SqlOperand(o), op, rest);
      assert [] + TermsRest(SqlOperand(o), op, rest) == TermsRest(SqlOperand(o), op, rest);
  }
}
