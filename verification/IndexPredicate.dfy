/** The AND/OR repair of the partial-index predicate canonicaliser (lib/sql-transform/indexPredicate.js). */
module IndexPredicate {
  // The parser chains AND and OR from left to right; `reassociateBooleans` regroups them as SQL reads them.

  import opened Wrappers

  datatype Op = And | Or

  /** A parsed predicate. `Binary` is any binary operator other than AND and OR. */
  datatype Ast =
    | Column(name: string)
    | Unary(operator: string, expr: Ast)
    | Binary(operator: string, left: Ast, right: Ast)
    | Connective(op: Op, left: Ast, right: Ast, parentheses: bool)

  // ---------------------------------------------------------------- flattening

  predicate IsChain(node: Ast) {
    node.Connective? && !node.parentheses
  }

  /** The operands of an unparenthesised chain, in source order; any other node is its own only operand. */
  function Operands(node: Ast): (r: seq<Ast>)
    ensures |r| == |Operators(node)| + 1
    ensures forall i | 0 <= i < |r| :: Size(r[i]) <= Size(node)
  {
    if IsChain(node) then Operands(node.left) + Operands(node.right) else [node]
  }

  function Operators(node: Ast): seq<Op> {
    if IsChain(node) then Operators(node.left) + [node.op] + Operators(node.right) else []
  }

  function Size(node: Ast): nat {
    match node
    case Column(_) => 1
    case Unary(_, e) => 1 + Size(e)
    case Binary(_, l, r) => 1 + Size(l) + Size(r)
    case Connective(_, l, r, _) => 1 + Size(l) + Size(r)
  }

  /** The two arrays flattenBooleanChain pushes into. */
  class Chain {
    var operands: seq<Ast>
    var operators: seq<Op>

    constructor ()
      ensures operands == [] && operators == []
    {
      operands, operators := [], [];
    }
  }

  method FlattenBooleanChain(node: Ast, chain: Chain)
    modifies chain
    ensures chain.operands == old(chain.operands) + Operands(node)
    ensures chain.operators == old(chain.operators) + Operators(node)
  {
    if IsChain(node) {
      FlattenBooleanChain(node.left, chain);
      chain.operators := chain.operators + [node.op];
      FlattenBooleanChain(node.right, chain);
    } else {
      chain.operands := chain.operands + [node];
    }
  }

  // ---------------------------------------------------------------- regrouping

  /** The OR of the groups closed so far and the group being collected. */
  function Close(sum: Option<Ast>, group: Ast): Ast {
    match sum
    case None => group
    case Some(s) => Connective(Or, s, group, false)
  }

  /** Regroup the rest of a chain: AND extends the current group, OR starts a new one. */
  function Regroup(sum: Option<Ast>, group: Ast, parts: seq<Ast>, operators: seq<Op>): Ast
    requires |parts| == |operators|
    decreases |parts|
  {
    if operators == [] then Close(sum, group)
    else if operators[0] == And then
      Regroup(sum, Connective(And, group, parts[0], false), parts[1..], operators[1..])
    else Regroup(Some(Close(sum, group)), parts[0], parts[1..], operators[1..])
  }

  function Reassociate(node: Ast): Ast
    decreases Size(node)
  {
    match node
    case Column(_) => node
    case Unary(operator, expr) => Unary(operator, Reassociate(expr))
    case Binary(operator, left, right) => Binary(operator, Reassociate(left), Reassociate(right))
    case Connective(op, left, right, _) =>
      var operands := Operands(left) + Operands(right);
      assert forall i | 0 <= i < |operands| :: Size(operands[i]) < Size(node);
      var parts := seq(|operands|, i requires 0 <= i < |operands| => Reassociate(operands[i]));
      Regroup(None, parts[0], parts[1..], Operators(left) + [op] + Operators(right))
  }

  /** The ORs folded from left to right. */
  function FoldOrs(groups: seq<Ast>): Ast
    requires groups != []
  {
    if |groups| == 1 then groups[0]
    else Connective(Or, FoldOrs(groups[..|groups| - 1]), groups[|groups| - 1], false)
  }

  /** What the binding loop has collected, as the pair Regroup works with. */
  function SumOf(groups: seq<Ast>): Option<Ast>
    requires groups != []
  {
    if |groups| == 1 then None else Some(FoldOrs(groups[..|groups| - 1]))
  }

  lemma CloseFolds(groups: seq<Ast>)
    requires groups != []
    ensures Close(SumOf(groups), groups[|groups| - 1]) == FoldOrs(groups)
  {
  }

  lemma PushGroup(groups: seq<Ast>, next: Ast)
    requires groups != []
    ensures SumOf(groups + [next]) == Some(FoldOrs(groups))
  {
    assert (groups + [next])[..|groups|] == groups;
  }

  method BindAnds(parts: seq<Ast>, operators: seq<Op>) returns (orOperands: seq<Ast>)
    requires |parts| == |operators| + 1
    ensures orOperands != [] && FoldOrs(orOperands) == Regroup(None, parts[0], parts[1..], operators)
  {
    orOperands := [parts[0]];
    ghost var whole := Regroup(None, parts[0], parts[1..], operators);
    assert operators[0..] == operators;
    for i := 0 to |operators|
      invariant orOperands != []
      invariant whole == Regroup(SumOf(orOperands), orOperands[|orOperands| - 1], parts[i + 1..], operators[i..])
    {
      assert parts[i + 1..][1..] == parts[i + 2..] && operators[i..][1..] == operators[i + 1..];
      var last := |orOperands| - 1;
      if operators[i] == And {
        var bound := Connective(And, orOperands[last], parts[i + 1], false);
        assert orOperands[last := bound][..last] == orOperands[..last];
        orOperands := orOperands[last := bound];
      } else {
        CloseFolds(orOperands);
        PushGroup(orOperands, parts[i + 1]);
        orOperands := orOperands + [parts[i + 1]];
      }
    }
    CloseFolds(orOperands);
  }

  /** Bind every AND, then fold the remaining ORs. */
  method RegroupChain(parts: seq<Ast>, operators: seq<Op>) returns (result: Ast)
    requires |parts| == |operators| + 1
    ensures result == Regroup(None, parts[0], parts[1..], operators)
  {
    var orOperands := BindAnds(parts, operators);
    result := orOperands[0];
    for i := 1 to |orOperands|
      invariant result == FoldOrs(orOperands[..i])
    {
      assert orOperands[..i + 1][..i] == orOperands[..i];
      result := Connective(Or, result, orOperands[i], false);
    }
    assert orOperands[..|orOperands|] == orOperands;
  }

  lemma ReassociateChain(node: Ast, parts: seq<Ast>)
    requires node.Connective?
    requires var operands := Operands(node.left) + Operands(node.right);
             |parts| == |operands| && forall k | 0 <= k < |parts| :: parts[k] == Reassociate(operands[k])
    ensures Reassociate(node)
            == Regroup(None, parts[0], parts[1..], Operators(node.left) + [node.op] + Operators(node.right))
  {
    var operands := Operands(node.left) + Operands(node.right);
    assert parts == seq(|operands|, i requires 0 <= i < |operands| => Reassociate(operands[i]));
  }

  /** `operands.map(...)`; every operand is smaller than the chain it came from. */
  method ReassociateAll(operands: seq<Ast>, ghost bound: nat) returns (parts: seq<Ast>)
    requires forall i | 0 <= i < |operands| :: Size(operands[i]) < bound
    ensures |parts| == |operands| && forall k | 0 <= k < |parts| :: parts[k] == Reassociate(operands[k])
    decreases bound, 0
  {
    parts := [];
    for i := 0 to |operands|
      invariant |parts| == i && forall k | 0 <= k < i :: parts[k] == Reassociate(operands[k])
    {
      var part := ReassociateBooleans(operands[i]);
      parts := parts + [part];
    }
  }

  method ReassociateBooleans(node: Ast) returns (result: Ast)
    ensures result == Reassociate(node)
    decreases Size(node), 2
  {
    match node
    case Column(_) => return node;
    case Unary(operator, expr) =>
      var e := ReassociateBooleans(expr);
      return Unary(operator, e);
    case Binary(operator, left, right) =>
      var l := ReassociateBooleans(left);
      var r := ReassociateBooleans(right);
      return Binary(operator, l, r);
    case Connective(_, _, _, _) => result := ReassociateConnective(node);
  }

  lemma OperandsAreSmaller(node: Ast)
    requires node.Connective?
    ensures var operands := Operands(node.left) + Operands(node.right);
            forall i | 0 <= i < |operands| :: Size(operands[i]) < Size(node)
  {
  }

  /** The two arrays of the chain a connective starts. */
  method FlattenConnective(node: Ast) returns (operands: seq<Ast>, operators: seq<Op>)
    requires node.Connective?
    ensures operands == Operands(node.left) + Operands(node.right)
    ensures operators == Operators(node.left) + [node.op] + Operators(node.right)
  {
    hide Operands, Operators;
    var chain := new Chain();
    FlattenBooleanChain(node.left, chain);
    chain.operators := chain.operators + [node.op];
    FlattenBooleanChain(node.right, chain);
    operands, operators := chain.operands, chain.operators;
  }

  method ReassociateConnective(node: Ast) returns (result: Ast)
    requires node.Connective?
    ensures result == Reassociate(node)
    decreases Size(node), 1
  {
    OperandsAreSmaller(node);
    hide Regroup, Reassociate, Operands, Operators, Size;
    var operands, operators := FlattenConnective(node);
    var parts := ReassociateAll(operands, Size(node));
    ReassociateChain(node, parts);
    result := RegroupChain(parts, operators);
  }

  // ---------------------------------------------------------------- order is kept

  datatype Symbol = Name(name: string) | Prefix(operator: string) | Infix(operator: string) | Connect(op: Op)

  /** Names and operators from left to right, parentheses left out. */
  function InOrder(node: Ast): seq<Symbol> {
    match node
    case Column(name) => [Name(name)]
    case Unary(operator, e) => [Prefix(operator)] + InOrder(e)
    case Binary(operator, l, r) => InOrder(l) + [Infix(operator)] + InOrder(r)
    case Connective(op, l, r, _) => InOrder(l) + [Connect(op)] + InOrder(r)
  }

  function InOrderAll(parts: seq<Ast>, operators: seq<Op>): seq<Symbol>
    requires |parts| == |operators|
  {
    if parts == [] then [] else
      [Connect(operators[0])] + InOrder(parts[0]) + InOrderAll(parts[1..], operators[1..])
  }

  lemma {:induction false} InOrderAllConcat(p: seq<Ast>, o: seq<Op>, q: seq<Ast>, u: seq<Op>)
    requires |p| == |o| && |q| == |u|
    ensures InOrderAll(p + q, o + u) == InOrderAll(p, o) + InOrderAll(q, u)
  {
    if p == [] {
      assert p + q == q && o + u == u;
    } else {
      assert (p + q)[1..] == p[1..] + q && (o + u)[1..] == o[1..] + u;
      InOrderAllConcat(p[1..], o[1..], q, u);
    }
  }

  lemma {:induction false} ChainInOrder(node: Ast)
    ensures var parts := Operands(node);
            InOrder(node) == InOrder(parts[0]) + InOrderAll(parts[1..], Operators(node))
  {
    if IsChain(node) {
      ChainInOrder(node.left);
      ChainInOrder(node.right);
      JoinInOrder(node.left, node.op, node.right);
    }
  }

  /** Two flattened chains joined by a connective. */
  lemma JoinInOrder(left: Ast, op: Op, right: Ast)
    requires InOrder(left) == InOrder(Operands(left)[0]) + InOrderAll(Operands(left)[1..], Operators(left))
    requires InOrder(right) == InOrder(Operands(right)[0]) + InOrderAll(Operands(right)[1..], Operators(right))
    ensures var parts := Operands(left) + Operands(right);
            InOrder(left) + [Connect(op)] + InOrder(right)
            == InOrder(parts[0]) + InOrderAll(parts[1..], Operators(left) + [op] + Operators(right))
  {
    var ls, rs := Operands(left), Operands(right);
    var tail := [op] + Operators(right);
    JoinedOperands(left, op, right);
    InOrderAllConcat(ls[1..], Operators(left), rs, tail);
    TailInOrder(op, rs, Operators(right));
    Shuffle(InOrder(ls[0]), InOrderAll(ls[1..], Operators(left)), [Connect(op)], InOrder(right));
  }

  lemma JoinedOperands(left: Ast, op: Op, right: Ast)
    ensures var parts := Operands(left) + Operands(right);
            parts[0] == Operands(left)[0] && parts[1..] == Operands(left)[1..] + Operands(right)
    ensures Operators(left) + [op] + Operators(right) == Operators(left) + ([op] + Operators(right))
  {
    TailOfConcat(Operands(left), Operands(right));
    ConcatAssociates(Operators(left), [op], Operators(right));
  }

  lemma TailOfConcat<T>(a: seq<T>, b: seq<T>)
    requires a != []
    ensures (a + b)[0] == a[0] && (a + b)[1..] == a[1..] + b
  {
  }

  lemma ConcatAssociates<T>(a: seq<T>, b: seq<T>, c: seq<T>)
    ensures a + b + c == a + (b + c)
  {
  }

  lemma Shuffle(a: seq<Symbol>, b: seq<Symbol>, c: seq<Symbol>, d: seq<Symbol>)
    ensures (a + b) + c + d == a + (b + (c + d))
  {
  }

  lemma TailInOrder(op: Op, parts: seq<Ast>, operators: seq<Op>)
    requires |parts| == |operators| + 1
    ensures InOrderAll(parts, [op] + operators)
            == [Connect(op)] + (InOrder(parts[0]) + InOrderAll(parts[1..], operators))
  {
    assert ([op] + operators)[1..] == operators;
  }

  lemma CloseInOrder(sum: Option<Ast>, group: Ast, part: Ast)
    ensures InOrder(Close(sum, Connective(And, group, part, false)))
            == InOrder(Close(sum, group)) + ([Connect(And)] + InOrder(part))
    ensures InOrder(Close(Some(Close(sum, group)), part))
            == InOrder(Close(sum, group)) + ([Connect(Or)] + InOrder(part))
  {
  }

  lemma FirstInOrder(start: seq<Symbol>, parts: seq<Ast>, operators: seq<Op>)
    requires |parts| == |operators| > 0
    ensures start + ([Connect(operators[0])] + InOrder(parts[0])) + InOrderAll(parts[1..], operators[1..])
            == start + InOrderAll(parts, operators)
  {
  }

  lemma {:induction false} RegroupInOrder(sum: Option<Ast>, group: Ast, parts: seq<Ast>, operators: seq<Op>)
    requires |parts| == |operators|
    ensures InOrder(Regroup(sum, group, parts, operators))
            == InOrder(Close(sum, group)) + InOrderAll(parts, operators)
    decreases |parts|
  {
    if operators != [] {
      hide InOrder, InOrderAll, Close;
      CloseInOrder(sum, group, parts[0]);
      FirstInOrder(InOrder(Close(sum, group)), parts, operators);
      if operators[0] == And {
        RegroupInOrder(sum, Connective(And, group, parts[0], false), parts[1..], operators[1..]);
      } else {
        RegroupInOrder(Some(Close(sum, group)), parts[0], parts[1..], operators[1..]);
      }
    }
  }

  lemma {:induction false} SameInOrder(parts: seq<Ast>, others: seq<Ast>, operators: seq<Op>)
    requires |parts| == |others| == |operators|
    requires forall i | 0 <= i < |parts| :: InOrder(parts[i]) == InOrder(others[i])
    ensures InOrderAll(parts, operators) == InOrderAll(others, operators)
  {
    if parts != [] { SameInOrder(parts[1..], others[1..], operators[1..]); }
  }

  /** Regrouping repaired operands keeps the order of a chain. */
  lemma ConnectiveInOrder(node: Ast, parts: seq<Ast>)
    requires node.Connective?
    requires var operands := Operands(node.left) + Operands(node.right);
             |parts| == |operands| && forall i | 0 <= i < |operands| :: InOrder(parts[i]) == InOrder(operands[i])
    ensures InOrder(Regroup(None, parts[0], parts[1..], Operators(node.left) + [node.op] + Operators(node.right)))
            == InOrder(node)
  {
    var operands := Operands(node.left) + Operands(node.right);
    var operators := Operators(node.left) + [node.op] + Operators(node.right);
    assert InOrder(node) == InOrder(node.left) + [Connect(node.op)] + InOrder(node.right);
    hide Regroup, InOrder, InOrderAll, Operands, Operators;
    RegroupInOrder(None, parts[0], parts[1..], operators);
    SameInOrder(parts[1..], operands[1..], operators);
    ChainInOrder(node.left);
    ChainInOrder(node.right);
    JoinInOrder(node.left, node.op, node.right);
  }

  /** Repairing precedence moves no operand and no operator. */
  lemma {:induction false} OrderIsKept(node: Ast)
    ensures InOrder(Reassociate(node)) == InOrder(node)
    decreases Size(node)
  {
    match node
    case Column(_) =>
    case Unary(_, e) => OrderIsKept(e);
    case Binary(_, l, r) => OrderIsKept(l); OrderIsKept(r);
    case Connective(op, left, right, _) =>
      var operands := Operands(left) + Operands(right);
      var parts := seq(|operands|, i requires 0 <= i < |operands| => Reassociate(operands[i]));
      hide Regroup, InOrder, Operators;
      forall i | 0 <= i < |operands| ensures InOrder(parts[i]) == InOrder(operands[i]) { OrderIsKept(operands[i]); }
      ConnectiveInOrder(node, parts);
  }
}
