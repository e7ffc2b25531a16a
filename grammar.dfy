/** The grammar the parser implements, as derivations that keep every token
    they read:

      factor ::= sign factor | word | "(" expr ")"
      term   ::= term ("*" | "/") factor | factor
      expr   ::= expr ("+" | "-") term | term

    A derivation fixes both the tokens (`Spelling`) and the tree the parser
    builds from them (`Tree`); parentheses, however many and on whatever
    line, leave no trace in the tree. */
module Grammar {
  import opened Tokens
  import opened Parsing

  datatype Syntax =
    | Word(word: Token)
    | Signed(sign: Token, operand: Syntax)
    | Infix(op: Token, left: Syntax, right: Syntax)
    | Group(lparen: Token, inner: Syntax, rparen: Token)

  /** `s` derives the grammar symbol `level`: 0 for `factor`, 1 for `term`,
      2 for `expr`. The left operand of an operator sits at the operator's
      own level and the right one a level below, which makes both groups of
      operators associate to the left. */
  predicate Derives(s: Syntax, level: nat) {
    match s
    case Word(t) => IsWordKind(t.kind)
    case Signed(op, x) => IsAddOp(op.kind) && Derives(x, 0)
    case Infix(op, l, r) =>
      if IsMulOp(op.kind) then 1 <= level && Derives(l, 1) && Derives(r, 0)
      else IsAddOp(op.kind) && 2 <= level && Derives(l, 2) && Derives(r, 1)
    case Group(lp, x, rp) => lp.kind == LPAREN && rp.kind == RPAREN && Derives(x, 2)
  }

  /** The tokens a derivation reads, left to right. */
  function Spelling(s: Syntax): (r: seq<Token>)
    ensures |r| > 0
  {
    match s
    case Word(t) => [t]
    case Signed(op, x) => [op] + Spelling(x)
    case Infix(op, l, r) => Spelling(l) + [op] + Spelling(r)
    case Group(lp, x, rp) => [lp] + Spelling(x) + [rp]
  }

  /** The node `factor`, `term` and `expr` build for a derivation. */
  function Tree(s: Syntax): Node {
    match s
    case Word(t) => ValueNode(ValueTypeOf(t.kind), t)
    case Signed(op, x) => Unary(op, Tree(x))
    case Infix(op, l, r) => BinOp(op, Tree(l), Tree(r))
    case Group(_, x, _) => Tree(x)
  }

  /** A factor is a term and a term is an expression. */
  lemma DerivesUp(s: Syntax, p: nat, q: nat)
    requires Derives(s, p) && p <= q
    ensures Derives(s, q)
  {
  }

  /** Every derivation builds a node the parser can build. */
  lemma {:induction false} DerivesWellFormed(s: Syntax, level: nat)
    requires Derives(s, level)
    ensures WellFormed(Tree(s))
  {
    match s
    case Word(_) =>
    case Signed(_, x) => DerivesWellFormed(x, 0);
    case Infix(_, l, r) => DerivesWellFormed(l, level); DerivesWellFormed(r, level);
    case Group(_, x, _) => DerivesWellFormed(x, 2);
  }

  /** The grammar level a node is built at: 0 for `factor`, 1 for a `*` or
      `/` node of `term`, 2 for a `+` or `-` node of `expr`. */
  function Level(e: Node): (p: nat)
    ensures p <= 2
  {
    match e
    case BinOp(op, _, _) => if IsAddOp(op.kind) then 2 else 1
    case _ => 0
  }

  const LParen := Token(LPAREN, "(", 1)
  const RParen := Token(RPAREN, ")", 1)

  /** A printing of `e` as the grammar symbol `level`, with the fewest
      parentheses: only where `e` is built at a higher level. */
  function Print(e: Node, level: nat): Syntax
    decreases e, 1
  {
    if Level(e) > level then Group(LParen, PrintBare(e), RParen) else PrintBare(e)
  }

  /** A printing of `e` at its own level. */
  function PrintBare(e: Node): Syntax
    decreases e, 0
  {
    match e
    case ValueNode(_, t) => Word(t)
    case Unary(op, x) => Signed(op, Print(x, 0))
    case BinOp(op, l, r) =>
      var p := Level(e);
      Infix(op, Print(l, p), Print(r, p - 1))
  }

  /** Every node the parser can build has a printing at every level, and
      that printing builds the node back. */
  lemma {:induction false} PrintDerives(e: Node, level: nat)
    requires WellFormed(e) && level <= 2
    ensures Derives(Print(e, level), level) && Tree(Print(e, level)) == e
    decreases e, 1
  {
    PrintBareDerives(e);
    if Level(e) > level {
      DerivesUp(PrintBare(e), Level(e), 2);
    }
  }

  lemma {:induction false} PrintBareDerives(e: Node)
    requires WellFormed(e)
    ensures Derives(PrintBare(e), Level(e)) && Tree(PrintBare(e)) == e
    decreases e, 0
  {
    match e
    case ValueNode(_, _) =>
    case Unary(_, x) => PrintDerives(x, 0);
    case BinOp(_, l, r) => PrintDerives(l, Level(e)); PrintDerives(r, Level(e) - 1);
  }
}
