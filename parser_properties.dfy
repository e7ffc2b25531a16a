/** What the parser guarantees, proved about the functions in `Parsing`:
    it reads exactly the derivations of the grammar in `Grammar` and builds
    their trees (so `*` and `/` bind tighter than `+` and `-`, and both
    groups associate to the left), it reports the two syntax errors where
    they arise, and it can crash. */
module ParserProperties {
  import opened Lookups
  import opened Text
  import opened Diagnostics
  import opened Tokens
  import opened Parsing
  import opened Grammar

  /** `toks` holds `s` from index `i` on. */
  predicate Spells(toks: seq<Token>, i: nat, s: seq<Token>)
    decreases |s|
  {
    i + |s| <= |toks| && (s == [] || (toks[i] == s[0] && Spells(toks, i + 1, s[1..])))
  }

  lemma {:induction false} SpellsAppend(toks: seq<Token>, i: nat, a: seq<Token>, b: seq<Token>)
    requires Spells(toks, i, a + b)
    ensures Spells(toks, i, a) && Spells(toks, i + |a|, b)
    decreases |a|
  {
    if a == [] {
      assert a + b == b;
    } else {
      assert (a + b)[0] == a[0] && (a + b)[1..] == a[1..] + b;
      SpellsAppend(toks, i + 1, a[1..], b);
    }
  }

  lemma SpellsHead(toks: seq<Token>, i: nat, t: Token, s: seq<Token>)
    requires Spells(toks, i, [t] + s)
    ensures i < |toks| && toks[i] == t && Spells(toks, i + 1, s)
  {
    assert ([t] + s)[0] == t && ([t] + s)[1..] == s;
  }

  /** Splits the tokens of `x op y` at the operator. */
  lemma SpellsInfix(toks: seq<Token>, i: nat, a: seq<Token>, op: Token, b: seq<Token>)
    requires Spells(toks, i, a + [op] + b)
    ensures Spells(toks, i, a) && i + |a| < |toks| && toks[i + |a|] == op && Spells(toks, i + |a| + 1, b)
  {
    assert a + [op] + b == a + ([op] + b);
    SpellsAppend(toks, i, a, [op] + b);
    SpellsHead(toks, i + |a|, op, b);
  }

  /** Splits the tokens of `(x)` at both parentheses. */
  lemma SpellsAround(toks: seq<Token>, i: nat, lp: Token, s: seq<Token>, rp: Token)
    requires Spells(toks, i, [lp] + s + [rp])
    ensures i + |s| + 1 < |toks| && toks[i] == lp && Spells(toks, i + 1, s) && toks[i + 1 + |s|] == rp
  {
    SpellsAppend(toks, i, [lp] + s, [rp]);
    SpellsHead(toks, i, lp, s);
    assert [rp][1..] == [];
  }

  /** The `term` loop stops at `j`: there is no current token (the cursor
      is `None`), or the current one is not `*` or `/`. */
  predicate Stops(toks: seq<Token>, code: string, j: nat)
    requires j <= |code|
  {
    Look(toks, code, j).NoValue? || (Look(toks, code, j).Value? && !IsMulOp(toks[j].kind))
  }

  /** `factor` reads back exactly the tokens of a derivation of `factor`,
      whatever follows them, as long as `advance` can step past them; `end`
      is the index just after them. */
  lemma {:induction false} FactorRoundTrip(toks: seq<Token>, code: string, s: Syntax, i: nat, end: nat)
    requires Derives(s, 0)
    requires end == i + |Spelling(s)| && Spells(toks, i, Spelling(s))
    requires end <= |code| && !Look(toks, code, end).OutOfRange?
    ensures ParseFactor(toks, code, i) == Parsed(Tree(s), end)
    decreases end - i, 1
  {
    match s
    case Word(t) =>
      SpellsHead(toks, i, t, []);
      assert Look(toks, code, i) == Value(t);
    case Signed(op, x) =>
      SpellsHead(toks, i, op, Spelling(x));
      FactorSignCase(toks, code, op, x, i, end);
    case Group(lp, x, rp) =>
      SpellsAround(toks, i, lp, Spelling(x), rp);
      FactorParenCase(toks, code, lp, x, rp, i, end);
  }

  lemma {:induction false} FactorSignCase(toks: seq<Token>, code: string, op: Token, x: Syntax, i: nat, end: nat)
    requires IsAddOp(op.kind) && Derives(x, 0)
    requires end == i + 1 + |Spelling(x)|
    requires i < |toks| && toks[i] == op && Spells(toks, i + 1, Spelling(x))
    requires end <= |code| && !Look(toks, code, end).OutOfRange?
    ensures ParseFactor(toks, code, i) == Parsed(Unary(op, Tree(x)), end)
    decreases end - i, 0
  {
    assert ParseFactor(toks, code, i + 1) == Parsed(Tree(x), end) by { FactorRoundTrip(toks, code, x, i + 1, end); }
    SignStep(toks, code, op, Tree(x), i, end);
  }

  /** `factor` on a sign whose operand is a factor. */
  lemma SignStep(toks: seq<Token>, code: string, op: Token, x: Node, i: nat, end: nat)
    requires i < end <= |code| && i < |toks| && toks[i] == op && IsAddOp(op.kind)
    requires ParseFactor(toks, code, i + 1) == Parsed(x, end)
    ensures ParseFactor(toks, code, i) == Parsed(Unary(op, x), end)
  {
    assert Advances(toks, code, i);
    FactorSign(toks, code, i, Parsed(x, end));
  }

  lemma {:induction false} FactorParenCase(toks: seq<Token>, code: string, lp: Token, x: Syntax, rp: Token, i: nat, end: nat)
    requires lp.kind == LPAREN && rp.kind == RPAREN && Derives(x, 2)
    requires end == i + |Spelling(x)| + 2
    requires end - 1 < |toks| && toks[i] == lp && toks[end - 1] == rp
    requires Spells(toks, i + 1, Spelling(x))
    requires end <= |code| && !Look(toks, code, end).OutOfRange?
    ensures ParseFactor(toks, code, i) == Parsed(Tree(x), end)
    decreases end - i, 0
  {
    assert ParseExpr(toks, code, i + 1) == Parsed(Tree(x), end - 1) by { ExprRoundTrip(toks, code, x, i + 1, end - 1); }
    ParenStep(toks, code, Tree(x), i, end - 1);
  }

  /** `factor` on a parenthesis whose inner `expr` ends on the closing one. */
  lemma ParenStep(toks: seq<Token>, code: string, e: Node, i: nat, close: nat)
    requires i < close < |toks| && close + 1 <= |code| && !Look(toks, code, close + 1).OutOfRange?
    requires toks[i].kind == LPAREN && toks[close].kind == RPAREN
    requires ParseExpr(toks, code, i + 1) == Parsed(e, close)
    ensures ParseFactor(toks, code, i) == Parsed(e, close + 1)
  {
    assert Advances(toks, code, i);
    FactorParen(toks, code, i, Parsed(e, close));
  }

  /** `term` reads the tokens of a derivation of `term` and leaves its loop
      at the token after them, with that derivation's tree as the left
      operand. */
  lemma {:induction false} TermPrefix(toks: seq<Token>, code: string, s: Syntax, i: nat, end: nat)
    requires Derives(s, 1)
    requires end == i + |Spelling(s)| && Spells(toks, i, Spelling(s))
    requires end <= |code| && !Look(toks, code, end).OutOfRange?
    ensures ParseTerm(toks, code, i) == MoreFactors(toks, code, Tree(s), end)
    decreases end - i, 3
  {
    if s.Infix? {
      var op, l, r := s.op, s.left, s.right;
      SpellsInfix(toks, i, Spelling(l), op, Spelling(r));
      TermProductCase(toks, code, l, op, r, i, i + |Spelling(l)|, end);
    } else {
      assert ParseFactor(toks, code, i) == Parsed(Tree(s), end) by { FactorRoundTrip(toks, code, s, i, end); }
      ParseTermStart(toks, code, i, Parsed(Tree(s), end));
    }
  }

  lemma {:induction false} TermProductCase(toks: seq<Token>, code: string, l: Syntax, op: Token, r: Syntax, i: nat, j: nat, end: nat)
    requires IsMulOp(op.kind) && Derives(l, 1) && Derives(r, 0)
    requires j == i + |Spelling(l)| && end == j + 1 + |Spelling(r)|
    requires Spells(toks, i, Spelling(l)) && j < |toks| && toks[j] == op && Spells(toks, j + 1, Spelling(r))
    requires end <= |code| && !Look(toks, code, end).OutOfRange?
    ensures ParseTerm(toks, code, i) == MoreFactors(toks, code, BinOp(op, Tree(l), Tree(r)), end)
    decreases end - i, 2
  {
    assert ParseTerm(toks, code, i) == MoreFactors(toks, code, Tree(l), j) by { TermPrefix(toks, code, l, i, j); }
    assert ParseFactor(toks, code, j + 1) == Parsed(Tree(r), end) by { FactorRoundTrip(toks, code, r, j + 1, end); }
    ProductStep(toks, code, Tree(l), op, Tree(r), i, j, end);
  }

  /** One turn of `term`'s loop that reads a whole `factor`. */
  lemma ProductStep(toks: seq<Token>, code: string, l: Node, op: Token, r: Node, i: nat, j: nat, end: nat)
    requires i <= j < end <= |code| && j + 1 < |toks| && toks[j] == op && IsMulOp(op.kind)
    requires ParseTerm(toks, code, i) == MoreFactors(toks, code, l, j)
    requires ParseFactor(toks, code, j + 1) == Parsed(r, end)
    ensures ParseTerm(toks, code, i) == MoreFactors(toks, code, BinOp(op, l, r), end)
  {
    assert Advances(toks, code, j);
    MoreFactorsStep(toks, code, l, j, Parsed(r, end));
  }

  /** `expr` reads the tokens of a derivation of `expr` and leaves its loop
      at the token after them, provided `term`'s loop stops there too. */
  lemma {:induction false} ExprPrefix(toks: seq<Token>, code: string, s: Syntax, i: nat, end: nat)
    requires Derives(s, 2)
    requires end == i + |Spelling(s)| && Spells(toks, i, Spelling(s))
    requires end <= |code| && Stops(toks, code, end)
    ensures ParseExpr(toks, code, i) == MoreTerms(toks, code, Tree(s), end)
    decreases end - i, 5
  {
    if s.Infix? && IsAddOp(s.op.kind) {
      var op, l, r := s.op, s.left, s.right;
      SpellsInfix(toks, i, Spelling(l), op, Spelling(r));
      ExprSumCase(toks, code, l, op, r, i, i + |Spelling(l)|, end);
    } else {
      assert ParseTerm(toks, code, i) == MoreFactors(toks, code, Tree(s), end) by { TermPrefix(toks, code, s, i, end); }
      TermStop(toks, code, Tree(s), i, end);
    }
  }

  lemma {:induction false} ExprSumCase(toks: seq<Token>, code: string, l: Syntax, op: Token, r: Syntax, i: nat, j: nat, end: nat)
    requires IsAddOp(op.kind) && Derives(l, 2) && Derives(r, 1)
    requires j == i + |Spelling(l)| && end == j + 1 + |Spelling(r)|
    requires Spells(toks, i, Spelling(l)) && j < |toks| && toks[j] == op && Spells(toks, j + 1, Spelling(r))
    requires end <= |code| && Stops(toks, code, end)
    ensures ParseExpr(toks, code, i) == MoreTerms(toks, code, BinOp(op, Tree(l), Tree(r)), end)
    decreases end - i, 4
  {
    assert ParseExpr(toks, code, i) == MoreTerms(toks, code, Tree(l), j) by {
      assert Look(toks, code, j) == Value(op);
      ExprPrefix(toks, code, l, i, j);
    }
    assert ParseTerm(toks, code, j + 1) == MoreFactors(toks, code, Tree(r), end) by { TermPrefix(toks, code, r, j + 1, end); }
    SumStep(toks, code, Tree(l), op, Tree(r), i, j, end);
  }

  /** `expr` after a `term` that ends where `term`'s loop stops. */
  lemma TermStop(toks: seq<Token>, code: string, e: Node, i: nat, end: nat)
    requires i < end <= |code| && Stops(toks, code, end)
    requires ParseTerm(toks, code, i) == MoreFactors(toks, code, e, end)
    ensures ParseExpr(toks, code, i) == MoreTerms(toks, code, e, end)
  {
    MoreFactorsStop(toks, code, e, end);
    MoreTermsStop(toks, code, e, end);
    if Look(toks, code, end).NoValue? {
      ParseExprStart(toks, code, i, Crashed(AttributeError));
    } else {
      ParseExprStart(toks, code, i, Parsed(e, end));
    }
  }

  /** One turn of `expr`'s loop that reads a whole `term` and then stops. */
  lemma SumStep(toks: seq<Token>, code: string, l: Node, op: Token, r: Node, i: nat, j: nat, end: nat)
    requires i <= j < end <= |code| && j + 1 < |toks| && toks[j] == op && IsAddOp(op.kind)
    requires Stops(toks, code, end)
    requires ParseExpr(toks, code, i) == MoreTerms(toks, code, l, j)
    requires ParseTerm(toks, code, j + 1) == MoreFactors(toks, code, r, end)
    ensures ParseExpr(toks, code, i) == MoreTerms(toks, code, BinOp(op, l, r), end)
  {
    assert Advances(toks, code, j);
    MoreFactorsStop(toks, code, r, end);
    MoreTermsStop(toks, code, BinOp(op, l, r), end);
    if Look(toks, code, end).NoValue? {
      MoreTermsStep(toks, code, l, j, Crashed(AttributeError));
    } else {
      MoreTermsStep(toks, code, l, j, Parsed(r, end));
    }
  }

  /** `expr` reads back exactly the tokens of a derivation of `expr`, up to
      a following token that is none of the four operators. */
  lemma {:induction false} ExprRoundTrip(toks: seq<Token>, code: string, s: Syntax, i: nat, end: nat)
    requires Derives(s, 2)
    requires end == i + |Spelling(s)| && Spells(toks, i, Spelling(s))
    requires end < |code| && end < |toks| && !IsAddOp(toks[end].kind) && !IsMulOp(toks[end].kind)
    ensures ParseExpr(toks, code, i) == Parsed(Tree(s), end)
    decreases end - i, 6
  {
    assert Look(toks, code, end) == Value(toks[end]);
    assert ParseExpr(toks, code, i) == MoreTerms(toks, code, Tree(s), end) by { ExprPrefix(toks, code, s, i, end); }
    MoreTermsStop(toks, code, Tree(s), end);
  }

  /** `toks` holds `s` from `i` on when the slice there is `s`. */
  lemma {:induction false} SpellsSlice(toks: seq<Token>, i: nat, s: seq<Token>)
    requires i + |s| <= |toks| && toks[i..i + |s|] == s
    ensures Spells(toks, i, s)
    decreases |s|
  {
    if s != [] {
      assert toks[i..i + |s|][0] == toks[i];
      assert toks[i + 1..i + 1 + |s[1..]|] == toks[i..i + |s|][1..];
      SpellsSlice(toks, i + 1, s[1..]);
    }
  }

  /** `parse` reads back every derivation of `expr`, whatever its
      parentheses, when the token after it is not an operator (the lexer
      ends its tokens with EOF) and the source text is longer than its
      tokens; the tokens after them are left unread. */
  lemma ParseRoundTrip(toks: seq<Token>, code: string, s: Syntax, n: nat)
    requires Derives(s, 2) && n == |Spelling(s)| < |toks| && toks[..n] == Spelling(s)
    requires !IsAddOp(toks[n].kind) && !IsMulOp(toks[n].kind)
    requires n < |code|
    ensures ParseProgram(toks, code) == Parsed(Tree(s), n)
  {
    SpellsSlice(toks, 0, Spelling(s));
    assert Look(toks, code, 0).Value?;
    assert ParseExpr(toks, code, 0) == Parsed(Tree(s), n) by { ExprRoundTrip(toks, code, s, 0, n); }
  }

  /** The cursor is bounded by the length of the source text: when the text
      is exactly as long as the tokens of the expression (`1+2`, `a*b`), the
      cursor becomes `None` on the token after them and `expr`'s loop reads
      `.type` on it, whatever tokens follow. */
  lemma TightSourceCrashes(toks: seq<Token>, code: string, s: Syntax, n: nat)
    requires Derives(s, 2) && n == |Spelling(s)| <= |toks| && toks[..n] == Spelling(s)
    requires |code| == n
    ensures ParseProgram(toks, code) == Crashed(AttributeError)
  {
    SpellsSlice(toks, 0, Spelling(s));
    assert Look(toks, code, 0).Value?;
    assert Look(toks, code, n).NoValue?;
    assert ParseExpr(toks, code, 0) == MoreTerms(toks, code, Tree(s), n) by { ExprPrefix(toks, code, s, 0, n); }
    MoreTermsStop(toks, code, Tree(s), n);
  }

  /** What a successful `factor` at `i` has read: a sign and a factor, a
      word, or `(`, an `expr` and `)`. */
  lemma FactorParsed(toks: seq<Token>, code: string, i: nat, e: Node, k: nat)
    requires i <= |code| && ParseFactor(toks, code, i) == Parsed(e, k)
    ensures i < |code| && i < |toks| && Advances(toks, code, i)
    ensures IsAddOp(toks[i].kind) ==>
      e.Unary? && e.op == toks[i] && ParseFactor(toks, code, i + 1) == Parsed(e.operand, k)
    ensures IsWordKind(toks[i].kind) ==> e == ValueNode(ValueTypeOf(toks[i].kind), toks[i]) && k == i + 1
    ensures !IsAddOp(toks[i].kind) && !IsWordKind(toks[i].kind) ==>
      && toks[i].kind == LPAREN && i + 1 < k
      && ParseExpr(toks, code, i + 1) == Parsed(e, k - 1) && k - 1 < |toks| && toks[k - 1].kind == RPAREN
  {
    var t := toks[i];
    if IsAddOp(t.kind) {
      FactorSign(toks, code, i, ParseFactor(toks, code, i + 1));
    } else if !IsWordKind(t.kind) {
      FactorParen(toks, code, i, ParseExpr(toks, code, i + 1));
    }
  }

  /** What a successful turn of `term`'s loop at `j` has read. */
  lemma MoreFactorsParsed(toks: seq<Token>, code: string, left: Node, j: nat, e: Node, k: nat)
    requires j <= |code| && MoreFactors(toks, code, left, j) == Parsed(e, k)
    ensures j < |code| && j < |toks|
    ensures !IsMulOp(toks[j].kind) ==> e == left && k == j
    ensures IsMulOp(toks[j].kind) ==>
      && Advances(toks, code, j) && ParseFactor(toks, code, j + 1).Parsed?
      && var right := ParseFactor(toks, code, j + 1);
         MoreFactors(toks, code, BinOp(toks[j], left, right.node), right.next) == Parsed(e, k)
  {
    MoreFactorsStop(toks, code, left, j);
    if IsMulOp(toks[j].kind) {
      MoreFactorsStep(toks, code, left, j, ParseFactor(toks, code, j + 1));
    }
  }

  /** What a successful turn of `expr`'s loop at `j` has read. */
  lemma MoreTermsParsed(toks: seq<Token>, code: string, left: Node, j: nat, e: Node, k: nat)
    requires j <= |code| && MoreTerms(toks, code, left, j) == Parsed(e, k)
    ensures j < |code| && j < |toks|
    ensures !IsAddOp(toks[j].kind) ==> e == left && k == j
    ensures IsAddOp(toks[j].kind) ==>
      && Advances(toks, code, j) && ParseTerm(toks, code, j + 1).Parsed?
      && var right := ParseTerm(toks, code, j + 1);
         MoreTerms(toks, code, BinOp(toks[j], left, right.node), right.next) == Parsed(e, k)
  {
    MoreTermsStop(toks, code, left, j);
    if IsAddOp(toks[j].kind) {
      MoreTermsStep(toks, code, left, j, ParseTerm(toks, code, j + 1));
    }
  }

  /** The tokens of a left operand, an operator and a right operand. */
  lemma InfixSpelled(toks: seq<Token>, i: nat, j: nat, m: nat, left: Syntax, op: Token, right: Syntax)
    requires i <= j < m <= |toks| && toks[i..j] == Spelling(left) && toks[j] == op && toks[j + 1..m] == Spelling(right)
    ensures toks[i..m] == Spelling(Infix(op, left, right))
  {
    assert toks[i..m] == toks[i..j] + [toks[j]] + toks[j + 1..m];
  }

  /** Whatever `factor` returns, the tokens it read spell a derivation of
      `factor` that builds the returned node. */
  lemma {:induction false} FactorReads(toks: seq<Token>, code: string, i: nat, e: Node, k: nat) returns (s: Syntax)
    requires i <= |code| && ParseFactor(toks, code, i) == Parsed(e, k)
    ensures Derives(s, 0) && Tree(s) == e && i < k <= |toks| && toks[i..k] == Spelling(s)
    decreases |code| - i, 1
  {
    FactorParsed(toks, code, i, e, k);
    var t := toks[i];
    if IsAddOp(t.kind) {
      s := SignReads(toks, code, i, e, k);
    } else if IsWordKind(t.kind) {
      s := Word(t);
      assert toks[i..k] == [t];
    } else {
      s := GroupReads(toks, code, i, e, k);
    }
  }

  lemma {:induction false} SignReads(toks: seq<Token>, code: string, i: nat, e: Node, k: nat) returns (s: Syntax)
    requires i < |code| && i < |toks| && IsAddOp(toks[i].kind)
    requires e.Unary? && e.op == toks[i] && ParseFactor(toks, code, i + 1) == Parsed(e.operand, k)
    ensures Derives(s, 0) && Tree(s) == e && i < k <= |toks| && toks[i..k] == Spelling(s)
    decreases |code| - i, 0
  {
    var x := FactorReads(toks, code, i + 1, e.operand, k);
    s := Signed(toks[i], x);
    SliceCons(toks, i, k);
  }

  lemma {:induction false} GroupReads(toks: seq<Token>, code: string, i: nat, e: Node, k: nat) returns (s: Syntax)
    requires i < |code| && i + 1 < k && k - 1 < |toks| && toks[i].kind == LPAREN && toks[k - 1].kind == RPAREN
    requires ParseExpr(toks, code, i + 1) == Parsed(e, k - 1)
    ensures Derives(s, 0) && Tree(s) == e && i < k <= |toks| && toks[i..k] == Spelling(s)
    decreases |code| - i, 0
  {
    var x := ExprReads(toks, code, i + 1, e, k - 1);
    s := Group(toks[i], x, toks[k - 1]);
    SliceWrap(toks, i, k);
  }

  lemma SliceCons(toks: seq<Token>, i: nat, k: nat)
    requires i < k <= |toks|
    ensures toks[i..k] == [toks[i]] + toks[i + 1..k]
  {
  }

  lemma SliceWrap(toks: seq<Token>, i: nat, k: nat)
    requires i + 1 < k <= |toks|
    ensures toks[i..k] == [toks[i]] + toks[i + 1..k - 1] + [toks[k - 1]]
  {
  }

  /** `term`'s loop, started on a derivation `left` of `term` spelled from
      `i` to `j`, returns the tree of a longer derivation of `term`. */
  lemma {:induction false} MoreFactorsReads(toks: seq<Token>, code: string, i: nat, left: Syntax, j: nat, e: Node, k: nat)
    returns (s: Syntax)
    requires Derives(left, 1) && i <= j <= |code| && j <= |toks| && toks[i..j] == Spelling(left)
    requires MoreFactors(toks, code, Tree(left), j) == Parsed(e, k)
    ensures Derives(s, 1) && Tree(s) == e && j <= k <= |toks| && toks[i..k] == Spelling(s)
    decreases |code| - j, 1
  {
    MoreFactorsParsed(toks, code, Tree(left), j, e, k);
    var op := toks[j];
    if !IsMulOp(op.kind) {
      s := left;
    } else {
      var right := ParseFactor(toks, code, j + 1);
      var r := FactorReads(toks, code, j + 1, right.node, right.next);
      var m := right.next;
      InfixSpelled(toks, i, j, m, left, op, r);
      s := MoreFactorsReads(toks, code, i, Infix(op, left, r), m, e, k);
    }
  }

  lemma {:induction false} TermReads(toks: seq<Token>, code: string, i: nat, e: Node, k: nat) returns (s: Syntax)
    requires i <= |code| && ParseTerm(toks, code, i) == Parsed(e, k)
    ensures Derives(s, 1) && Tree(s) == e && i < k <= |toks| && toks[i..k] == Spelling(s)
    decreases |code| - i, 2
  {
    var first := ParseFactor(toks, code, i);
    ParseTermStart(toks, code, i, first);
    var f := FactorReads(toks, code, i, first.node, first.next);
    DerivesUp(f, 0, 1);
    s := MoreFactorsReads(toks, code, i, f, first.next, e, k);
  }

  /** `expr`'s loop, started on a derivation `left` of `expr` spelled from
      `i` to `j`, returns the tree of a longer derivation of `expr`. */
  lemma {:induction false} MoreTermsReads(toks: seq<Token>, code: string, i: nat, left: Syntax, j: nat, e: Node, k: nat)
    returns (s: Syntax)
    requires Derives(left, 2) && i <= j <= |code| && j <= |toks| && toks[i..j] == Spelling(left)
    requires MoreTerms(toks, code, Tree(left), j) == Parsed(e, k)
    ensures Derives(s, 2) && Tree(s) == e && j <= k <= |toks| && toks[i..k] == Spelling(s)
    decreases |code| - j, 3
  {
    MoreTermsParsed(toks, code, Tree(left), j, e, k);
    var op := toks[j];
    if !IsAddOp(op.kind) {
      s := left;
    } else {
      var right := ParseTerm(toks, code, j + 1);
      var r := TermReads(toks, code, j + 1, right.node, right.next);
      var m := right.next;
      InfixSpelled(toks, i, j, m, left, op, r);
      s := MoreTermsReads(toks, code, i, Infix(op, left, r), m, e, k);
    }
  }

  lemma {:induction false} ExprReads(toks: seq<Token>, code: string, i: nat, e: Node, k: nat) returns (s: Syntax)
    requires i <= |code| && ParseExpr(toks, code, i) == Parsed(e, k)
    ensures Derives(s, 2) && Tree(s) == e && i < k <= |toks| && toks[i..k] == Spelling(s)
    decreases |code| - i, 4
  {
    var first := ParseTerm(toks, code, i);
    ParseExprStart(toks, code, i, first);
    var t := TermReads(toks, code, i, first.node, first.next);
    DerivesUp(t, 1, 2);
    s := MoreTermsReads(toks, code, i, t, first.next, e, k);
  }

  /** Whatever `parse` returns, the tokens before the one left current
      spell a derivation of `expr` that builds the returned tree. */
  lemma ParseReads(toks: seq<Token>, code: string, e: Node, n: nat)
    requires ParseProgram(toks, code) == Parsed(e, n)
    ensures n < |toks| && exists s :: Derives(s, 2) && Tree(s) == e && toks[..n] == Spelling(s)
  {
    var s := ExprReads(toks, code, 0, e, n);
    assert toks[..n] == toks[0..n];
  }

  /** `parse` returns `e` with the token at `n` left current exactly when
      the tokens before `n` spell a derivation of `e`, the token at `n` is
      none of the four operators, and the source text is longer than `n`. */
  lemma ParseExactly(toks: seq<Token>, code: string, e: Node, n: nat)
    ensures ParseProgram(toks, code) == Parsed(e, n) <==>
      && n < |code| && n < |toks| && !IsAddOp(toks[n].kind) && !IsMulOp(toks[n].kind)
      && exists s :: Derives(s, 2) && Tree(s) == e && toks[..n] == Spelling(s)
  {
    if ParseProgram(toks, code) == Parsed(e, n) {
      ParseReads(toks, code, e, n);
    }
    if && n < |code| && n < |toks| && !IsAddOp(toks[n].kind) && !IsMulOp(toks[n].kind)
       && exists s :: Derives(s, 2) && Tree(s) == e && toks[..n] == Spelling(s)
    {
      var s :| Derives(s, 2) && Tree(s) == e && toks[..n] == Spelling(s);
      ParseRoundTrip(toks, code, s, n);
    }
  }

  /** The grammar is unambiguous: two derivations of `expr` with the same
      tokens build the same tree. */
  lemma SpellingDeterminesTree(s: Syntax, d: Syntax)
    requires Derives(s, 2) && Derives(d, 2) && Spelling(s) == Spelling(d)
    ensures Tree(s) == Tree(d)
  {
    var w := Spelling(s);
    var toks := w + [Token(EOF, "EOF", 1)];
    var code: string := seq(|w| + 1, _ => ' ');
    assert toks[..|w|] == w;
    ParseRoundTrip(toks, code, s, |w|);
    ParseRoundTrip(toks, code, d, |w|);
  }

  /** Printing with the fewest parentheses loses nothing: two nodes the
      parser can build with the same printed tokens are the same node. */
  lemma PrintInjective(e: Node, d: Node)
    requires WellFormed(e) && WellFormed(d)
    requires Spelling(Print(e, 2)) == Spelling(Print(d, 2))
    ensures e == d
  {
    PrintDerives(e, 2);
    PrintDerives(d, 2);
    SpellingDeterminesTree(Print(e, 2), Print(d, 2));
  }

  /** A token that can start a factor: a sign, a word or `(`. */
  predicate StartsFactor(k: TokenKind) {
    IsAddOp(k) || IsWordKind(k) || k == LPAREN
  }

  /** The leaf `factor` builds from a word token. */
  function Leaf(t: Token): (n: Node)
    requires IsWordKind(t.kind)
    ensures WellFormed(n) && Level(n) == 0
  {
    ValueNode(ValueTypeOf(t.kind), t)
  }

  /** A word read as a factor. */
  lemma WordLeaf(t: Token)
    requires IsWordKind(t.kind)
    ensures Derives(Word(t), 0) && Derives(Word(t), 1) && Derives(Word(t), 2)
    ensures Tree(Word(t)) == Leaf(t) && Spelling(Word(t)) == [t]
  {
  }

  /** Three operands and two operators: `*` and `/` bind tighter than `+`
      and `-`, and two operators of the same group nest to the left. */
  lemma ThreeOperands(a: Token, o1: Token, b: Token, o2: Token, c: Token, rest: seq<Token>, code: string)
    requires IsWordKind(a.kind) && IsWordKind(b.kind) && IsWordKind(c.kind)
    requires (IsAddOp(o1.kind) || IsMulOp(o1.kind)) && (IsAddOp(o2.kind) || IsMulOp(o2.kind))
    requires |rest| > 0 && !IsAddOp(rest[0].kind) && !IsMulOp(rest[0].kind)
    requires 5 < |code|
    ensures ParseProgram([a, o1, b, o2, c] + rest, code) == Parsed(
      if IsAddOp(o1.kind) && IsMulOp(o2.kind) then BinOp(o1, Leaf(a), BinOp(o2, Leaf(b), Leaf(c)))
      else BinOp(o2, BinOp(o1, Leaf(a), Leaf(b)), Leaf(c)), 5)
  {
    var toks := [a, o1, b, o2, c] + rest;
    assert toks[..5] == [a, o1, b, o2, c] && toks[5] == rest[0];
    WordLeaf(a);
    WordLeaf(b);
    WordLeaf(c);
    if IsAddOp(o1.kind) && IsMulOp(o2.kind) {
      var r := Infix(o2, Word(b), Word(c));
      var s := Infix(o1, Word(a), r);
      assert Derives(r, 1) && Tree(r) == BinOp(o2, Leaf(b), Leaf(c));
      assert Spelling(r) == [b] + [o2] + [c] == [b, o2, c];
      assert Derives(s, 2) && Tree(s) == BinOp(o1, Leaf(a), Tree(r));
      assert Spelling(s) == [a] + [o1] + [b, o2, c] == [a, o1, b, o2, c];
      ParseRoundTrip(toks, code, s, 5);
    } else {
      var l := Infix(o1, Word(a), Word(b));
      var s := Infix(o2, l, Word(c));
      assert Derives(l, 2) && (IsMulOp(o1.kind) ==> Derives(l, 1));
      assert Tree(l) == BinOp(o1, Leaf(a), Leaf(b));
      assert Spelling(l) == [a] + [o1] + [b] == [a, o1, b];
      assert Derives(s, 2) && Tree(s) == BinOp(o2, Tree(l), Leaf(c));
      assert Spelling(s) == [a, o1, b] + [o2] + [c] == [a, o1, b, o2, c];
      ParseRoundTrip(toks, code, s, 5);
    }
  }

  /** `factor` on a token that cannot start one reports it at its index. */
  lemma FactorExpectedValue(toks: seq<Token>, code: string, i: nat)
    requires i < |code| && i < |toks| && !StartsFactor(toks[i].kind)
    ensures ParseFactor(toks, code, i) == Failed(ErrorAt(code, i, ExpectedValue(toks[i].lineno)))
  {
    assert Look(toks, code, i) == Value(toks[i]);
  }

  /** A source whose first token cannot start a factor (`)`, `*`, `=`, or
      the EOF of a blank source) fails at index 0. */
  lemma LeadingNonValue(toks: seq<Token>, code: string)
    requires 0 < |code| && 0 < |toks| && !StartsFactor(toks[0].kind)
    ensures ParseProgram(toks, code) == Failed(ErrorAt(code, 0, ExpectedValue(toks[0].lineno)))
  {
    FactorExpectedValue(toks, code, 0);
    ParseTermStart(toks, code, 0, ParseFactor(toks, code, 0));
    ParseExprStart(toks, code, 0, ParseTerm(toks, code, 0));
  }

  /** An operator with no operand after it (`1 +`, `a * )`): the tokens
      spell a derivation at the operator's level, the operator is at index
      `j`, and the token after it cannot start a factor; that token is
      reported at its index. */
  lemma DanglingOperator(toks: seq<Token>, code: string, s: Syntax, j: nat)
    requires j + 1 < |toks| && (IsAddOp(toks[j].kind) || IsMulOp(toks[j].kind)) && !StartsFactor(toks[j + 1].kind)
    requires Derives(s, if IsAddOp(toks[j].kind) then 2 else 1) && j == |Spelling(s)| && toks[..j] == Spelling(s)
    requires j + 1 < |code|
    ensures ParseProgram(toks, code) == Failed(ErrorAt(code, j + 1, ExpectedValue(toks[j + 1].lineno)))
  {
    var op := toks[j];
    SpellsSlice(toks, 0, Spelling(s));
    assert Look(toks, code, 0).Value? && Look(toks, code, j) == Value(op) && Advances(toks, code, j);
    var fail := Failed(ErrorAt(code, j + 1, ExpectedValue(toks[j + 1].lineno)));
    FactorExpectedValue(toks, code, j + 1);
    if IsAddOp(op.kind) {
      assert ParseExpr(toks, code, 0) == fail by {
        assert ParseExpr(toks, code, 0) == MoreTerms(toks, code, Tree(s), j) by { ExprPrefix(toks, code, s, 0, j); }
        ParseTermStart(toks, code, j + 1, fail);
        MoreTermsStep(toks, code, Tree(s), j, fail);
      }
    } else {
      assert ParseExpr(toks, code, 0) == fail by {
        assert ParseTerm(toks, code, 0) == MoreFactors(toks, code, Tree(s), j) by { TermPrefix(toks, code, s, 0, j); }
        MoreFactorsStep(toks, code, Tree(s), j, fail);
        ParseExprStart(toks, code, 0, fail);
      }
    }
  }

  /** A parenthesis left open: the tokens are `(`, a derivation of `expr`,
      and at index `close` a token that is neither `)` nor an operator; that
      token is reported at its index, with the line of the `(`. */
  lemma UnclosedParen(toks: seq<Token>, code: string, s: Syntax, close: nat)
    requires Derives(s, 2) && close == 1 + |Spelling(s)| && close < |code| && close < |toks|
    requires toks[0].kind == LPAREN && toks[1..close] == Spelling(s)
    requires toks[close].kind != RPAREN && !IsAddOp(toks[close].kind) && !IsMulOp(toks[close].kind)
    ensures ParseProgram(toks, code) == Failed(ErrorAt(code, close, ExpectedParen(toks[0].lineno)))
  {
    SpellsSlice(toks, 1, Spelling(s));
    assert ParseExpr(toks, code, 1) == Parsed(Tree(s), close) by { ExprRoundTrip(toks, code, s, 1, close); }
    UnclosedStep(toks, code, toks[0], Tree(s), close);
  }

  /** `parse` when the `expr` inside a leading `(` ends on a token other
      than `)`. */
  lemma UnclosedStep(toks: seq<Token>, code: string, lp: Token, e: Node, close: nat)
    requires 0 < close < |code| && close < |toks| && toks[0] == lp && lp.kind == LPAREN && toks[close].kind != RPAREN
    requires ParseExpr(toks, code, 1) == Parsed(e, close)
    ensures ParseProgram(toks, code) == Failed(ErrorAt(code, close, ExpectedParen(lp.lineno)))
  {
    assert Look(toks, code, 0) == Value(lp) && Advances(toks, code, 0);
    var fail := Failed(ErrorAt(code, close, ExpectedParen(lp.lineno)));
    FactorParen(toks, code, 0, Parsed(e, close));
    ParseTermStart(toks, code, 0, fail);
    ParseExprStart(toks, code, 0, fail);
  }

  /** The token list ends with EOF, as the lexer's always does. */
  predicate EndsWithEof(toks: seq<Token>) {
    |toks| > 0 && toks[|toks| - 1].kind == EOF
  }

  /** `advance` from any token but the closing EOF stays inside the list. */
  lemma AdvancePastNonEof(toks: seq<Token>, code: string, i: nat)
    requires EndsWithEof(toks) && i < |code| && i < |toks| && toks[i].kind != EOF
    ensures Advances(toks, code, i)
  {
  }

  /** No operand, operator or parenthesis is EOF, so the parser never
      advances past it: from a cursor that is not past the tokens, `factor`
      never raises IndexError. */
  lemma {:induction false} FactorNoIndexError(toks: seq<Token>, code: string, i: nat)
    requires EndsWithEof(toks) && i <= |code| && !Look(toks, code, i).OutOfRange?
    ensures ParseFactor(toks, code, i) != Crashed(IndexError)
    decreases |code| - i, 0
  {
    if Look(toks, code, i).Value? {
      var t := toks[i];
      if IsAddOp(t.kind) {
        AdvancePastNonEof(toks, code, i);
        FactorNoIndexError(toks, code, i + 1);
        FactorSign(toks, code, i, ParseFactor(toks, code, i + 1));
      } else if IsWordKind(t.kind) {
        AdvancePastNonEof(toks, code, i);
      } else if t.kind == LPAREN {
        AdvancePastNonEof(toks, code, i);
        var inner := ParseExpr(toks, code, i + 1);
        ExprNoIndexError(toks, code, i + 1);
        FactorParen(toks, code, i, inner);
        if inner.Parsed? && toks[inner.next].kind == RPAREN {
          AdvancePastNonEof(toks, code, inner.next);
        }
      }
    }
  }

  lemma {:induction false} MoreFactorsNoIndexError(toks: seq<Token>, code: string, left: Node, j: nat)
    requires EndsWithEof(toks) && j <= |code| && !Look(toks, code, j).OutOfRange?
    ensures MoreFactors(toks, code, left, j) != Crashed(IndexError)
    decreases |code| - j, 1
  {
    MoreFactorsStop(toks, code, left, j);
    if Look(toks, code, j).Value? && IsMulOp(toks[j].kind) {
      AdvancePastNonEof(toks, code, j);
      var right := ParseFactor(toks, code, j + 1);
      FactorNoIndexError(toks, code, j + 1);
      MoreFactorsStep(toks, code, left, j, right);
      if right.Parsed? {
        MoreFactorsNoIndexError(toks, code, BinOp(toks[j], left, right.node), right.next);
      }
    }
  }

  lemma {:induction false} TermNoIndexError(toks: seq<Token>, code: string, i: nat)
    requires EndsWithEof(toks) && i <= |code| && !Look(toks, code, i).OutOfRange?
    ensures ParseTerm(toks, code, i) != Crashed(IndexError)
    decreases |code| - i, 2
  {
    var first := ParseFactor(toks, code, i);
    FactorNoIndexError(toks, code, i);
    ParseTermStart(toks, code, i, first);
    if first.Parsed? {
      MoreFactorsNoIndexError(toks, code, first.node, first.next);
    }
  }

  lemma {:induction false} MoreTermsNoIndexError(toks: seq<Token>, code: string, left: Node, j: nat)
    requires EndsWithEof(toks) && j <= |code| && !Look(toks, code, j).OutOfRange?
    ensures MoreTerms(toks, code, left, j) != Crashed(IndexError)
    decreases |code| - j, 3
  {
    MoreTermsStop(toks, code, left, j);
    if Look(toks, code, j).Value? && IsAddOp(toks[j].kind) {
      AdvancePastNonEof(toks, code, j);
      var right := ParseTerm(toks, code, j + 1);
      TermNoIndexError(toks, code, j + 1);
      MoreTermsStep(toks, code, left, j, right);
      if right.Parsed? {
        MoreTermsNoIndexError(toks, code, BinOp(toks[j], left, right.node), right.next);
      }
    }
  }

  lemma {:induction false} ExprNoIndexError(toks: seq<Token>, code: string, i: nat)
    requires EndsWithEof(toks) && i <= |code| && !Look(toks, code, i).OutOfRange?
    ensures ParseExpr(toks, code, i) != Crashed(IndexError)
    decreases |code| - i, 4
  {
    var first := ParseTerm(toks, code, i);
    TermNoIndexError(toks, code, i);
    ParseExprStart(toks, code, i, first);
    if first.Parsed? {
      MoreTermsNoIndexError(toks, code, first.node, first.next);
    }
  }

  /** On a token list that ends with EOF, `parse` never raises IndexError:
      it can only return a tree, report a syntax error, or read `.type` on
      a `None` cursor. */
  lemma ParseNoIndexError(toks: seq<Token>, code: string)
    requires EndsWithEof(toks)
    ensures ParseProgram(toks, code) != Crashed(IndexError)
  {
    ExprNoIndexError(toks, code, 0);
  }

  /** `factor` could not start at `k`: the token there is reported as
      `Expected value`, with its own line. */
  predicate ExpectedValueAt(toks: seq<Token>, code: string, d: Diagnostic, k: nat) {
    && k < |code| && k < |toks| && !StartsFactor(toks[k].kind)
    && d == ErrorAt(code, k, ExpectedValue(toks[k].lineno))
  }

  /** The `(` at `m` was not closed: the token at `k` after its `expr`,
      neither `)` nor an operator, is reported with the line of the `(`. */
  predicate UnclosedAt(toks: seq<Token>, code: string, d: Diagnostic, m: nat, k: nat) {
    && m < k < |code| && k < |toks| && toks[m].kind == LPAREN
    && toks[k].kind != RPAREN && !IsAddOp(toks[k].kind) && !IsMulOp(toks[k].kind)
    && d == ErrorAt(code, k, ExpectedParen(toks[m].lineno))
  }

  /** The only two syntax errors the parser reports. */
  ghost predicate SyntaxError(toks: seq<Token>, code: string, d: Diagnostic) {
    (exists k :: ExpectedValueAt(toks, code, d, k)) || (exists m, k :: UnclosedAt(toks, code, d, m, k))
  }

  /** Every error `factor` reports is one of the two, at a token inside
      the list. */
  lemma {:induction false} FactorErrors(toks: seq<Token>, code: string, i: nat)
    requires i <= |code|
    ensures ParseFactor(toks, code, i).Failed? ==> SyntaxError(toks, code, ParseFactor(toks, code, i).diag)
    decreases |code| - i, 0
  {
    if Look(toks, code, i).Value? && Advances(toks, code, i) {
      var t := toks[i];
      if IsAddOp(t.kind) {
        FactorErrors(toks, code, i + 1);
        FactorSign(toks, code, i, ParseFactor(toks, code, i + 1));
      } else if t.kind == LPAREN {
        var inner := ParseExpr(toks, code, i + 1);
        ExprErrors(toks, code, i + 1);
        FactorParen(toks, code, i, inner);
        if inner.Parsed? && toks[inner.next].kind != RPAREN {
          assert UnclosedAt(toks, code, ParseFactor(toks, code, i).diag, i, inner.next);
        }
      } else if !IsWordKind(t.kind) {
        FactorExpectedValue(toks, code, i);
        assert ExpectedValueAt(toks, code, ParseFactor(toks, code, i).diag, i);
      }
    } else if Look(toks, code, i).Value? && !StartsFactor(toks[i].kind) {
      FactorExpectedValue(toks, code, i);
      assert ExpectedValueAt(toks, code, ParseFactor(toks, code, i).diag, i);
    }
  }

  lemma {:induction false} MoreFactorsErrors(toks: seq<Token>, code: string, left: Node, j: nat)
    requires j <= |code|
    ensures MoreFactors(toks, code, left, j).Failed? ==> SyntaxError(toks, code, MoreFactors(toks, code, left, j).diag)
    decreases |code| - j, 1
  {
    var r := MoreFactors(toks, code, left, j);
    if r.Failed? {
      MoreFactorsStop(toks, code, left, j);
      assert Look(toks, code, j).Value? && IsMulOp(toks[j].kind) && Advances(toks, code, j);
      var right := ParseFactor(toks, code, j + 1);
      MoreFactorsStep(toks, code, left, j, right);
      if right.Parsed? {
        assert SyntaxError(toks, code, r.diag) by {
          MoreFactorsErrors(toks, code, BinOp(toks[j], left, right.node), right.next);
        }
      } else {
        assert SyntaxError(toks, code, r.diag) by { FactorErrors(toks, code, j + 1); }
      }
    }
  }

  lemma {:induction false} TermErrors(toks: seq<Token>, code: string, i: nat)
    requires i <= |code|
    ensures ParseTerm(toks, code, i).Failed? ==> SyntaxError(toks, code, ParseTerm(toks, code, i).diag)
    decreases |code| - i, 2
  {
    var first := ParseFactor(toks, code, i);
    FactorErrors(toks, code, i);
    ParseTermStart(toks, code, i, first);
    if first.Parsed? {
      MoreFactorsErrors(toks, code, first.node, first.next);
    }
  }

  lemma {:induction false} MoreTermsErrors(toks: seq<Token>, code: string, left: Node, j: nat)
    requires j <= |code|
    ensures MoreTerms(toks, code, left, j).Failed? ==> SyntaxError(toks, code, MoreTerms(toks, code, left, j).diag)
    decreases |code| - j, 3
  {
    var r := MoreTerms(toks, code, left, j);
    if r.Failed? {
      MoreTermsStop(toks, code, left, j);
      assert Look(toks, code, j).Value? && IsAddOp(toks[j].kind) && Advances(toks, code, j);
      var right := ParseTerm(toks, code, j + 1);
      MoreTermsStep(toks, code, left, j, right);
      if right.Parsed? {
        assert SyntaxError(toks, code, r.diag) by {
          MoreTermsErrors(toks, code, BinOp(toks[j], left, right.node), right.next);
        }
      } else {
        assert SyntaxError(toks, code, r.diag) by { TermErrors(toks, code, j + 1); }
      }
    }
  }

  lemma {:induction false} ExprErrors(toks: seq<Token>, code: string, i: nat)
    requires i <= |code|
    ensures ParseExpr(toks, code, i).Failed? ==> SyntaxError(toks, code, ParseExpr(toks, code, i).diag)
    decreases |code| - i, 4
  {
    var first := ParseTerm(toks, code, i);
    TermErrors(toks, code, i);
    ParseExprStart(toks, code, i, first);
    if first.Parsed? {
      MoreTermsErrors(toks, code, first.node, first.next);
    }
  }

  /** Every error `parse` reports is `Expected value` at a token that cannot
      start a factor, with that token's line, or `Expected ')'` at a token
      after an unclosed `(`, with the line of the `(`; either way `error`
      draws it at a token index inside the text and the token list. */
  lemma ParseErrors(toks: seq<Token>, code: string)
    ensures ParseProgram(toks, code).Failed? ==> SyntaxError(toks, code, ParseProgram(toks, code).diag)
  {
    ExprErrors(toks, code, 0);
  }

  /** Where `error` puts its `~`: the range is keyed on the token index `k`
      and drawn under the padded last line of the source, so the marks fall
      on that line only while `k` is inside it, seven of them when the whole
      range fits. */
  lemma ErrorMarks(code: string, k: nat, message: string)
    ensures var line := LastLine(code) + "      ";
      var d := ErrorAt(code, k, message);
      && d.msg == message
      && d.arrow == line + "\n" + Underline(line, k, k + 6)
      && Occurrences(Underline(line, k, k + 6), '~') == (if k + 7 <= |line| then 7 else if k < |line| then |line| - k else 0)
      && (|line| <= k ==> Underline(line, k, k + 6) == Blanks(line))
  {
    var line := LastLine(code) + "      ";
    UnderlineTildes(line, k, k + 6);
    if |line| <= k {
      UnderlineBeyond(line, k, k + 6);
    }
  }
}
