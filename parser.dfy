/** The recursive-descent parser (`Parser`, pysharp.py): `expr` over `term`
    over `factor`, each returning a node or the `(msg, arrow)` pair of the
    first syntax error. The functions below state what each method returns
    from a given cursor; the `Parser` class is the imperative original,
    proved to return exactly that. */
module Parsing {
  import opened Lookups
  import opened Text
  import opened Diagnostics
  import opened Tokens

  /** The `nodetype` a `ValueNode` built from a single token carries
      (`"Int"`, `"String"` and the source's `"Indentifier"`). */
  datatype ValueType = Int | String | Identifier

  /** `ValueNode` (a literal, an identifier, or a `"Unary"` node whose `tk`
      is the operand node and whose `op` is the sign) and `BinOp`. */
  datatype Node =
    | ValueNode(nodetype: ValueType, tk: Token)
    | Unary(op: Token, operand: Node)
    | BinOp(op: Token, left: Node, right: Node)

  /** The exceptions the parser can raise: `.type` read on a `None` current
      token, and a token index past the end of the token list. */
  datatype Crash = AttributeError | IndexError

  /** What a parsing method ends with: a node and the index of the token
      that became current, the error pair, or an exception. */
  datatype ParseResult = Parsed(node: Node, next: nat) | Failed(diag: Diagnostic) | Crashed(crash: Crash)

  predicate IsAddOp(k: TokenKind) {
    k == PLUS || k == MINUS
  }

  predicate IsMulOp(k: TokenKind) {
    k == MUL || k == DIV
  }

  /** The node type of a leaf built from a word token of kind `k`. */
  function ValueTypeOf(k: TokenKind): ValueType {
    if k == INT then Int else if k == STRING then String else Identifier
  }

  /** The nodes the parser can build: leaves from INT/STRING/IDENTIFIER
      tokens with the matching node type, unary nodes on a sign, binary
      nodes on one of the four operators. */
  predicate WellFormed(n: Node) {
    match n
    case ValueNode(ty, t) => IsWordKind(t.kind) && ty == ValueTypeOf(t.kind)
    case Unary(op, x) => IsAddOp(op.kind) && WellFormed(x)
    case BinOp(op, l, r) => (IsAddOp(op.kind) || IsMulOp(op.kind)) && WellFormed(l) && WellFormed(r)
  }

  /** `current_token` when the cursor is at `i`: the parser's `Position` is
      bounded by the length of the source text, not of the token list, so
      `i == |code|` stands for the cursor `None`, and an index inside the
      text but past the tokens raises IndexError. */
  function Look(toks: seq<Token>, code: string, i: nat): (r: Lookup<Token>)
    requires i <= |code|
    ensures r.NoValue? <==> i == |code|
    ensures r.OutOfRange? <==> i < |code| && |toks| <= i
    ensures r.Value? ==> r.value == toks[i]
  {
    if i < |code| then Index(toks, Some(i)) else NoValue
  }

  /** `advance` from a current token at `i` does not raise. */
  predicate Advances(toks: seq<Token>, code: string, i: nat)
    requires i < |code|
  {
    !Look(toks, code, i + 1).OutOfRange?
  }

  /** `Parser.error`: the last line of the source (the parser's line counter
      stays 0, and index -1 of the split source is its last line) padded
      with six spaces, with `~` under columns `k` to `k + 6`, `k` being the
      index of the current token. */
  function ErrorAt(code: string, k: int, message: string): Diagnostic {
    Render(message, LastLine(code) + "      ", k, k + 6)
  }

  /** The message of a token that cannot start a factor, on line `lineno`. */
  function ExpectedValue(lineno: int): string {
    "Expected value at line " + IntString(lineno)
  }

  /** The message of a parenthesis opened on line `lineno` and not closed. */
  function ExpectedParen(lineno: int): string {
    "Expected ')' at line " + IntString(lineno)
  }

  /** `factor` from the token at `i`. */
  function ParseFactor(toks: seq<Token>, code: string, i: nat): (r: ParseResult)
    requires i <= |code|
    ensures r.Parsed? ==> i < r.next <= |code| && !Look(toks, code, r.next).OutOfRange?
    ensures r.Parsed? ==> WellFormed(r.node)
    decreases |code| - i, 0
  {
    match Look(toks, code, i)
    case NoValue => Crashed(AttributeError)
    case OutOfRange => Crashed(IndexError)
    case Value(t) =>
      if IsAddOp(t.kind) then
        if !Advances(toks, code, i) then Crashed(IndexError)
        else match ParseFactor(toks, code, i + 1)
          case Parsed(x, k) => Parsed(Unary(t, x), k)
          case failure => failure
      else if IsWordKind(t.kind) then
        if !Advances(toks, code, i) then Crashed(IndexError)
        else Parsed(ValueNode(ValueTypeOf(t.kind), t), i + 1)
      else if t.kind == LPAREN then
        if !Advances(toks, code, i) then Crashed(IndexError)
        else match ParseExpr(toks, code, i + 1)
          case Parsed(e, k) =>
            if Look(toks, code, k).value.kind != RPAREN then
              Failed(ErrorAt(code, k, ExpectedParen(t.lineno)))
            else if !Advances(toks, code, k) then Crashed(IndexError)
            else Parsed(e, k + 1)
          case failure => failure
      else
        Failed(ErrorAt(code, i, ExpectedValue(t.lineno)))
  }

  /** `factor` on a sign at `i`: the operand's factor, wrapped. */
  lemma FactorSign(toks: seq<Token>, code: string, i: nat, operand: ParseResult)
    requires i < |code| && i < |toks| && IsAddOp(toks[i].kind) && Advances(toks, code, i)
    requires operand == ParseFactor(toks, code, i + 1)
    ensures ParseFactor(toks, code, i) == if operand.Parsed? then Parsed(Unary(toks[i], operand.node), operand.next) else operand
  {
  }

  /** `factor` on a parenthesis at `i`, the inner `expr` having ended with
      `inner`. */
  lemma FactorParen(toks: seq<Token>, code: string, i: nat, inner: ParseResult)
    requires i < |code| && i < |toks| && toks[i].kind == LPAREN && Advances(toks, code, i)
    requires inner == ParseExpr(toks, code, i + 1)
    ensures !inner.Parsed? ==> ParseFactor(toks, code, i) == inner
    ensures inner.Parsed? && toks[inner.next].kind != RPAREN ==>
      ParseFactor(toks, code, i) == Failed(ErrorAt(code, inner.next, ExpectedParen(toks[i].lineno)))
    ensures inner.Parsed? && toks[inner.next].kind == RPAREN ==>
      ParseFactor(toks, code, i) == if Advances(toks, code, inner.next) then Parsed(inner.node, inner.next + 1) else Crashed(IndexError)
  {
    var t := toks[i];
    assert Look(toks, code, i) == Value(t);
    assert !IsAddOp(t.kind) && !IsWordKind(t.kind);
  }

  /** The `while` loop of `term` from the token at `j`, `left` being the node
      built so far. */
  function MoreFactors(toks: seq<Token>, code: string, left: Node, j: nat): (r: ParseResult)
    requires j <= |code|
    ensures r.Parsed? ==> j <= r.next < |code| && Look(toks, code, r.next).Value?
    ensures r.Parsed? ==> !IsMulOp(toks[r.next].kind)
    ensures r.Parsed? && WellFormed(left) ==> WellFormed(r.node)
    decreases |code| - j, 1
  {
    match Look(toks, code, j)
    case NoValue => Crashed(AttributeError)
    case OutOfRange => Crashed(IndexError)
    case Value(t) =>
      if !IsMulOp(t.kind) then Parsed(left, j)
      else if !Advances(toks, code, j) then Crashed(IndexError)
      else match ParseFactor(toks, code, j + 1)
        case Parsed(right, k) => MoreFactors(toks, code, BinOp(t, left, right), k)
        case failure => failure
  }

  /** Where `term`'s loop leaves off at `j` without reading further. */
  lemma MoreFactorsStop(toks: seq<Token>, code: string, left: Node, j: nat)
    requires j <= |code|
    ensures Look(toks, code, j).NoValue? ==> MoreFactors(toks, code, left, j) == Crashed(AttributeError)
    ensures Look(toks, code, j).OutOfRange? ==> MoreFactors(toks, code, left, j) == Crashed(IndexError)
    ensures Look(toks, code, j).Value? && !IsMulOp(toks[j].kind) ==> MoreFactors(toks, code, left, j) == Parsed(left, j)
    ensures j < |code| && Look(toks, code, j).Value? && IsMulOp(toks[j].kind) && !Advances(toks, code, j) ==>
      MoreFactors(toks, code, left, j) == Crashed(IndexError)
  {
  }

  /** `term` is its first operand followed by its loop. */
  lemma ParseTermStart(toks: seq<Token>, code: string, i: nat, first: ParseResult)
    requires i <= |code| && first == ParseFactor(toks, code, i)
    ensures first.Parsed? ==> ParseTerm(toks, code, i) == MoreFactors(toks, code, first.node, first.next)
    ensures !first.Parsed? ==> ParseTerm(toks, code, i) == first
  {
  }

  /** One turn of `term`'s loop on an operator at `j`. */
  lemma MoreFactorsStep(toks: seq<Token>, code: string, left: Node, j: nat, right: ParseResult)
    requires j < |code| && j < |toks| && IsMulOp(toks[j].kind) && Advances(toks, code, j)
    requires right == ParseFactor(toks, code, j + 1)
    ensures right.Parsed? ==> MoreFactors(toks, code, left, j) == MoreFactors(toks, code, BinOp(toks[j], left, right.node), right.next)
    ensures !right.Parsed? ==> MoreFactors(toks, code, left, j) == right
  {
  }

  /** `term` from the token at `i`. */
  function ParseTerm(toks: seq<Token>, code: string, i: nat): (r: ParseResult)
    requires i <= |code|
    ensures r.Parsed? ==> i < r.next < |code| && Look(toks, code, r.next).Value?
    ensures r.Parsed? ==> !IsMulOp(toks[r.next].kind) && WellFormed(r.node)
    decreases |code| - i, 2
  {
    match ParseFactor(toks, code, i)
    case Parsed(f, k) => MoreFactors(toks, code, f, k)
    case failure => failure
  }

  /** The `while` loop of `expr` from the token at `j`. */
  function MoreTerms(toks: seq<Token>, code: string, left: Node, j: nat): (r: ParseResult)
    requires j <= |code|
    ensures r.Parsed? ==> j <= r.next < |code| && Look(toks, code, r.next).Value?
    ensures r.Parsed? && j < r.next ==> !IsMulOp(toks[r.next].kind)
    ensures r.Parsed? ==> !IsAddOp(toks[r.next].kind)
    ensures r.Parsed? && WellFormed(left) ==> WellFormed(r.node)
    decreases |code| - j, 3
  {
    match Look(toks, code, j)
    case NoValue => Crashed(AttributeError)
    case OutOfRange => Crashed(IndexError)
    case Value(t) =>
      if !IsAddOp(t.kind) then Parsed(left, j)
      else if !Advances(toks, code, j) then Crashed(IndexError)
      else match ParseTerm(toks, code, j + 1)
        case Parsed(right, k) => MoreTerms(toks, code, BinOp(t, left, right), k)
        case failure => failure
  }

  /** Where `expr`'s loop leaves off at `j` without reading further. */
  lemma MoreTermsStop(toks: seq<Token>, code: string, left: Node, j: nat)
    requires j <= |code|
    ensures Look(toks, code, j).NoValue? ==> MoreTerms(toks, code, left, j) == Crashed(AttributeError)
    ensures Look(toks, code, j).OutOfRange? ==> MoreTerms(toks, code, left, j) == Crashed(IndexError)
    ensures Look(toks, code, j).Value? && !IsAddOp(toks[j].kind) ==> MoreTerms(toks, code, left, j) == Parsed(left, j)
    ensures j < |code| && Look(toks, code, j).Value? && IsAddOp(toks[j].kind) && !Advances(toks, code, j) ==>
      MoreTerms(toks, code, left, j) == Crashed(IndexError)
  {
  }

  /** `expr` is its first operand followed by its loop. */
  lemma ParseExprStart(toks: seq<Token>, code: string, i: nat, first: ParseResult)
    requires i <= |code| && first == ParseTerm(toks, code, i)
    ensures first.Parsed? ==> ParseExpr(toks, code, i) == MoreTerms(toks, code, first.node, first.next)
    ensures !first.Parsed? ==> ParseExpr(toks, code, i) == first
  {
  }

  /** One turn of `expr`'s loop on an operator at `j`. */
  lemma MoreTermsStep(toks: seq<Token>, code: string, left: Node, j: nat, right: ParseResult)
    requires j < |code| && j < |toks| && IsAddOp(toks[j].kind) && Advances(toks, code, j)
    requires right == ParseTerm(toks, code, j + 1)
    ensures right.Parsed? ==> MoreTerms(toks, code, left, j) == MoreTerms(toks, code, BinOp(toks[j], left, right.node), right.next)
    ensures !right.Parsed? ==> MoreTerms(toks, code, left, j) == right
  {
  }

  /** `expr` from the token at `i`: on success the token left current is
      neither an operator of `expr` nor of `term`. */
  function ParseExpr(toks: seq<Token>, code: string, i: nat): (r: ParseResult)
    requires i <= |code|
    ensures r.Parsed? ==> i < r.next < |code| && Look(toks, code, r.next).Value?
    ensures r.Parsed? ==> !IsAddOp(toks[r.next].kind) && !IsMulOp(toks[r.next].kind)
    ensures r.Parsed? ==> WellFormed(r.node)
    decreases |code| - i, 4
  {
    match ParseTerm(toks, code, i)
    case Parsed(t, k) => MoreTerms(toks, code, t, k)
    case failure => failure
  }

  /** `Parser(tokens, code).parse()`: the constructor's `advance` reads
      `tokens[0]` when the source is not empty. */
  function ParseProgram(toks: seq<Token>, code: string): (r: ParseResult)
    ensures r.Parsed? ==> 0 < r.next < |code|
  {
    if Look(toks, code, 0).OutOfRange? then Crashed(IndexError) else ParseExpr(toks, code, 0)
  }

  /** `"\n".join(lines)`. */
  function JoinLines(lines: seq<string>): string {
    if lines == [] then ""
    else if |lines| == 1 then lines[0]
    else JoinLines(lines[..|lines| - 1]) + "\n" + lines[|lines| - 1]
  }

  /** `code.split("\n")`: one piece per newline plus one, none holding a
      newline, the last one being the text after the last newline, and
      joining them back with newlines gives the text. */
  function SplitLines(s: string): (r: seq<string>)
    ensures |r| == CountNewlines(s) + 1 && r[|r| - 1] == LastLine(s)
    ensures forall k :: 0 <= k < |r| ==> '\n' !in r[k]
    ensures JoinLines(r) == s
    decreases |s|
  {
    var start := LineStart(s, |s|);
    if start == 0 then
      assert forall c :: c in s ==> c != '\n' by {
        forall c | c in s ensures c != '\n' {
          var k :| 0 <= k < |s| && s[k] == c;
        }
      }
      assert CountNewlines(s) == 0 by { NoOccurrences(s, '\n'); }
      [s]
    else
      var init := SplitLines(s[..start - 1]);
      assert CountNewlines(s) == |init| by { SplitAtNewline(s, start); }
      assert JoinLines(init + [s[start..]]) == s by {
        JoinSnoc(init, s[start..]);
        SplitAtNewline(s, start);
      }
      init + [s[start..]]
  }

  /** Index -1 of the split text is its last line. */
  lemma LastPiece(s: string)
    ensures Index(SplitLines(s), Some(-1)) == Value(LastLine(s))
  {
    var r := SplitLines(s);
    assert r[|r| - 1] == LastLine(s);
  }

  lemma JoinSnoc(init: seq<string>, last: string)
    requires |init| > 0
    ensures JoinLines(init + [last]) == JoinLines(init) + "\n" + last
  {
    assert (init + [last])[..|init|] == init;
  }

  /** A text cut at the newline just before `start`, with no newline after it. */
  lemma SplitAtNewline(s: string, start: nat)
    requires 0 < start <= |s| && s[start - 1] == '\n'
    requires forall k :: start <= k < |s| ==> s[k] != '\n'
    ensures s == s[..start - 1] + "\n" + s[start..]
    ensures CountNewlines(s) == CountNewlines(s[..start - 1]) + 1
  {
    assert s == s[..start - 1] + "\n" + s[start..];
    OccurrencesAppend(s[..start - 1] + "\n", s[start..], '\n');
    OccurrencesAppend(s[..start - 1], "\n", '\n');
    OccurrencesSingleton('\n', '\n');
    NoOccurrences(s[start..], '\n');
  }

  class Parser {
    const position: Position
    var currentToken: Option<Token>
    const code: string
    /** The token index the parser is at, `|code|` standing for `None`. */
    ghost var cursor: nat

    /** `cursor` read off the `Position`. */
    function At(): nat
      reads this, position
    {
      match position.position
      case None => |code|
      case Some(k) => if k < 0 then 0 else k
    }

    /** The parser's state between calls: a cursor inside the text or
        `None`, the line counter at 0, and `current_token` the token under
        the cursor. */
    ghost predicate Valid()
      reads this, position
    {
      && position.text == code
      && position.lineno == 0
      && (position.position.Some? ==> 0 <= position.position.value < |code|)
      && cursor == At()
      && (cursor < |code| ==> cursor < |position.tokens|)
      && currentToken == (if cursor < |code| then Some(position.tokens[cursor]) else None)
    }

    /** `Parser(tokens, code)`; its first `advance` raises IndexError when
        the source is not empty and the token list is. */
    constructor(tokens: seq<Token>, code: string)
      requires !Look(tokens, code, 0).OutOfRange?
      ensures Valid() && position.tokens == tokens && this.code == code && cursor == 0
      ensures fresh(position)
    {
      position := new Position(0, -1, code, tokens);
      this.code := code;
      new;
      position.Advance();
      cursor := At();
      var t := position.CurrentToken();
      currentToken := if t.Value? then Some(t.value) else None;
    }

    /** `advance`; `ok` is false where the token lookup raises IndexError. */
    method Advance() returns (ok: bool)
      requires Valid() && cursor < |code|
      modifies this, position
      ensures ok == Advances(position.tokens, code, old(cursor))
      ensures ok ==> Valid() && cursor == old(cursor) + 1
    {
      position.Advance();
      cursor := At();
      var t := position.CurrentToken();
      if t.OutOfRange? {
        return false;
      }
      currentToken := if t.Value? then Some(t.value) else None;
      return true;
    }

    /** `error`: the line `split("\n")[lineno - 1]` of the source, padded,
        with the current token's index as the start column. */
    method Error(message: string) returns (d: Diagnostic)
      requires Valid() && cursor < |code|
      ensures d == ErrorAt(code, cursor, message)
    {
      var lines := SplitLines(code);
      var line := Index(lines, Some(position.lineno - 1));
      assert line == Value(LastLine(code)) by { LastPiece(code); }
      var startpos := position.position.value;
      d := Point(message, line.value + "      ", startpos, startpos + 6);
    }

    method Factor() returns (r: ParseResult)
      requires Valid()
      modifies this, position
      ensures r == ParseFactor(position.tokens, code, old(cursor))
      ensures r.Parsed? ==> Valid() && cursor == r.next
      decreases |code| - cursor, 1
    {
      if currentToken.None? {
        return Crashed(AttributeError);
      }
      ghost var i := cursor;
      var token := currentToken.value;
      if IsAddOp(token.kind) {
        r := SignedFactor(token);
      } else if IsWordKind(token.kind) {
        var ok := Advance();
        if !ok {
          return Crashed(IndexError);
        }
        r := Parsed(ValueNode(ValueTypeOf(token.kind), token), At());
      } else if token.kind == LPAREN {
        r := Parenthesised(token);
      } else {
        var d := Error(ExpectedValue(token.lineno));
        r := Failed(d);
      }
    }

    /** The signed branch of `factor`, on the `+` or `-` token `sign`. */
    method SignedFactor(sign: Token) returns (r: ParseResult)
      requires Valid() && cursor < |code| && currentToken == Some(sign) && IsAddOp(sign.kind)
      modifies this, position
      ensures r == ParseFactor(position.tokens, code, old(cursor))
      ensures r.Parsed? ==> Valid() && cursor == r.next
      decreases |code| - cursor, 0
    {
      ghost var i := cursor;
      var ok := Advance();
      if !ok {
        return Crashed(IndexError);
      }
      r := Factor();
      FactorSign(position.tokens, code, i, r);
      if r.Parsed? {
        r := Parsed(Unary(sign, r.node), r.next);
      }
    }

    /** One turn of `term`'s loop, on the `*` or `/` under the cursor:
        `advance`, then `factor`; on success the loop goes on from `left`
        combined with the new operand. */
    method MulOperand(ghost left: Node) returns (right: ParseResult)
      requires Valid() && cursor < |code| && IsMulOp(position.tokens[cursor].kind)
      modifies this, position
      ensures right.Parsed? ==> Valid() && old(cursor) < cursor == right.next
      ensures right.Parsed? ==>
        MoreFactors(position.tokens, code, left, old(cursor)) == MoreFactors(position.tokens, code, BinOp(position.tokens[old(cursor)], left, right.node), right.next)
      ensures !right.Parsed? ==> MoreFactors(position.tokens, code, left, old(cursor)) == right
      decreases |code| - cursor, 0
    {
      ghost var j := cursor;
      MoreFactorsStop(position.tokens, code, left, j);
      var ok := Advance();
      if !ok {
        return Crashed(IndexError);
      }
      right := Factor();
      MoreFactorsStep(position.tokens, code, left, j, right);
    }

    /** One turn of `expr`'s loop, on the `+` or `-` under the cursor:
        `advance`, then `term`. */
    method AddOperand(ghost left: Node) returns (right: ParseResult)
      requires Valid() && cursor < |code| && IsAddOp(position.tokens[cursor].kind)
      modifies this, position
      ensures right.Parsed? ==> Valid() && old(cursor) < cursor == right.next
      ensures right.Parsed? ==>
        MoreTerms(position.tokens, code, left, old(cursor)) == MoreTerms(position.tokens, code, BinOp(position.tokens[old(cursor)], left, right.node), right.next)
      ensures !right.Parsed? ==> MoreTerms(position.tokens, code, left, old(cursor)) == right
      decreases |code| - cursor, 3
    {
      ghost var j := cursor;
      MoreTermsStop(position.tokens, code, left, j);
      var ok := Advance();
      if !ok {
        return Crashed(IndexError);
      }
      right := Term();
      MoreTermsStep(position.tokens, code, left, j, right);
    }

    /** The parenthesised branch of `factor`, on the `(` token `lparen`. */
    method Parenthesised(lparen: Token) returns (r: ParseResult)
      requires Valid() && cursor < |code| && currentToken == Some(lparen) && lparen.kind == LPAREN
      modifies this, position
      ensures r == ParseFactor(position.tokens, code, old(cursor))
      ensures r.Parsed? ==> Valid() && cursor == r.next
      decreases |code| - cursor, 0
    {
      ghost var i := cursor;
      var ok := Advance();
      if !ok {
        return Crashed(IndexError);
      }
      r := Expr();
      FactorParen(position.tokens, code, i, r);
      if !r.Parsed? {
        return;
      }
      if currentToken.value.kind != RPAREN {
        var d := Error(ExpectedParen(lparen.lineno));
        return Failed(d);
      }
      ok := Advance();
      if !ok {
        return Crashed(IndexError);
      }
      r := Parsed(r.node, At());
    }

    method Term() returns (r: ParseResult)
      requires Valid()
      modifies this, position
      ensures r == ParseTerm(position.tokens, code, old(cursor))
      ensures r.Parsed? ==> Valid() && cursor == r.next
      decreases |code| - cursor, 2
    {
      ghost var i := cursor;
      ghost var goal := ParseTerm(position.tokens, code, i);
      r := Factor();
      ParseTermStart(position.tokens, code, i, r);
      if !r.Parsed? {
        return;
      }
      var left := r.node;
      while true
        invariant Valid() && i < cursor <= |code|
        invariant MoreFactors(position.tokens, code, left, cursor) == goal
        decreases |code| - cursor
      {
        MoreFactorsStop(position.tokens, code, left, cursor);
        if currentToken.None? {
          return Crashed(AttributeError);
        }
        var op := currentToken.value;
        if !IsMulOp(op.kind) {
          break;
        }
        ghost var j := cursor;
        assert j < |code| && op == position.tokens[j];
        var right := MulOperand(left);
        if !right.Parsed? {
          return right;
        }
        left := BinOp(op, left, right.node);
      }
      r := Parsed(left, At());
    }

    method Expr() returns (r: ParseResult)
      requires Valid()
      modifies this, position
      ensures r == ParseExpr(position.tokens, code, old(cursor))
      ensures r.Parsed? ==> Valid() && cursor == r.next
      decreases |code| - cursor, 4
    {
      ghost var i := cursor;
      ghost var goal := ParseExpr(position.tokens, code, i);
      r := Term();
      ParseExprStart(position.tokens, code, i, r);
      if !r.Parsed? {
        return;
      }
      var left := r.node;
      while true
        invariant Valid() && i < cursor <= |code|
        invariant MoreTerms(position.tokens, code, left, cursor) == goal
        decreases |code| - cursor
      {
        MoreTermsStop(position.tokens, code, left, cursor);
        if currentToken.None? {
          return Crashed(AttributeError);
        }
        var op := currentToken.value;
        if !IsAddOp(op.kind) {
          break;
        }
        ghost var j := cursor;
        assert j < |code| && op == position.tokens[j];
        var right := AddOperand(left);
        if !right.Parsed? {
          return right;
        }
        left := BinOp(op, left, right.node);
      }
      r := Parsed(left, At());
    }

    /** `parse`. */
    method Parse() returns (r: ParseResult)
      requires Valid()
      modifies this, position
      ensures r == ParseExpr(position.tokens, code, old(cursor))
      ensures r.Parsed? ==> Valid() && cursor == r.next
    {
      r := Expr();
    }
  }

  /** `Parser(tokens, code).parse()`, including the IndexError of the
      constructor. */
  method ParseTokens(tokens: seq<Token>, code: string) returns (r: ParseResult)
    ensures r == ParseProgram(tokens, code)
  {
    if |code| > 0 && |tokens| == 0 {
      return Crashed(IndexError);
    }
    var parser := new Parser(tokens, code);
    r := parser.Parse();
  }
}
