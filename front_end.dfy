/** The lexer's output handed to the parser together with the source text,
    as `Parser(tokens, code)` receives them. */
module FrontEnd {
  import opened Text
  import opened Tokens
  import opened Lexing
  import opened LexerProperties
  import opened Parsing
  import opened Grammar
  import opened ParserProperties

  lemma {:induction false} ValuesLength(toks: seq<Token>)
    requires forall k :: 0 <= k < |toks| ==> |toks[k].value| > 0
    ensures |Values(toks)| >= |toks|
    decreases |toks|
  {
    if toks != [] {
      ValuesLength(toks[..|toks| - 1]);
    }
  }

  /** The lexer emits at most one token per character that is not blank,
      plus EOF. */
  lemma TokenCount(code: string, toks: seq<Token>)
    requires Lex(code) == Lexed(toks)
    ensures 0 < |toks| <= |Compact(code)| + 1 <= |code| + 1
  {
    LexLossless(code, toks);
    ValuesLength(toks[..|toks| - 1]);
  }

  /** On the lexer's output the parser never raises IndexError. */
  lemma LexedNoIndexError(code: string, toks: seq<Token>)
    requires Lex(code) == Lexed(toks)
    ensures ParseProgram(toks, code) != Crashed(IndexError)
  {
    LexLossless(code, toks);
    ParseNoIndexError(toks, code);
  }

  /** When the tokens before EOF spell a derivation of `expr`, the parser
      returns its tree exactly when the source has a character to spare (a
      blank, or a word of more than one character); otherwise, as for `1+2`
      or `(a)*b`, the cursor becomes `None` on EOF and `expr` reads `.type`
      on it. */
  lemma LexedExpression(code: string, toks: seq<Token>, s: Syntax)
    requires Lex(code) == Lexed(toks) && Derives(s, 2)
    requires 0 < |toks| && toks[..|toks| - 1] == Spelling(s)
    ensures |toks| - 1 <= |code|
    ensures ParseProgram(toks, code) == if |toks| - 1 < |code| then Parsed(Tree(s), |toks| - 1) else Crashed(AttributeError)
  {
    var n := |toks| - 1;
    TokenCount(code, toks);
    LexLossless(code, toks);
    if n < |code| {
      ParseRoundTrip(toks, code, s, n);
    } else {
      TightSourceCrashes(toks, code, s, n);
    }
  }
}
