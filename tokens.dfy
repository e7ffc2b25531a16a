/** Tokens and the `Position` cursor that both the lexer (over characters)
    and the parser (over tokens) walk with. */
module Tokens {
  import opened Lookups
  import opened Text

  /** The `TT_*` token types. */
  datatype TokenKind = INT | STRING | IDENTIFIER | PLUS | MINUS | MUL | DIV | LPAREN | RPAREN | EQUALS | EOF

  /** `Token(type, value, lineno)`. */
  datatype Token = Token(kind: TokenKind, value: string, lineno: int)

  predicate IsWordKind(k: TokenKind) {
    k == INT || k == STRING || k == IDENTIFIER
  }

  predicate IsSymbolKind(k: TokenKind) {
    k == PLUS || k == MINUS || k == MUL || k == DIV || k == LPAREN || k == RPAREN || k == EQUALS
  }

  /** The type the lexer's `if/elif` chain gives a one-character symbol token. */
  function SymbolKind(c: char): (k: TokenKind)
    requires IsSymbol(c)
    ensures IsSymbolKind(k)
  {
    if c == '+' then PLUS
    else if c == '-' then MINUS
    else if c == '*' then MUL
    else if c == '/' then DIV
    else if c == '(' then LPAREN
    else if c == ')' then RPAREN
    else EQUALS
  }

  /** Each symbol character has a type of its own. */
  lemma SymbolKindInjective(c: char, d: char)
    requires IsSymbol(c) && IsSymbol(d) && SymbolKind(c) == SymbolKind(d)
    ensures c == d
  {
  }

  /** `Lexer.get_type` on the pending word: INT when `isdigit()` holds, STRING
      when the word ends in a double quote, IDENTIFIER otherwise. */
  function WordType(word: string): (k: TokenKind)
    requires |word| > 0
    ensures IsWordKind(k)
  {
    if IsDigits(word) then INT
    else if word[|word| - 1] == '"' then STRING
    else IDENTIFIER
  }

  /** On the words the lexer can accumulate (letters and digits only) the
      type is INT exactly when every character is a digit and IDENTIFIER
      otherwise; STRING cannot come out. */
  lemma WordTypeOfLexedWord(word: string)
    requires |word| > 0 && AllAlphanumeral(word)
    ensures WordType(word) == INT <==> IsDigits(word)
    ensures WordType(word) == IDENTIFIER <==> !IsDigits(word)
    ensures WordType(word) != STRING
  {
    assert IsAlphanumeral(word[|word| - 1]);
  }

  /** `Position`: a cursor over `text` (the lexer) or over `tokens` (the
      parser), with the line counter the lexer maintains. `position` is
      `None` once the cursor has run past the end of `text`. */
  class Position {
    const tokens: seq<Token>
    const text: string
    var position: Option<int>
    var lineno: int

    constructor(lineno: int, position: int, text: string, tokens: seq<Token>)
      ensures this.lineno == lineno && this.position == Some(position)
      ensures this.text == text && this.tokens == tokens
    {
      this.tokens := tokens;
      this.text := text;
      this.position := Some(position);
      this.lineno := lineno;
    }

    /** `advance`: move one step while inside `text`, else become `None`.
        Advancing from `None` raises in the source; no caller does it. */
    method Advance()
      requires position.Some?
      modifies this`position
      ensures position == Step(|text|, old(position).value)
    {
      if position.value + 1 < |text| {
        position := Some(position.value + 1);
        return;
      }
      position := None;
    }

    /** `char`: the character under the cursor, Python indexing. */
    function Char(): Lookup<char>
      reads this`position
    {
      Index(text, position)
    }

    /** `token`: the token under the cursor, Python indexing. */
    function CurrentToken(): Lookup<Token>
      reads this`position
    {
      Index(tokens, position)
    }
  }
}
