# pysharp front end in Dafny

This project models the front end of pysharp, a small interpreted language
written in Python (`pysharp.py`). It covers three parts:

- **The lexer** (`Lexer.tokenize`, `Lexer.get_type`). It walks the source one
  character at a time with a `Position` cursor. Letters and digits build up a
  pending word. Each of `+ - / * ( ) =` becomes a one-character token and
  flushes the pending word. Spaces, tabs and newlines are skipped. Any other
  character is reported with a two-line diagnostic.
- **The diagnostic renderer** (`point`). It prints the offending line, then a
  row with `~` under a range of indices, padding every other index with a
  space (eight for a tab).
- **The recursive-descent parser** (`Parser.expr`, `term`, `factor`). It
  reads `expr := term (('+'|'-') term)*`, `term := factor (('*'|'/')
  factor)*`, `factor := ('+'|'-') factor | INT | STRING | IDENTIFIER | '('
  expr ')'` and builds `ValueNode` / `BinOp` trees. It stops at the first
  error.

Each part has two forms in the model:

- Pure functions (`Lexing.LexFrom`, `Diagnostics.Underline`,
  `Parsing.ParseFactor`/`ParseTerm`/`ParseExpr`) state what each step
  returns.
- The imperative originals (`Lexing.Lexer.Tokenize`, `Diagnostics.Point`,
  the `Parsing.Parser` class) mutate the same state as the Python objects and
  are proved to return exactly what those functions say.

The properties are proved on the functions. In the lexer:

- lexing is lossless up to whitespace;
- lexing fails exactly at the first invalid character, with the message
  and arrow the code builds.

In the parser:

- `parse` succeeds on a token list exactly when a prefix of it spells a
  derivation of the grammar below, followed by a token that is not an
  operator, and the text is longer than that prefix; it then returns that
  derivation's tree. Parentheses may be
  redundant, nested to any depth and spread over any lines. The grammar is
  unambiguous, so `*` and `/` bind tighter than `+` and `-`, and both
  groups nest to the left:

      factor ::= ('+'|'-') factor | INT | STRING | IDENTIFIER | '(' expr ')'
      term   ::= term ('*'|'/') factor | factor
      expr   ::= expr ('+'|'-') term | term

- trailing tokens are left unread;
- every syntax error is one of the two the code reports, at the index
  where it reports it;
- on the lexer's output the parser never raises IndexError.

Python's own behaviour is modelled explicitly where the code relies on it:

- **Negative indexing.** Both cursors start at -1. The lexer's first
  `char()` reads `text[-1]`, so an empty source raises IndexError
  (`LexCrash`).
- **The parser's cursor is bounded by the source text, not by the token
  list.** The index `|code|` stands for the cursor `None`. Reading `.type`
  on it is `Crashed(AttributeError)`. A cursor inside the text but past the
  tokens is `Crashed(IndexError)`.
- **`Parser.error` geometry.** Its line counter stays 0, so it draws under
  the last line of the source, padded with six spaces. It uses the token
  index as the starting column.

The lexer and parser are small, and the model keeps to what they do:

- the only symbols are `+-/*()=`;
- a word is made of ASCII letters and digits;
- `"`, `_` and `:` are invalid characters;
- no keyword is recognised;
- whitespace does not end a word, so `ab cd` lexes as the single identifier
  `abcd`.

## Model

| member | source | states |
|---|---|---|
| Lookups.Index | pysharp.py:32-39 | Python subscripting with a cursor that may be `None`: non-negative indices from the front, negative ones from the back, IndexError outside, and `None` passed through |
| Lookups.Step | pysharp.py:26-30 | `advance` moves to the next index exactly while it is inside the text, and becomes `None` otherwise |
| Tokens.Position.constructor | pysharp.py:20-24 | the cursor starts with the given line counter, index, text and tokens |
| Tokens.Position.Advance | pysharp.py:26-30 | the new cursor is the next index while it is inside the text, otherwise `None` |
| Tokens.SymbolKind | pysharp.py:103-116 | each of the seven symbol characters gets a symbol token type |
| Tokens.SymbolKindInjective | pysharp.py:103-116 | distinct symbol characters get distinct token types |
| Tokens.WordType | pysharp.py:129-135 | `get_type` always gives INT, STRING or IDENTIFIER |
| Tokens.WordTypeOfLexedWord | pysharp.py:129-135 | on a word of letters and digits, the type is INT exactly when the word is all digits, IDENTIFIER exactly when it is not, and never STRING |
| Text.LastLine | pysharp.py:172 | `split("\n")[-1]` is the suffix of the text after its last newline: it holds no newline, and it is either the whole text or preceded by a newline |
| Text.IntString | pysharp.py:120 | the f-string numeral of a line number is non-empty and all digits (with a leading `-` when negative) |
| Text.NatStringRoundTrip | pysharp.py:120 | the numeral written for a line number reads back as that number |
| Text.IntStringValue | pysharp.py:120 | the numeral the messages write for a non-negative line number reads back as that number |
| Diagnostics.Point | pysharp.py:44-57 | the loop builds `line + "\n"` followed by the mark of each index in turn, which is `Render` |
| Diagnostics.Blanks | pysharp.py:53-56 | the padding under characters outside the range is all spaces, one per character plus seven per tab |
| Diagnostics.UnderlineTildes | pysharp.py:49-52 | the arrow row holds exactly one `~` per index of the line inside `[startpos, endpos]` |
| Diagnostics.UnderlineAligned | pysharp.py:49-56 | on a line without tabs, the arrow row is as long as the line, with `~` exactly under the indices in the range and a space elsewhere |
| Diagnostics.UnderlineBeyond | pysharp.py:49-56 | a range starting after the end of the line leaves only padding |
| Diagnostics.UnderlineLength | pysharp.py:53-56 | the arrow row has one mark per character plus seven for each tab outside the range |
| Diagnostics.CaretAtEnd | pysharp.py:120 | the lexer's range (the last index of the line read so far) gives padding for the earlier characters and then a single `~` |
| Lexing.LexFrom | pysharp.py:83-127 | the loop from any step never raises: it ends with the token list or with the invalid-character diagnostic |
| Lexing.LexFromSucceeds | pysharp.py:83-127 | the loop runs to the end exactly when every remaining character is valid |
| Lexing.Lex | pysharp.py:71-127 | `Lexer(code).tokenize()` raises IndexError exactly on the empty source, and otherwise runs the loop from index 0 on line 1 |
| Lexing.LexSucceeds | pysharp.py:77-127 | lexing succeeds exactly on a non-empty source made of letters, digits, the seven symbols and whitespace |
| Lexing.Lexer.constructor | pysharp.py:69-75 | a fresh lexer's cursor is at -1 on line 1 |
| Lexing.Lexer.Consume | pysharp.py:88-120 | one loop turn: it reports no error exactly on a valid character; then the tokens, pending word, current line and line counter are those of one step of `LexFrom`, and the index into the line stays its length minus one; on any other character it returns the invalid-character diagnostic for the line read so far, with the character appended to the current line and the tokens, pending word and line counter unchanged |
| Lexing.Lexer.Next | pysharp.py:83-120 | one turn of the loop: the cursor moves one step; at `None` the loop is done with the state reached; on a valid character the new state leads to the same outcome and the run of valid characters grows by one, its newlines counted; on an invalid character the diagnostic is the outcome of the whole loop, the cursor stays on that character, and the line counter, tokens and pending word are unchanged |
| Lexing.Lexer.Scan | pysharp.py:83-120 | the `while` loop of `tokenize` ends with the cursor at `None` and the state that finishes the outcome, or on an invalid character that decides the outcome, after a run of valid characters whose newlines the line counter has counted |
| Lexing.Lexer.Tokenize | pysharp.py:77-127 | `tokenize` returns exactly `Resume` of the cursor and line counter it starts from; after a success the cursor is `None`, the lexer's token list is the one returned, and it ends with EOF on the final value of the line counter; after an invalid character the cursor stays on it, every character before it since the start was valid, the line counter has counted their newlines, the message names that character and line, and the line read so far ends with it |
| LexerProperties.LexFromValues | pysharp.py:83-127 | from any step, a successful loop ends with one EOF on the last line, and its other values are the emitted ones, the pending word and the rest of the text without whitespace |
| LexerProperties.LexFromEmitted | pysharp.py:90-125 | from any step, a successful loop keeps every token before EOF well lexed, line numbers non-decreasing and no two words adjacent |
| LexerProperties.LexValues | pysharp.py:122-125 | the values before EOF spell the source without whitespace, and EOF carries the value `"EOF"` and line 1 + the number of newlines |
| LexerProperties.LexLossless | pysharp.py:83-127 | a successful lexing is lossless up to whitespace; every token before EOF is a non-empty word or one symbol character typed by that character, never STRING or EOF; exactly one EOF ends the list; lines never decrease; no two words are adjacent |
| LexerProperties.WellLexedKinds | pysharp.py:98-123 | a token the loop emits has a value and is neither EOF nor STRING |
| LexerProperties.LexStopsAtInvalid | pysharp.py:119-120 | lexing stops at the first invalid character, with the line counter at 1 + the newlines before it |
| LexerProperties.LexInvalidCharacter | pysharp.py:81-120 | the first invalid character `c` gives `Invalid Character: 'c', At line: n`, and an arrow repeating its line up to and including `c` with a single `~` under `c` |
| LexerProperties.BlanksJoinWords | pysharp.py:88-118 | a run of letters, digits, spaces and tabs extends the pending word with its letters and digits and emits nothing, so whitespace never separates words |
| Parsing.Look | pysharp.py:36-39 | `current_token` at cursor `i`: `None` exactly at the end of the text, IndexError exactly inside the text but past the tokens, otherwise the token at `i` |
| Parsing.ParseFactor | pysharp.py:180-215 | on success `factor` builds a well-formed node and leaves the cursor further on, at a position that does not raise |
| Parsing.MoreFactors | pysharp.py:222-233 | `term`'s loop stops on a token that is not `*` or `/` and keeps the node well formed |
| Parsing.ParseTerm | pysharp.py:217-233 | on success `term` stops on a token that is not `*` or `/`, with a well-formed node |
| Parsing.MoreTerms | pysharp.py:240-251 | `expr`'s loop stops on a token that is not `+` or `-` and keeps the node well formed |
| Parsing.ParseExpr | pysharp.py:235-251 | on success `expr` stops on a token that is none of the four operators, with a well-formed node |
| Parsing.ParseProgram | pysharp.py:156-169 | `Parser(tokens, code).parse()` stops strictly inside the text on success |
| Parsing.SplitLines | pysharp.py:172 | `code.split("\n")` has one piece per newline plus one, none holding a newline, the last one being the last line; joining the pieces with newlines gives the text back |
| Parsing.Parser.constructor | pysharp.py:156-160 | a new parser's first `advance` puts the cursor on token 0 (or `None` on an empty source), with the line counter at 0 |
| Parsing.Parser.Advance | pysharp.py:162-165 | `advance` succeeds exactly when the next token lookup does not raise, and then moves the cursor by one |
| Parsing.Parser.Error | pysharp.py:171-178 | `error` returns the diagnostic `ErrorAt` of the current token index: the last line, padded, with `~` from that index to six past it |
| Parsing.Parser.Factor | pysharp.py:180-215 | `factor` returns exactly `ParseFactor` of the cursor, and leaves the cursor at the node's end |
| Parsing.Parser.SignedFactor | pysharp.py:184-191 | the sign branch of `factor` returns exactly `ParseFactor` of the cursor: the sign wrapped around the factor after it, or that factor's error |
| Parsing.Parser.MulOperand | pysharp.py:223-231 | one turn of `term`'s loop on `*` or `/`: on success the loop's outcome from the old cursor is its outcome from the new one with the operand folded in on the right; on failure the turn's result is the loop's |
| Parsing.Parser.AddOperand | pysharp.py:241-249 | the same turn for `expr`'s loop on `+` or `-` |
| Parsing.Parser.Parenthesised | pysharp.py:202-212 | the `(` branch of `factor` returns exactly `ParseFactor` of the cursor |
| Parsing.Parser.Term | pysharp.py:217-233 | `term` returns exactly `ParseTerm` of the cursor; the loop keeps `MoreFactors` of the cursor equal to it |
| Parsing.Parser.Expr | pysharp.py:235-251 | `expr` returns exactly `ParseExpr` of the cursor; the loop keeps `MoreTerms` of the cursor equal to it |
| Parsing.Parser.Parse | pysharp.py:167-169 | `parse` returns exactly `ParseExpr` of the cursor, and after a success leaves the parser valid with its cursor on the token after the expression |
| Parsing.ParseTokens | pysharp.py:156-169 | constructing a parser and calling `parse` gives `ParseProgram`, including the constructor's IndexError on an empty token list |
| Grammar.DerivesWellFormed | pysharp.py:180-251 | every derivation of the grammar builds a node the parser can build |
| Grammar.PrintDerives | pysharp.py:180-251 | every node the parser can build has a derivation at every grammar level, with parentheses only where precedence needs them, and that derivation builds the node back |
| ParserProperties.FactorRoundTrip | pysharp.py:180-215 | `factor` reads exactly the tokens of any derivation of `factor` (a sign, a word, or `(` expression `)` with redundant parentheses allowed) and builds its tree, whatever follows |
| ParserProperties.FactorSignCase | pysharp.py:184-191 | on a sign followed by the tokens of a derivation of `factor`, `factor` returns `Unary` of the sign and that derivation's tree |
| ParserProperties.FactorParenCase | pysharp.py:202-213 | on `(`, the tokens of a derivation of `expr` and `)`, `factor` returns the inner tree, with no trace of the parentheses |
| ParserProperties.TermPrefix | pysharp.py:217-233 | `term` reads the tokens of any derivation of `term` and reaches its loop right after them, holding that derivation's tree |
| ParserProperties.TermProductCase | pysharp.py:223-231 | after a derivation of `term`, `*` or `/` and a derivation of `factor`, `term`'s loop holds the `BinOp` of the two trees, left operand first |
| ParserProperties.ExprPrefix | pysharp.py:235-251 | `expr` reads the tokens of any derivation of `expr` and reaches its loop right after them, holding that derivation's tree |
| ParserProperties.ExprSumCase | pysharp.py:241-249 | after a derivation of `expr`, `+` or `-` and a derivation of `term`, `expr`'s loop holds the `BinOp` of the two trees |
| ParserProperties.ExprRoundTrip | pysharp.py:235-251 | `expr` returns exactly the tree of a derivation of `expr` when the token after its tokens is not an operator |
| ParserProperties.ParseRoundTrip | pysharp.py:167-169 | `parse` returns the tree of a derivation of `expr` spelled by the first tokens, when a non-operator token follows it and the text is longer than those tokens; later tokens are left unread |
| ParserProperties.TightSourceCrashes | pysharp.py:240-241 | when the text is exactly as long as the tokens of a derivation, the cursor is `None` after them and `expr` raises AttributeError |
| ParserProperties.FactorReads | pysharp.py:180-215 | conversely, whatever `factor` parses is a derivation of `factor`: the tokens it reads spell one, and the node is its tree |
| ParserProperties.SignReads | pysharp.py:184-191 | the sign case of `FactorReads` |
| ParserProperties.GroupReads | pysharp.py:202-213 | the parenthesised case of `FactorReads` |
| ParserProperties.MoreFactorsReads | pysharp.py:223-233 | what `term`'s loop adds to a derivation of `term` is again a derivation of `term`, spelled by all the tokens read |
| ParserProperties.TermReads | pysharp.py:217-233 | whatever `term` parses is a derivation of `term` |
| ParserProperties.MoreTermsReads | pysharp.py:241-251 | what `expr`'s loop adds to a derivation of `expr` is again a derivation of `expr` |
| ParserProperties.ExprReads | pysharp.py:235-251 | whatever `expr` parses is a derivation of `expr` |
| ParserProperties.ParseReads | pysharp.py:167-169 | whatever `parse` returns is the tree of a derivation spelled by the tokens before the final cursor |
| ParserProperties.ParseExactly | pysharp.py:156-169 | `parse` returns `e` with the cursor at `n` if and only if `n` is inside the text, the token at `n` is not an operator, and the first `n` tokens spell a derivation of `expr` whose tree is `e` |
| ParserProperties.SpellingDeterminesTree | pysharp.py:217-251 | the grammar is unambiguous: two derivations of `expr` with the same tokens build the same tree |
| ParserProperties.PrintInjective | pysharp.py:217-251 | two well-formed trees printed with the fewest parentheses give different tokens, so the parser loses nothing a tree holds |
| ParserProperties.ThreeOperands | pysharp.py:217-251 | `a o1 b o2 c` nests to the right only when `o1` is `+`/`-` and `o2` is `*`/`/`, and to the left otherwise (`a-b-c` is `(a-b)-c`) |
| ParserProperties.LeadingNonValue | pysharp.py:213-215 | a source whose first token cannot start a factor fails at index 0 with that message |
| ParserProperties.DanglingOperator | pysharp.py:213-215 | an operator after a derivation at its own level, followed by a token that cannot start a factor, fails at that token's index with `Expected value` |
| ParserProperties.UnclosedParen | pysharp.py:209-210 | a `(` opening the token list, a derivation of `expr`, then a token that is neither `)` nor an operator gives `Expected ')'` at that token's index with the line of the `(` |
| ParserProperties.FactorNoIndexError | pysharp.py:180-215 | on a token list ending with EOF, `factor` never raises IndexError from a cursor that is not past the tokens |
| ParserProperties.MoreFactorsNoIndexError | pysharp.py:222-233 | the same for `term`'s loop |
| ParserProperties.TermNoIndexError | pysharp.py:217-233 | the same for `term` |
| ParserProperties.MoreTermsNoIndexError | pysharp.py:240-251 | the same for `expr`'s loop |
| ParserProperties.ExprNoIndexError | pysharp.py:235-251 | the same for `expr` |
| ParserProperties.ParseNoIndexError | pysharp.py:156-169 | on a token list ending with EOF, `parse` never raises IndexError |
| ParserProperties.FactorErrors | pysharp.py:180-215 | every syntax error out of `factor` is `Expected value` at a token that cannot start a factor, or `Expected ')'` at a token after a `(` that is neither `)` nor an operator, with the lines those messages name |
| ParserProperties.MoreFactorsErrors | pysharp.py:223-233 | the same for `term`'s loop |
| ParserProperties.TermErrors | pysharp.py:217-233 | the same for `term` |
| ParserProperties.MoreTermsErrors | pysharp.py:241-251 | the same for `expr`'s loop |
| ParserProperties.ExprErrors | pysharp.py:235-251 | the same for `expr` |
| ParserProperties.ParseErrors | pysharp.py:167-178 | every syntax error `parse` returns is one of those two, reported at an index inside the text and the token list |
| ParserProperties.ErrorMarks | pysharp.py:171-178 | `error` keeps the message and draws its arrow under the padded last line; the row holds seven `~` when the range fits, fewer when it runs off the end, and none (only padding) when the token index is past the line |
| FrontEnd.TokenCount | pysharp.py:83-127 | the lexer emits at most one token per character that is not blank, plus EOF |
| FrontEnd.LexedNoIndexError | pysharp.py:36-39 | on the lexer's output the parser never raises IndexError |
| FrontEnd.LexedExpression | pysharp.py:156-169 | when the lexer's tokens spell one expression, `parse` returns it exactly when the text is longer than those tokens, and raises AttributeError otherwise (`1+2`) |

## Left out

- `display_error` (pysharp.py:41-42) prints to the console. Console I/O is not modelled.
- The test script (pysharp.py:253-269) runs on import, prints, exits, and calls `execute_node`, which this code never defines. There is no evaluator to model.
- The `__repr__` methods only format values for debugging.
- The unused `os`/`argparse` imports are not modelled.
- The `isinstance(startpos, Position)` branch of `point` is left out. Every caller passes integers.
- `Position.advance` from a `None` cursor would raise TypeError. No caller reaches it: the lexer's loop stops on `None`, and the parser advances only from a token it has just read. `Tokens.Position.Advance` therefore requires a cursor.
- `ValueNode` keeps its token twice (`tk` and `value`) and an unused `op` for leaves. The model keeps one copy. The `Unary` variant holds the sign and the operand node, as `ValueNode(factor, "Unary", op_token)` does.
- `Token`'s default arguments (`value=None`, `lineno=0`) are not modelled. Every call in the code passes all three.
- Line numbers are unbounded integers, as Python's are.
- `Parsing.Parser` methods state the parser's state after a success only. After an error or an exception the Python parser is abandoned, so its cursor is not described.
- Python's recursion limit is not modelled. CPython raises RecursionError after about a thousand nested calls, so a few hundred nested `(` or about a thousand stacked signs crash the Python parser. The model's recursion depth is unbounded, so `ParseFactor`, `ParseExpr`, the `Parser` methods and the round-trip lemmas give a result where CPython would raise.
- Lexing.Lexer.Tokenize, Lexing.Lexer.Scan: after an invalid character, the token list and pending word the lexer holds are not stated; the cursor, line counter and line read so far are.
- Text.IntStringValue: covers non-negative numbers only. The lexer's line counter starts at 1 and only grows, so no message names a negative line.
