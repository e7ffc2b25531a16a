/** The lexer (`Lexer`, pysharp.py): one pass over the source, one character
    at a time, accumulating letters and digits into a pending word that a
    symbol or the end of input flushes as a token. */
module Lexing {
  import opened Lookups
  import opened Text
  import opened Diagnostics
  import opened Tokens

  /** What `tokenize` ends with: the token list, the `(msg, arrow)` pair of
      an invalid character, or the IndexError that `text[-1]` raises on an
      empty source. */
  datatype LexOutcome = Lexed(tokens: seq<Token>) | LexError(diag: Diagnostic) | LexCrash

  /** The message of an invalid character `c` met on line `lineno`. */
  function InvalidCharacter(c: char, lineno: int): string {
    "Invalid Character: '" + [c] + "', At line: " + IntString(lineno)
  }

  /** Appends the pending word, if any, as an INT/STRING/IDENTIFIER token. */
  function Flush(toks: seq<Token>, word: string, lineno: int): seq<Token> {
    if word == "" then toks else toks + [Token(WordType(word), word, lineno)]
  }

  /** The tokens after the valid character `c`: a symbol flushes the
      pending word and is appended as a token of its own. */
  function StepTokens(c: char, toks: seq<Token>, word: string, lineno: int): seq<Token>
    requires IsValidChar(c)
  {
    if IsSymbol(c) then Flush(toks, word, lineno) + [Token(SymbolKind(c), [c], lineno)] else toks
  }

  /** The pending word after `c`: a symbol empties it, a letter or digit
      extends it, whitespace leaves it as it is. */
  function StepWord(c: char, word: string): string {
    if IsSymbol(c) then "" else if IsAlphanumeral(c) then word + [c] else word
  }

  /** The line read so far after `c`: a newline starts a new one. */
  function StepLine(c: char, line: string): string {
    if c == '\n' then "" else line + [c]
  }

  /** The rest of the `tokenize` loop from index `i` of `text`, given the
      tokens so far, the pending word, the current line read so far and the
      line counter. */
  function LexFrom(text: string, i: nat, toks: seq<Token>, word: string, line: string, lineno: int): (r: LexOutcome)
    requires i <= |text|
    ensures !r.LexCrash?
    decreases |text| - i
  {
    if i == |text| then
      Lexed(Flush(toks, word, lineno) + [Token(EOF, "EOF", lineno)])
    else
      var c := text[i];
      if IsValidChar(c) then
        LexFrom(text, i + 1, StepTokens(c, toks, word, lineno), StepWord(c, word), StepLine(c, line),
                if c == '\n' then lineno + 1 else lineno)
      else
        LexError(Render(InvalidCharacter(c, lineno), line + [c], |line|, |line|))
  }

  /** One valid character: the loop moves on to the next index. */
  lemma LexFromStep(text: string, i: nat, toks: seq<Token>, word: string, line: string, lineno: int)
    requires i < |text| && IsValidChar(text[i])
    ensures var c := text[i];
      LexFrom(text, i, toks, word, line, lineno)
      == LexFrom(text, i + 1, StepTokens(c, toks, word, lineno), StepWord(c, word), StepLine(c, line),
                 if c == '\n' then lineno + 1 else lineno)
  {
  }

  /** The loop runs to the end exactly when every character left is valid. */
  lemma {:induction false} LexFromSucceeds(text: string, i: nat, toks: seq<Token>, word: string, line: string, lineno: int)
    requires i <= |text|
    ensures LexFrom(text, i, toks, word, line, lineno).Lexed? <==> forall k :: i <= k < |text| ==> IsValidChar(text[k])
    decreases |text| - i
  {
    if i < |text| && IsValidChar(text[i]) {
      var c := text[i];
      LexFromSucceeds(text, i + 1, StepTokens(c, toks, word, lineno), StepWord(c, word), StepLine(c, line),
                      if c == '\n' then lineno + 1 else lineno);
    }
  }

  /** `tokenize` called on a cursor at `p` with line counter `lineno`: the
      first `char()` reads `text[p]` (so `text[-1]` for a fresh lexer), and a
      cursor already at `None` skips the loop. */
  function Resume(text: string, p: Option<int>, lineno: int): (r: LexOutcome)
    requires p.Some? ==> -1 <= p.value < |text|
  {
    match p
    case None => Lexed([Token(EOF, "EOF", lineno)])
    case Some(k) =>
      if Index(text, p).OutOfRange? then LexCrash
      else LexFrom(text, k + 1, [], "", "", lineno)
  }

  /** `Lexer(code).tokenize()`: the cursor starts at -1 on line 1. */
  function Lex(code: string): (r: LexOutcome)
    ensures r.LexCrash? <==> |code| == 0
    ensures |code| > 0 ==> r == LexFrom(code, 0, [], "", "", 1)
  {
    Resume(code, Some(-1), 1)
  }

  /** Lexing succeeds exactly on a non-empty source made of letters, digits,
      the seven symbols and whitespace; it crashes exactly on the empty one. */
  lemma LexSucceeds(code: string)
    ensures Lex(code).Lexed? <==> |code| > 0 && forall k :: 0 <= k < |code| ==> IsValidChar(code[k])
  {
    LexFromSucceeds(code, 0, [], "", "", 1);
  }

  /** Every character of `text[start..i]` is valid, and the line counter
      has gone from `lineno0` to `lineno` by the newlines among them. */
  predicate ReadValid(text: string, start: nat, i: nat, lineno0: int, lineno: int)
    requires start <= i <= |text|
  {
    && (forall m :: start <= m < i ==> IsValidChar(text[m]))
    && lineno == lineno0 + CountNewlines(text[start..i])
  }

  /** A valid character extends the run by one. */
  lemma ReadValidStep(text: string, start: nat, i: nat, lineno0: int, lineno: int)
    requires start <= i < |text| && IsValidChar(text[i]) && ReadValid(text, start, i, lineno0, lineno)
    ensures ReadValid(text, start, i + 1, lineno0, if text[i] == '\n' then lineno + 1 else lineno)
  {
    NewlinesSnoc(text, start, i);
  }

  /** The index of `text` the loop reads next from a cursor at `p`. */
  function NextIndex(p: Option<int>, n: nat): int {
    if p.None? then n else p.value + 1
  }

  class Lexer {
    const code: string
    const position: Position
    var tokens: seq<Token>
    var currentToken: string
    var currentLine: string
    var posRelToLine: int

    constructor(code: string)
      ensures this.code == code && fresh(position)
      ensures position.text == code && position.position == Some(-1) && position.lineno == 1
    {
      this.code := code;
      position := new Position(1, -1, code, []);
      tokens := [];
      currentToken := "";
      currentLine := "";
      posRelToLine := -1;
    }

    /** The body of the `tokenize` loop for the character `ch` just read: it
        extends the current line, then skips a space or tab, starts a new
        line on a newline, flushes the pending word and appends the token on
        a symbol, extends the pending word on a letter or digit, and reports
        any other character under the line read so far. */
    method Consume(ch: char) returns (err: Option<Diagnostic>)
      requires posRelToLine == |currentLine| - 1
      modifies this, position
      ensures posRelToLine == |currentLine| - 1
      ensures position.position == old(position.position)
      ensures err.None? <==> IsValidChar(ch)
      ensures IsValidChar(ch) ==>
        && err.None?
        && tokens == StepTokens(ch, old(tokens), old(currentToken), old(position.lineno))
        && currentToken == StepWord(ch, old(currentToken))
        && currentLine == StepLine(ch, old(currentLine))
        && position.lineno == if ch == '\n' then old(position.lineno) + 1 else old(position.lineno)
      ensures !IsValidChar(ch) ==>
        err == Some(Render(InvalidCharacter(ch, old(position.lineno)), old(currentLine) + [ch], |old(currentLine)|, |old(currentLine)|))
      ensures !IsValidChar(ch) ==>
        && tokens == old(tokens) && currentToken == old(currentToken)
        && currentLine == old(currentLine) + [ch] && position.lineno == old(position.lineno)
    {
      currentLine := currentLine + [ch];
      posRelToLine := posRelToLine + 1;
      if ch == ' ' || ch == '\t' {
        return None;
      }
      if ch == '\n' {
        position.lineno := position.lineno + 1;
        currentLine := "";
        posRelToLine := -1;
        return None;
      }
      if IsSymbol(ch) {
        if currentToken != "" {
          tokens := tokens + [Token(WordType(currentToken), currentToken, position.lineno)];
          currentToken := "";
        }
        tokens := tokens + [Token(SymbolKind(ch), [ch], position.lineno)];
      } else if IsAlphanumeral(ch) {
        currentToken := currentToken + [ch];
      } else {
        var d := Point(InvalidCharacter(ch, position.lineno), currentLine, posRelToLine, posRelToLine);
        return Some(d);
      }
      return None;
    }

    /** One turn of the `tokenize` loop, on the way to the outcome `goal`,
        from a run of valid characters that began at `start` on line
        `lineno0`: advance, read the character under the cursor, and consume
        it unless the cursor has run off the text. On an invalid character
        the cursor stays on it, and the line counter, the tokens and the
        pending word stay as they were. */
    method Next(ghost goal: LexOutcome, ghost start: nat, ghost lineno0: int) returns (c: Lookup<char>, err: Option<Diagnostic>)
      requires position.text == code && position.position.Some? && -1 <= position.position.value < |code|
      requires posRelToLine == |currentLine| - 1
      requires LexFrom(code, position.position.value + 1, tokens, currentToken, currentLine, position.lineno) == goal
      requires start <= position.position.value + 1
      requires ReadValid(code, start, position.position.value + 1, lineno0, position.lineno)
      modifies this, position
      ensures c == Index(code, position.position) && !c.OutOfRange?
      ensures posRelToLine == |currentLine| - 1
      ensures c.NoValue? ==> LexFrom(code, |code|, tokens, currentToken, currentLine, position.lineno) == goal
      ensures c.NoValue? ==> ReadValid(code, start, |code|, lineno0, position.lineno)
      ensures c.Value? ==> position.position == Some(old(position.position).value + 1)
      ensures c.Value? && err.Some? ==> goal == LexError(err.value)
      ensures c.Value? && err.Some? ==>
        && !IsValidChar(c.value) && err.value.msg == InvalidCharacter(c.value, position.lineno)
        && ReadValid(code, start, position.position.value, lineno0, position.lineno)
        && tokens == old(tokens) && currentToken == old(currentToken)
        && currentLine == old(currentLine) + [c.value] && position.lineno == old(position.lineno)
        && |currentLine| > 0 && currentLine[|currentLine| - 1] == code[position.position.value]
      ensures c.Value? && err.None? ==>
        && position.position.value + 1 <= |code|
        && LexFrom(code, position.position.value + 1, tokens, currentToken, currentLine, position.lineno) == goal
        && ReadValid(code, start, position.position.value + 1, lineno0, position.lineno)
    {
      ghost var i := position.position.value + 1;
      position.Advance();
      c := position.Char();
      if c.NoValue? {
        return c, None;
      }
      assert position.position == Some(i) && c.value == code[i];
      ghost var toks, word, line, lineno := tokens, currentToken, currentLine, position.lineno;
      err := Consume(c.value);
      if err.None? {
        LexFromStep(code, i, toks, word, line, lineno);
        ReadValidStep(code, start, i, lineno0, lineno);
      }
    }

    /** The `while` loop of `tokenize`, from the character `c` under the
        cursor, on the way to the outcome `goal`. It ends with the cursor at
        `None` or on an invalid character; in the second case every
        character before it was valid, and the line counter has counted
        their newlines. */
    method Scan(c: Lookup<char>, ghost goal: LexOutcome, ghost start: nat, ghost lineno0: int) returns (err: Option<Diagnostic>)
      requires position.text == code
      requires start == NextIndex(position.position, |code|) && lineno0 == position.lineno
      requires position.position.Some? ==> -1 <= position.position.value < |code|
      requires c == Index(code, position.position) && !c.OutOfRange?
      requires posRelToLine == |currentLine| - 1
      requires LexFrom(code, NextIndex(position.position, |code|), tokens, currentToken, currentLine, position.lineno) == goal
      modifies this, position
      ensures err.None? ==> position.position.None?
      ensures err.None? ==> LexFrom(code, |code|, tokens, currentToken, currentLine, position.lineno) == goal
      ensures err.Some? ==>
        && goal == LexError(err.value) && position.position.Some?
        && var k := position.position.value;
        && start <= k < |code| && !IsValidChar(code[k])
        && ReadValid(code, start, k, lineno0, position.lineno)
        && err.value.msg == InvalidCharacter(code[k], position.lineno)
        && |currentLine| > 0 && currentLine[|currentLine| - 1] == code[k]
    {
      var c := c;
      while c.Value?
        invariant position.position.Some? ==> -1 <= position.position.value < |code|
        invariant c == Index(code, position.position) && !c.OutOfRange?
        invariant posRelToLine == |currentLine| - 1
        invariant 0 <= NextIndex(position.position, |code|) <= |code|
        invariant LexFrom(code, NextIndex(position.position, |code|), tokens, currentToken, currentLine, position.lineno) == goal
        invariant start <= NextIndex(position.position, |code|)
        invariant ReadValid(code, start, NextIndex(position.position, |code|), lineno0, position.lineno)
        decreases |code| - NextIndex(position.position, |code|)
      {
        c, err := Next(goal, start, lineno0);
        if c.NoValue? {
          break;
        }
        if err.Some? {
          return;
        }
      }
      return None;
    }

    /** `tokenize`. A run that succeeds leaves the cursor at `None`, so a
        second call returns only the EOF token, on the last line. A run that
        meets an invalid character leaves the cursor on it, after a run of
        valid characters whose newlines the line counter has counted, so a
        second call goes on from the character after it. */
    method Tokenize() returns (r: LexOutcome)
      requires position.text == code
      requires position.position.Some? ==> -1 <= position.position.value < |code|
      modifies this, position
      ensures r == Resume(code, old(position.position), old(position.lineno))
      ensures r.Lexed? ==> position.position.None? && tokens == r.tokens
      ensures r.Lexed? ==> |tokens| > 0 && tokens[|tokens| - 1] == Token(EOF, "EOF", position.lineno)
      ensures r.LexError? ==>
        && old(position.position).Some? && position.position.Some?
        && var k := position.position.value;
        && old(position.position).value < k < |code| && !IsValidChar(code[k])
        && ReadValid(code, old(position.position).value + 1, k, old(position.lineno), position.lineno)
        && r.diag.msg == InvalidCharacter(code[k], position.lineno)
        && |currentLine| > 0 && currentLine[|currentLine| - 1] == code[k]
    {
      ghost var goal := Resume(code, position.position, position.lineno);
      tokens := [];
      currentToken := "";
      currentLine := "";
      posRelToLine := -1;

      var c := position.Char();
      if c.OutOfRange? {
        return LexCrash;
      }
      var err := Scan(c, goal, NextIndex(position.position, |code|), position.lineno);
      if err.Some? {
        return LexError(err.value);
      }
      if currentToken != "" {
        tokens := tokens + [Token(WordType(currentToken), currentToken, position.lineno)];
      }
      tokens := tokens + [Token(EOF, "EOF", position.lineno)];
      return Lexed(tokens);
    }
  }
}
