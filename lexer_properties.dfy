/** What the lexer guarantees about the token lists and diagnostics it
    produces, proved about `Lexing.Lex`. */
module LexerProperties {
  import opened Lookups
  import opened Text
  import opened Diagnostics
  import opened Tokens
  import opened Lexing

  /** The values of `toks`, concatenated in order. */
  function Values(toks: seq<Token>): string
    decreases |toks|
  {
    if toks == [] then "" else Values(toks[..|toks| - 1]) + toks[|toks| - 1].value
  }

  /** A token the lexer can emit before `EOF`: a single symbol character with
      the type that character selects, or a non-empty run of letters and
      digits typed by `get_type`. */
  predicate WellLexed(t: Token) {
    || (|t.value| == 1 && IsSymbol(t.value[0]) && t.kind == SymbolKind(t.value[0]))
    || (|t.value| > 0 && AllAlphanumeral(t.value) && t.kind == WordType(t.value))
  }

  predicate LinesNondecreasing(toks: seq<Token>) {
    forall j, k :: 0 <= j < k < |toks| ==> toks[j].lineno <= toks[k].lineno
  }

  predicate NoAdjacentWords(toks: seq<Token>) {
    forall k :: 0 <= k < |toks| - 1 ==> !(IsWordKind(toks[k].kind) && IsWordKind(toks[k + 1].kind))
  }

  /** What holds of the tokens emitted so far at every step of the loop:
      each is well lexed and no later than the current line, and the last one
      is a symbol, since a word is only flushed right before a symbol. */
  predicate Emitted(toks: seq<Token>, lineno: int) {
    && (forall k :: 0 <= k < |toks| ==> WellLexed(toks[k]) && toks[k].lineno <= lineno)
    && LinesNondecreasing(toks)
    && NoAdjacentWords(toks)
    && (|toks| > 0 ==> IsSymbolKind(toks[|toks| - 1].kind))
  }

  /** The list handed back at the end of input: the flushed word, then
      `EOF` on the last line. */
  lemma FinishEmitted(toks: seq<Token>, word: string, lineno: int)
    requires Emitted(toks, lineno) && AllAlphanumeral(word)
    ensures var out := Flush(toks, word, lineno) + [Token(EOF, "EOF", lineno)];
      && (forall k :: 0 <= k < |out| - 1 ==> WellLexed(out[k]))
      && LinesNondecreasing(out) && NoAdjacentWords(out[..|out| - 1])
  {
    FlushEmitted(toks, word, lineno);
    var flushed := Flush(toks, word, lineno);
    var out := flushed + [Token(EOF, "EOF", lineno)];
    assert out[..|out| - 1] == flushed;
    forall j, k | 0 <= j < k < |out|
      ensures out[j].lineno <= out[k].lineno
    {
      assert out[j] == flushed[j];
      if k < |flushed| {
        assert out[k] == flushed[k];
      }
    }
  }

  /** Appending one well-lexed token on the current line keeps the
      emitted-token invariants, and its value extends the values. */
  lemma AppendToken(toks: seq<Token>, t: Token, lineno: int)
    requires forall k :: 0 <= k < |toks| ==> WellLexed(toks[k]) && toks[k].lineno <= lineno
    requires LinesNondecreasing(toks) && NoAdjacentWords(toks)
    requires WellLexed(t) && t.lineno == lineno
    requires |toks| > 0 && IsWordKind(t.kind) ==> !IsWordKind(toks[|toks| - 1].kind)
    ensures var out := toks + [t];
      && (forall k :: 0 <= k < |out| ==> WellLexed(out[k]) && out[k].lineno <= lineno)
      && LinesNondecreasing(out) && NoAdjacentWords(out)
      && Values(out) == Values(toks) + t.value
  {
    var out := toks + [t];
    assert out[..|out| - 1] == toks;
    forall k | 0 <= k < |out|
      ensures WellLexed(out[k]) && out[k].lineno <= lineno
    {
      if k < |toks| {
        assert out[k] == toks[k];
      }
    }
    forall j, k | 0 <= j < k < |out|
      ensures out[j].lineno <= out[k].lineno
    {
      if k < |toks| {
        assert out[j] == toks[j] && out[k] == toks[k];
      } else {
        assert out[j] == toks[j];
      }
    }
    forall k | 0 <= k < |out| - 1
      ensures !(IsWordKind(out[k].kind) && IsWordKind(out[k + 1].kind))
    {
      if k + 1 < |toks| {
        assert out[k] == toks[k] && out[k + 1] == toks[k + 1];
      } else {
        assert out[k] == toks[|toks| - 1] && out[k + 1] == t;
      }
    }
  }

  lemma FlushValues(toks: seq<Token>, word: string, lineno: int)
    ensures Values(Flush(toks, word, lineno)) == Values(toks) + word
  {
    if word != "" {
      var out := toks + [Token(WordType(word), word, lineno)];
      assert out[..|out| - 1] == toks;
    }
  }

  lemma FlushEmitted(toks: seq<Token>, word: string, lineno: int)
    requires Emitted(toks, lineno) && AllAlphanumeral(word)
    ensures var out := Flush(toks, word, lineno);
      && (forall k :: 0 <= k < |out| ==> WellLexed(out[k]) && out[k].lineno <= lineno)
      && LinesNondecreasing(out) && NoAdjacentWords(out)
  {
    if word == "" {
      assert Flush(toks, word, lineno) == toks;
    } else {
      var t := Token(WordType(word), word, lineno);
      assert IsWordKind(t.kind) && WellLexed(t);
      AppendToken(toks, t, lineno);
      assert Flush(toks, word, lineno) == toks + [t];
    }
  }

  lemma StepValues(c: char, toks: seq<Token>, word: string, lineno: int)
    requires IsValidChar(c)
    ensures Values(StepTokens(c, toks, word, lineno)) + StepWord(c, word) == Values(toks) + word + Compact([c])
  {
    CompactSingleton(c);
    if IsSymbol(c) {
      SymbolValues(c, toks, word, lineno);
      assert StepWord(c, word) == "";
    } else if IsAlphanumeral(c) {
      assert StepTokens(c, toks, word, lineno) == toks && StepWord(c, word) == word + [c];
      AppendAssoc(Values(toks), word, [c]);
    } else {
      assert StepTokens(c, toks, word, lineno) == toks && StepWord(c, word) == word;
    }
  }

  lemma SymbolValues(c: char, toks: seq<Token>, word: string, lineno: int)
    requires IsSymbol(c)
    ensures Values(Flush(toks, word, lineno) + [Token(SymbolKind(c), [c], lineno)]) == Values(toks) + word + [c]
  {
    FlushValues(toks, word, lineno);
    var flushed := Flush(toks, word, lineno);
    var out := flushed + [Token(SymbolKind(c), [c], lineno)];
    assert out[..|out| - 1] == flushed;
  }

  lemma StepKeepsEmitted(c: char, toks: seq<Token>, word: string, lineno: int)
    requires IsValidChar(c) && Emitted(toks, lineno) && AllAlphanumeral(word)
    ensures Emitted(StepTokens(c, toks, word, lineno), lineno + CountNewlines([c]))
    ensures AllAlphanumeral(StepWord(c, word))
  {
    OccurrencesSingleton(c, '\n');
    if IsSymbol(c) {
      FlushEmitted(toks, word, lineno);
      var t := Token(SymbolKind(c), [c], lineno);
      assert !IsWordKind(t.kind);
      AppendToken(Flush(toks, word, lineno), t, lineno);
    }
  }

  /** The loop's successful runs, from any step: the result ends with one
      EOF on the last line, and its other values are those emitted so far,
      the pending word and the rest of the text without whitespace. */
  lemma {:induction false} LexFromValues(text: string, i: nat, toks: seq<Token>, word: string, line: string, lineno: int, out: seq<Token>)
    requires i <= |text|
    requires LexFrom(text, i, toks, word, line, lineno) == Lexed(out)
    ensures |out| > 0
    ensures out[|out| - 1] == Token(EOF, "EOF", lineno + CountNewlines(text[i..]))
    ensures Values(out[..|out| - 1]) == Values(toks) + word + Compact(text[i..])
    decreases |text| - i
  {
    if i == |text| {
      FlushValues(toks, word, lineno);
      var flushed := Flush(toks, word, lineno);
      assert out == flushed + [Token(EOF, "EOF", lineno)] && out[..|out| - 1] == flushed;
      assert text[i..] == [];
      assert Values(toks) + word + [] == Values(toks) + word;
    } else {
      var c := text[i];
      assert IsValidChar(c);
      var toks', word', line' := StepTokens(c, toks, word, lineno), StepWord(c, word), StepLine(c, line);
      var lineno' := if c == '\n' then lineno + 1 else lineno;
      var rest := text[i + 1..];
      LexFromStep(text, i, toks, word, line, lineno);
      assert |out| > 0 && out[|out| - 1] == Token(EOF, "EOF", lineno' + CountNewlines(rest))
          && Values(out[..|out| - 1]) == Values(toks') + word' + Compact(rest) by {
        LexFromValues(text, i + 1, toks', word', line', lineno', out);
      }
      assert text[i..] == [c] + rest;
      assert lineno' + CountNewlines(rest) == lineno + CountNewlines(text[i..]) by {
        OccurrencesSingleton(c, '\n');
        OccurrencesAppend([c], rest, '\n');
      }
      assert Values(toks') + word' + Compact(rest) == Values(toks) + word + Compact(text[i..]) by {
        CompactAppend([c], rest);
        StepValues(c, toks, word, lineno);
        AppendAssoc(Values(toks) + word, Compact([c]), Compact(rest));
      }
    }
  }

  /** The loop's successful runs keep the emitted-token invariants to the
      end: every token before EOF is well lexed, line numbers never
      decrease, and no two words are adjacent. */
  lemma {:induction false} LexFromEmitted(text: string, i: nat, toks: seq<Token>, word: string, line: string, lineno: int, out: seq<Token>)
    requires i <= |text|
    requires LexFrom(text, i, toks, word, line, lineno) == Lexed(out)
    requires Emitted(toks, lineno) && AllAlphanumeral(word)
    ensures |out| > 0
    ensures forall k :: 0 <= k < |out| - 1 ==> WellLexed(out[k])
    ensures LinesNondecreasing(out) && NoAdjacentWords(out[..|out| - 1])
    decreases |text| - i
  {
    if i == |text| {
      FinishEmitted(toks, word, lineno);
    } else {
      var c := text[i];
      assert IsValidChar(c);
      var toks', word', line' := StepTokens(c, toks, word, lineno), StepWord(c, word), StepLine(c, line);
      var lineno' := if c == '\n' then lineno + 1 else lineno;
      LexFromStep(text, i, toks, word, line, lineno);
      assert Emitted(toks', lineno') && AllAlphanumeral(word') by {
        OccurrencesSingleton(c, '\n');
        StepKeepsEmitted(c, toks, word, lineno);
      }
      LexFromEmitted(text, i + 1, toks', word', line', lineno', out);
    }
  }

  /** The values of the tokens before `EOF` spell out the source without
      its whitespace, and `EOF` carries the line count. */
  lemma LexValues(code: string, toks: seq<Token>)
    requires LexFrom(code, 0, [], "", "", 1) == Lexed(toks)
    ensures |toks| > 0
    ensures toks[|toks| - 1] == Token(EOF, "EOF", 1 + CountNewlines(code))
    ensures Values(toks[..|toks| - 1]) == Compact(code)
  {
    assert code[0..] == code;
    LexFromValues(code, 0, [], "", "", 1, toks);
    assert Values([]) == "";
  }

  /** A successful lexing is lossless up to whitespace: the values of the
      tokens before EOF spell the source without its spaces, tabs and
      newlines; each is a non-empty word or a single symbol typed by its
      character, never STRING and never EOF; exactly one EOF ends the list,
      on line 1 + the number of newlines; line numbers never decrease; and
      since whitespace does not flush a word, no two words are adjacent. */
  lemma LexLossless(code: string, toks: seq<Token>)
    requires Lex(code) == Lexed(toks)
    ensures |toks| > 0
    ensures toks[|toks| - 1] == Token(EOF, "EOF", 1 + CountNewlines(code))
    ensures Values(toks[..|toks| - 1]) == Compact(code)
    ensures forall k :: 0 <= k < |toks| - 1 ==>
      WellLexed(toks[k]) && |toks[k].value| > 0 && toks[k].kind != EOF && toks[k].kind != STRING
    ensures LinesNondecreasing(toks)
    ensures NoAdjacentWords(toks[..|toks| - 1])
  {
    assert LexFrom(code, 0, [], "", "", 1) == Lexed(toks);
    LexValues(code, toks);
    LexFromEmitted(code, 0, [], "", "", 1, toks);
    WellLexedKinds(toks[..|toks| - 1]);
  }

  /** A well-lexed token has a value and is neither EOF nor STRING. */
  lemma WellLexedKinds(toks: seq<Token>)
    requires forall k :: 0 <= k < |toks| ==> WellLexed(toks[k])
    ensures forall k :: 0 <= k < |toks| ==> |toks[k].value| > 0 && toks[k].kind != EOF && toks[k].kind != STRING
  {
    forall k | 0 <= k < |toks|
      ensures toks[k].kind != EOF && toks[k].kind != STRING
    {
      if !IsSymbol(toks[k].value[0]) || |toks[k].value| != 1 {
        WordTypeOfLexedWord(toks[k].value);
      }
    }
  }

  /** The error the lexer reports for the invalid character `text[j]` when
      its line counter reads `n`. */
  function InvalidAt(text: string, j: nat, n: int): LexOutcome
    requires j < |text|
  {
    var start := LineStart(text, j);
    LexError(Render(InvalidCharacter(text[j], n), text[start..j + 1], j - start, j - start))
  }

  /** The line read so far stays `text[LineStart(text, i)..i]` across a step. */
  lemma LineStep(text: string, i: nat, line: string)
    requires i < |text| && line == text[LineStart(text, i)..i]
    ensures StepLine(text[i], line) == text[LineStart(text, i + 1)..i + 1]
  {
    if text[i] != '\n' {
      var start := LineStart(text, i);
      assert text[start..i + 1] == text[start..i] + [text[i]];
    }
  }

  lemma NewlinesStep(text: string, i: nat, j: nat)
    requires i < j <= |text|
    ensures CountNewlines(text[i..j]) == CountNewlines([text[i]]) + CountNewlines(text[i + 1..j])
  {
    assert text[i..j] == [text[i]] + text[i + 1..j];
    OccurrencesAppend([text[i]], text[i + 1..j], '\n');
  }

  lemma SliceSnoc(s: string, a: nat, b: nat)
    requires a <= b < |s|
    ensures s[a..b + 1] == s[a..b] + [s[b]]
  {
  }

  /** The loop on the invalid character itself. */
  lemma InvalidHere(text: string, j: nat, toks: seq<Token>, word: string, lineno: int)
    requires j < |text| && !IsValidChar(text[j])
    ensures LexFrom(text, j, toks, word, text[LineStart(text, j)..j], lineno) == InvalidAt(text, j, lineno)
  {
    SliceSnoc(text, LineStart(text, j), j);
  }

  /** The loop over valid characters from `i` to `j`: it reaches `j` with
      the line read so far being the text from the start of `j`'s line, and
      the line counter advanced by the newlines passed. */
  lemma {:induction false} RunToInvalid(text: string, i: nat, toks: seq<Token>, word: string, line: string, lineno: int,
                                        j: nat, jline: string, n: int)
    returns (toks': seq<Token>, word': string)
    requires i <= j < |text|
    requires forall k :: i <= k < j ==> IsValidChar(text[k])
    requires line == text[LineStart(text, i)..i] && jline == text[LineStart(text, j)..j]
    requires n == lineno + CountNewlines(text[i..j])
    ensures LexFrom(text, i, toks, word, line, lineno) == LexFrom(text, j, toks', word', jline, n)
    decreases j - i
  {
    if i == j {
      assert text[i..j] == [];
      toks', word' := toks, word;
    } else {
      var c := text[i];
      var lineno' := if c == '\n' then lineno + 1 else lineno;
      LexFromStep(text, i, toks, word, line, lineno);
      assert n == lineno' + CountNewlines(text[i + 1..j]) by {
        OccurrencesSingleton(c, '\n');
        NewlinesStep(text, i, j);
      }
      LineStep(text, i, line);
      toks', word' := RunToInvalid(text, i + 1, StepTokens(c, toks, word, lineno), StepWord(c, word), StepLine(c, line), lineno', j, jline, n);
    }
  }

  /** Lexing stops at the first invalid character `code[j]`, whose line
      counter reads 1 + the newlines before it. */
  lemma LexStopsAtInvalid(code: string, j: nat)
    requires j < |code| && !IsValidChar(code[j])
    requires forall k :: 0 <= k < j ==> IsValidChar(code[k])
    ensures Lex(code) == InvalidAt(code, j, 1 + CountNewlines(code[..j]))
  {
    assert code[0..j] == code[..j];
    assert code[LineStart(code, 0)..0] == "";
    var toks, word := RunToInvalid(code, 0, [], "", "", 1, j, code[LineStart(code, j)..j], 1 + CountNewlines(code[..j]));
    InvalidHere(code, j, toks, word, 1 + CountNewlines(code[..j]));
  }

  /** An invalid character `code[j]` (the first one) makes the lexer fail
      with `Invalid Character: 'c', At line: n`, n being 1 + the newlines
      before it; the arrow repeats the line up to and including that
      character and puts a single `~` under it, after one space per earlier
      character (eight for a tab). */
  lemma LexInvalidCharacter(code: string, j: nat)
    requires j < |code| && !IsValidChar(code[j])
    requires forall k :: 0 <= k < j ==> IsValidChar(code[k])
    ensures var line := code[LineStart(code, j)..j + 1];
      && line[|line| - 1] == code[j]
      && Lex(code) == LexError(Diagnostic(
           InvalidCharacter(code[j], 1 + CountNewlines(code[..j])),
           line + "\n" + Blanks(line[..|line| - 1]) + "~"))
  {
    var start := LineStart(code, j);
    var line := code[start..j + 1];
    var p := j - start;
    assert |line| - 1 == p && line[p] == code[j];
    assert Lex(code) == LexError(Render(InvalidCharacter(code[j], 1 + CountNewlines(code[..j])), line, p, p)) by {
      LexStopsAtInvalid(code, j);
    }
    assert Underline(line, p, p) == Blanks(line[..p]) + "~" by {
      CaretAtEnd(line);
    }
  }

  /** A run of letters, digits, spaces and tabs is one word to the lexer:
      the spaces and tabs only extend the line read so far and never flush
      the pending word, so `ab cd` and `abcd` give the same tokens. */
  lemma {:induction false} BlanksJoinWords(text: string, i: nat, j: nat, toks: seq<Token>, word: string, line: string, lineno: int)
    requires i <= j <= |text|
    requires forall k :: i <= k < j ==> IsAlphanumeral(text[k]) || text[k] == ' ' || text[k] == '\t'
    ensures LexFrom(text, i, toks, word, line, lineno) == LexFrom(text, j, toks, word + Compact(text[i..j]), line + text[i..j], lineno)
    decreases j - i
  {
    if i == j {
      assert text[i..j] == [];
      assert Compact(text[i..j]) == [];
      assert word + [] == word && line + [] == line;
    } else {
      var c := text[i];
      var rest := text[i + 1..j];
      assert text[i..j] == [c] + rest;
      CompactAppend([c], rest);
      var word' := WordStep(text, i, toks, word, line, lineno);
      assert LexFrom(text, i + 1, toks, word', line + [c], lineno)
          == LexFrom(text, j, toks, word' + Compact(rest), line + [c] + rest, lineno) by {
        BlanksJoinWords(text, i + 1, j, toks, word', line + [c], lineno);
      }
      AppendAssoc(word, Compact([c]), Compact(rest));
      AppendAssoc(line, [c], rest);
    }
  }

  /** One letter, digit, space or tab: the tokens stay, the pending word
      grows by the character with whitespace taken out. */
  lemma WordStep(text: string, i: nat, toks: seq<Token>, word: string, line: string, lineno: int) returns (word': string)
    requires i < |text| && (IsAlphanumeral(text[i]) || text[i] == ' ' || text[i] == '\t')
    ensures word' == word + Compact([text[i]])
    ensures LexFrom(text, i, toks, word, line, lineno) == LexFrom(text, i + 1, toks, word', line + [text[i]], lineno)
  {
    var c := text[i];
    CompactSingleton(c);
    word' := StepWord(c, word);
    if !IsAlphanumeral(c) {
      assert word + [] == word;
    }
  }
}
