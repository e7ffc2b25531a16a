/** The two-line error message shared by the lexer and the parser
    (`point`, pysharp.py): the message, then the offending line followed by a
    row of `~` under the implicated columns. */
module Diagnostics {
  import opened Text

  /** The `(msg, arrow)` pair that `point` returns. */
  datatype Diagnostic = Diagnostic(msg: string, arrow: string)

  /** What `point` writes under the character `c` at index `idx`: a `~` inside
      the range, otherwise a space, widened by seven more for a tab. */
  function Mark(c: char, idx: int, startpos: int, endpos: int): string {
    if startpos <= idx <= endpos then "~"
    else if c == '\t' then "        " else " "
  }

  /** The second line of the arrow: one mark per character of `line`, left
      to right. */
  function Underline(line: string, startpos: int, endpos: int): string
    decreases |line|
  {
    if line == [] then []
    else Underline(line[..|line| - 1], startpos, endpos) + Mark(line[|line| - 1], |line| - 1, startpos, endpos)
  }

  /** The padding `point` writes under characters outside the range: a space
      each, eight for a tab. */
  function Blanks(s: string): (r: string)
    ensures |r| == |s| + 7 * Occurrences(s, '\t')
    ensures forall k :: 0 <= k < |r| ==> r[k] == ' '
    decreases |s|
  {
    if s == [] then []
    else
      var r := (if s[0] == '\t' then "        " else " ") + Blanks(s[1..]);
      r
  }

  /** The diagnostic `point(msg, line, startpos, endpos)` returns. */
  function Render(msg: string, line: string, startpos: int, endpos: int): Diagnostic {
    Diagnostic(msg, line + "\n" + Underline(line, startpos, endpos))
  }

  /** `point`: builds the arrow one character of `line` at a time. */
  method Point(msg: string, line: string, startpos: int, endpos: int) returns (d: Diagnostic)
    ensures d == Render(msg, line, startpos, endpos)
  {
    var arrow := line + "\n";
    var idx := 0;
    while idx < |line|
      invariant 0 <= idx <= |line|
      invariant arrow == line + "\n" + Underline(line[..idx], startpos, endpos)
    {
      var c := line[idx];
      assert line[..idx + 1][..idx] == line[..idx];
      if startpos <= idx && idx <= endpos {
        arrow := arrow + "~";
      } else {
        if c == '\t' {
          arrow := arrow + "       ";
        }
        arrow := arrow + " ";
      }
      idx := idx + 1;
    }
    assert line[..idx] == line;
    d := Diagnostic(msg, arrow);
  }

  /** Number of indices of a line of length `n` that fall in `[startpos, endpos]`. */
  function Covered(n: nat, startpos: int, endpos: int): nat {
    var lo := if startpos < 0 then 0 else startpos;
    var hi := if endpos < n - 1 then endpos else n - 1;
    if hi < lo then 0 else hi - lo + 1
  }

  /** `point` writes exactly one `~` per index of the line inside the range. */
  lemma {:induction false} UnderlineTildes(line: string, startpos: int, endpos: int)
    ensures Occurrences(Underline(line, startpos, endpos), '~') == Covered(|line|, startpos, endpos)
    decreases |line|
  {
    if line != [] {
      var n := |line|;
      var last := line[n - 1];
      UnderlineTildes(line[..n - 1], startpos, endpos);
      OccurrencesAppend(Underline(line[..n - 1], startpos, endpos), Mark(last, n - 1, startpos, endpos), '~');
      var m := Mark(last, n - 1, startpos, endpos);
      if startpos <= n - 1 <= endpos {
        assert m == "~" && m[1..] == [];
      } else {
        assert forall k :: 0 <= k < |m| ==> m[k] == ' ';
        NoTildeInBlanks(m);
      }
    }
  }

  lemma {:induction false} NoTildeInBlanks(s: string)
    requires forall k :: 0 <= k < |s| ==> s[k] == ' '
    ensures Occurrences(s, '~') == 0
    decreases |s|
  {
    if s != [] {
      NoTildeInBlanks(s[1..]);
    }
  }

  /** On a line without tabs the underline is column-aligned with the line:
      a `~` exactly under the indices in the range, a space elsewhere. */
  lemma {:induction false} UnderlineAligned(line: string, startpos: int, endpos: int)
    requires '\t' !in line
    ensures |Underline(line, startpos, endpos)| == |line|
    ensures forall k :: 0 <= k < |line| ==>
      Underline(line, startpos, endpos)[k] == if startpos <= k <= endpos then '~' else ' '
    decreases |line|
  {
    if line != [] {
      var n := |line|;
      var init := line[..n - 1];
      var u := Underline(init, startpos, endpos);
      var m := Mark(line[n - 1], n - 1, startpos, endpos);
      assert line[n - 1] != '\t' by { assert line[n - 1] in line; }
      assert |u| == |init| && forall k :: 0 <= k < |init| ==> u[k] == if startpos <= k <= endpos then '~' else ' ' by {
        assert forall c :: c in init ==> c in line;
        UnderlineAligned(init, startpos, endpos);
      }
      assert |m| == 1 && m[0] == if startpos <= n - 1 <= endpos then '~' else ' ';
      assert Underline(line, startpos, endpos) == u + m;
    }
  }

  /** A range that starts after the line leaves only padding. */
  lemma {:induction false} UnderlineBeyond(line: string, startpos: int, endpos: int)
    requires startpos >= |line|
    ensures Underline(line, startpos, endpos) == Blanks(line)
    decreases |line|
  {
    if line != [] {
      var n := |line|;
      var init := line[..n - 1];
      UnderlineBeyond(init, startpos, endpos);
      BlanksAppend(init, line[n - 1]);
      assert init + [line[n - 1]] == line;
    }
  }

  lemma {:induction false} BlanksAppend(s: string, c: char)
    ensures Blanks(s + [c]) == Blanks(s) + (if c == '\t' then "        " else " ")
    decreases |s|
  {
    if s == [] {
      assert [] + [c] == [c];
    } else {
      assert (s + [c])[0] == s[0] && (s + [c])[1..] == s[1..] + [c];
      BlanksAppend(s[1..], c);
    }
  }

  /** The caret the lexer draws under the last character of the line read so
      far: padding for every earlier character (tabs widened), then a single
      `~`. */
  lemma CaretAtEnd(line: string)
    requires |line| > 0
    ensures Underline(line, |line| - 1, |line| - 1) == Blanks(line[..|line| - 1]) + "~"
    ensures Occurrences(Underline(line, |line| - 1, |line| - 1), '~') == 1
  {
    var p := |line| - 1;
    UnderlineBeyond(line[..p], p, p);
    UnderlineTildes(line, p, p);
  }

  /** Number of tabs of `line` at indices outside `[startpos, endpos]`. */
  function TabsOutside(line: string, startpos: int, endpos: int): nat
    decreases |line|
  {
    if line == [] then 0
    else
      var k := |line| - 1;
      TabsOutside(line[..k], startpos, endpos) + (if line[k] == '\t' && !(startpos <= k <= endpos) then 1 else 0)
  }

  /** One mark per character, widened by seven for each tab outside the range. */
  lemma {:induction false} UnderlineLength(line: string, startpos: int, endpos: int)
    ensures |Underline(line, startpos, endpos)| == |line| + 7 * TabsOutside(line, startpos, endpos)
    decreases |line|
  {
    if line != [] {
      UnderlineLength(line[..|line| - 1], startpos, endpos);
    }
  }
}
