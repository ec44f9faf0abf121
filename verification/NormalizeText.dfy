/** The text normal form that every stored quotation and locator refers to. */
module NormalizeText {
  import opened Text

  // ---------------------------------------------------------------- the passes

  /** `replace("\r\n", "\n")` */
  function ReplaceCrLf(s: string): string {
    if s == "" then ""
    else if s[0] == '\r' && |s| > 1 && s[1] == '\n' then "\n" + ReplaceCrLf(s[2..])
    else [s[0]] + ReplaceCrLf(s[1..])
  }

  /** `replace('\r', "\n")` */
  function ReplaceCr(s: string): string {
    if s == "" then "" else [if s[0] == '\r' then '\n' else s[0]] + ReplaceCr(s[1..])
  }

  /** `lines()` on a text without carriage returns: a final LF ends the last line. */
  function Lines(s: string): (lines: seq<string>)
    ensures lines == [] <==> s == ""
    ensures s != "" && s[0] != '\n' ==> lines[0] != "" && lines[0][0] == s[0]
    ensures s != "" && s[0] == '\n' ==> lines[0] == ""
  {
    if s == "" then []
    else if s[0] == '\n' then [""] + Lines(s[1..])
    else
      var rest := Lines(s[1..]);
      if rest == [] then [[s[0]]] else [[s[0]] + rest[0]] + rest[1..]
  }

  function Collapse(line: string): string {
    Join(Words(line), " ")
  }

  /** Collapses every line, and keeps a blank line only after a line that is not blank. */
  function Squeeze(lines: seq<string>, previousBlank: bool): seq<string> {
    if lines == [] then []
    else
      var collapsed := Collapse(lines[0]);
      var blank := collapsed == "";
      (if !blank || !previousBlank then [collapsed] else []) + Squeeze(lines[1..], blank)
  }

  function DropTrailingBlanks(lines: seq<string>): (r: seq<string>)
    ensures r <= lines
    ensures r != [] ==> r[|r| - 1] != ""
  {
    if lines != [] && lines[|lines| - 1] == "" then DropTrailingBlanks(lines[..|lines| - 1]) else lines
  }

  function InputLines(input: string): seq<string> {
    Lines(ReplaceCr(ReplaceCrLf(input)))
  }

  function OutputLines(input: string): seq<string> {
    DropTrailingBlanks(Squeeze(InputLines(input), true))
  }

  function NormalForm(input: string): string {
    Join(OutputLines(input), "\n")
  }

  lemma SqueezeNext(output: seq<string>, lines: seq<string>, previousBlank: bool)
    requires lines != []
    ensures var collapsed := Collapse(lines[0]);
      var pushed := if collapsed != "" || !previousBlank then output + [collapsed] else output;
      output + Squeeze(lines, previousBlank) == pushed + Squeeze(lines[1..], collapsed == "")
  {
  }

  method NormalizeText(input: string) returns (text: string)
    ensures text == NormalForm(input)
    ensures NormalForm(text) == text && Words(text) == Words(input)
  {
    var lines := InputLines(input);
    var output: seq<string> := [];
    var previousBlank := true;
    for k := 0 to |lines|
      invariant output + Squeeze(lines[k..], previousBlank) == Squeeze(lines, true)
    {
      var collapsed := Collapse(lines[k]);
      var blank := collapsed == "";
      SqueezeNext(output, lines[k..], previousBlank);
      assert lines[k..][1..] == lines[k + 1..];
      if !blank || !previousBlank {
        output := output + [collapsed];
      }
      previousBlank := blank;
    }
    assert lines[|lines|..] == [] && output == Squeeze(lines, true);
    while output != [] && output[|output| - 1] == ""
      invariant DropTrailingBlanks(output) == OutputLines(input)
    {
      output := output[..|output| - 1];
    }
    text := Join(output, "\n");
    assert text == NormalForm(input);
    NormalizeIsIdempotent(input);
    NormalizeKeepsWords(input);
  }

  // ---------------------------------------------------------------- normal form

  /** A line without outer white space whose words are separated by single spaces. */
  predicate Collapsed(line: string) {
    Collapse(line) == line
  }

  predicate NoDoubleBlank(lines: seq<string>) {
    forall i :: 0 <= i < |lines| - 1 ==> lines[i] != "" || lines[i + 1] != ""
  }

  predicate Normal(lines: seq<string>) {
    && (forall i :: 0 <= i < |lines| ==> Collapsed(lines[i]))
    && NoDoubleBlank(lines)
    && (lines != [] ==> lines[0] != "" && lines[|lines| - 1] != "")
  }

  lemma CollapseIsCollapsed(line: string)
    ensures Collapsed(Collapse(line)) && Words(Collapse(line)) == Words(line)
  {
    WordsOfJoin(Words(line));
  }

  lemma {:induction false} SqueezeIsNormal(lines: seq<string>, previousBlank: bool)
    ensures var r := Squeeze(lines, previousBlank);
      && (forall i :: 0 <= i < |r| ==> Collapsed(r[i]))
      && NoDoubleBlank(r)
      && (previousBlank && r != [] ==> r[0] != "")
  {
    if lines != [] {
      CollapseIsCollapsed(lines[0]);
      SqueezeIsNormal(lines[1..], Collapse(lines[0]) == "");
    }
  }

  /** The output is in normal form, whatever the input. */
  lemma OutputIsNormal(input: string)
    ensures Normal(OutputLines(input))
  {
    SqueezeIsNormal(InputLines(input), true);
  }

  // ---------------------------------------------------------------- idempotence

  predicate NoLineBreak(s: string) {
    forall i :: 0 <= i < |s| ==> s[i] != '\n' && s[i] != '\r'
  }

  predicate NoReturn(s: string) {
    forall i :: 0 <= i < |s| ==> s[i] != '\r'
  }

  lemma {:induction false} JoinedWordsHaveNoBreak(words: seq<string>)
    requires IsWordList(words)
    ensures NoLineBreak(Join(words, " "))
  {
    if words != [] {
      assert IsWord(words[0]);
      if |words| > 1 {
        JoinedWordsHaveNoBreak(words[1..]);
      }
    }
  }

  lemma {:induction false} JoinedLinesHaveNoReturn(lines: seq<string>)
    requires forall i :: 0 <= i < |lines| ==> NoLineBreak(lines[i])
    ensures NoReturn(Join(lines, "\n"))
  {
    if lines != [] {
      assert NoLineBreak(lines[0]);
      if |lines| > 1 {
        JoinedLinesHaveNoReturn(lines[1..]);
      }
    }
  }

  lemma {:induction false} NothingToReplace(s: string)
    requires NoReturn(s)
    ensures ReplaceCrLf(s) == s && ReplaceCr(s) == s
  {
    if s != "" {
      NothingToReplace(s[1..]);
      assert s == [s[0]] + s[1..];
    }
  }

  lemma {:induction false} LinesOfLine(line: string)
    requires NoLineBreak(line) && line != ""
    ensures Lines(line) == [line]
  {
    assert line[0] != '\n' && line == [line[0]] + line[1..];
    if |line| > 1 {
      LinesOfLine(line[1..]);
    } else {
      assert line[1..] == "" && Lines("") == [] && line == [line[0]];
    }
  }

  lemma {:induction false} LinesOfFirst(line: string, rest: string)
    requires NoLineBreak(line)
    ensures Lines(line + "\n" + rest) == [line] + Lines(rest)
  {
    var s := line + "\n" + rest;
    if line == "" {
      assert s[1..] == rest;
    } else {
      LinesOfFirst(line[1..], rest);
      assert s[1..] == line[1..] + "\n" + rest;
      assert line == [line[0]] + line[1..];
    }
  }

  /** Splitting into lines undoes joining, unless the last line is blank. */
  lemma {:induction false} LinesOfJoin(lines: seq<string>)
    requires forall i :: 0 <= i < |lines| ==> NoLineBreak(lines[i])
    requires lines != [] ==> lines[|lines| - 1] != ""
    ensures Lines(Join(lines, "\n")) == lines
  {
    if |lines| == 1 {
      LinesOfLine(lines[0]);
    } else if |lines| > 1 {
      LinesOfJoin(lines[1..]);
      LinesOfFirst(lines[0], Join(lines[1..], "\n"));
    }
  }

  lemma {:induction false} SqueezeKeepsNormal(lines: seq<string>, previousBlank: bool)
    requires forall i :: 0 <= i < |lines| ==> Collapsed(lines[i])
    requires NoDoubleBlank(lines)
    requires previousBlank && lines != [] ==> lines[0] != ""
    ensures Squeeze(lines, previousBlank) == lines
  {
    if lines != [] {
      assert Collapse(lines[0]) == lines[0];
      assert |lines| > 1 ==> lines[0] != "" || lines[1] != "";
      SqueezeKeepsNormal(lines[1..], lines[0] == "");
    }
  }

  lemma NormalLinesAreFixed(lines: seq<string>)
    requires Normal(lines)
    ensures OutputLines(Join(lines, "\n")) == lines
  {
    forall i | 0 <= i < |lines|
      ensures NoLineBreak(lines[i])
    {
      assert Collapse(lines[i]) == lines[i];
      JoinedWordsHaveNoBreak(Words(lines[i]));
    }
    JoinedLinesHaveNoReturn(lines);
    NothingToReplace(Join(lines, "\n"));
    LinesOfJoin(lines);
    SqueezeKeepsNormal(lines, true);
  }

  lemma NormalizeIsIdempotent(input: string)
    ensures NormalForm(NormalForm(input)) == NormalForm(input)
  {
    OutputIsNormal(input);
    NormalLinesAreFixed(OutputLines(input));
  }

  /** A text is left unchanged if and only if it is some lines in normal form. */
  lemma FixedExactlyWhenNormal(text: string)
    ensures NormalForm(text) == text <==> exists lines: seq<string> :: Normal(lines) && text == Join(lines, "\n")
  {
    if NormalForm(text) == text {
      OutputIsNormal(text);
    }
    if exists lines: seq<string> :: Normal(lines) && text == Join(lines, "\n") {
      var lines: seq<string> :| Normal(lines) && text == Join(lines, "\n");
      NormalLinesAreFixed(lines);
    }
  }

  // ---------------------------------------------------------------- nothing is lost

  lemma {:induction false} WordsOfReplaceCr(s: string)
    ensures Words(ReplaceCr(s)) == Words(s)
  {
    if s != "" {
      WordsOfReplaceCr(s[1..]);
      var r := ReplaceCr(s);
      assert r[1..] == ReplaceCr(s[1..]);
      assert |s| > 1 ==> |r| > 1 && r[1] == if s[1] == '\r' then '\n' else s[1];
    }
  }

  lemma {:induction false} WordsOfReplaceCrLf(s: string)
    ensures Words(ReplaceCrLf(s)) == Words(s)
    decreases |s|
  {
    if s == "" {
    } else if s[0] == '\r' && |s| > 1 && s[1] == '\n' {
      WordsOfReplaceCrLf(s[2..]);
      assert ReplaceCrLf(s)[1..] == ReplaceCrLf(s[2..]);
      assert s[1..][1..] == s[2..];
    } else {
      WordsOfReplaceCrLf(s[1..]);
      var r := ReplaceCrLf(s);
      assert r[1..] == ReplaceCrLf(s[1..]);
      ReplaceCrLfHead(s[1..]);
    }
  }

  lemma ReplaceCrLfHead(s: string)
    ensures s == "" <==> ReplaceCrLf(s) == ""
    ensures s != "" ==> (ReplaceCrLf(s)[0] == s[0] || (IsWhitespace(ReplaceCrLf(s)[0]) && IsWhitespace(s[0])))
  {
  }

  function WordsOfLines(lines: seq<string>): seq<string> {
    if lines == [] then [] else Words(lines[0]) + WordsOfLines(lines[1..])
  }

  lemma {:induction false} WordsOfLinesOf(s: string)
    ensures WordsOfLines(Lines(s)) == Words(s)
  {
    if s != "" {
      WordsOfLinesOf(s[1..]);
      var rest := Lines(s[1..]);
      if s[0] == '\n' {
        assert Lines(s) == [""] + rest && Lines(s)[1..] == rest;
      } else if rest == [] {
        assert s == [s[0]];
      } else {
        assert Lines(s)[1..] == rest[1..];
        WordsOfExtendedLine(s[0], rest[0], s[1..], WordsOfLines(rest[1..]));
      }
    }
  }

  /** The words of a text once `c` is put in front of it, `apart` from its first word or as part of it. */
  function ExtendWords(c: char, apart: bool, words: seq<string>): seq<string>
    requires !apart ==> words != []
  {
    if IsWhitespace(c) then words else if apart then [[c]] + words else [[c] + words[0]] + words[1..]
  }

  predicate StartsApart(s: string) {
    s == "" || IsWhitespace(s[0])
  }

  lemma WordsExtend(c: char, s: string)
    ensures !StartsApart(s) ==> Words(s) != []
    ensures Words([c] + s) == ExtendWords(c, StartsApart(s), Words(s))
  {
    assert ([c] + s)[1..] == s;
  }

  lemma ExtendConcat(c: char, apart: bool, words: seq<string>, more: seq<string>)
    requires !apart ==> words != []
    ensures ExtendWords(c, apart, words + more) == ExtendWords(c, apart, words) + more
  {
  }

  lemma WordsOfExtendedLine(c: char, line: string, s: string, more: seq<string>)
    requires s != "" && Words(s) == Words(line) + more
    requires if s[0] == '\n' then line == "" else line != "" && line[0] == s[0]
    ensures Words([c] + s) == Words([c] + line) + more
  {
    var apart := StartsApart(line);
    assert StartsApart(s) == apart;
    WordsExtend(c, s);
    WordsExtend(c, line);
    ExtendConcat(c, apart, Words(line), more);
  }

  lemma {:induction false} WordsOfJoinedLines(lines: seq<string>)
    ensures Words(Join(lines, "\n")) == WordsOfLines(lines)
  {
    if |lines| == 1 {
      assert lines[1..] == [];
    } else if |lines| > 1 {
      WordsOfJoinedLines(lines[1..]);
      WordsSplit(lines[0], '\n', Join(lines[1..], "\n"));
    }
  }

  lemma {:induction false} WordsOfSqueeze(lines: seq<string>, previousBlank: bool)
    ensures WordsOfLines(Squeeze(lines, previousBlank)) == WordsOfLines(lines)
  {
    if lines != [] {
      var collapsed := Collapse(lines[0]);
      CollapseIsCollapsed(lines[0]);
      var rest := Squeeze(lines[1..], collapsed == "");
      WordsOfSqueeze(lines[1..], collapsed == "");
      if collapsed != "" || !previousBlank {
        assert ([collapsed] + rest)[1..] == rest;
      } else {
        assert Words("") == [] && Squeeze(lines, previousBlank) == rest;
      }
    }
  }

  lemma {:induction false} WordsOfAppend(a: seq<string>, b: seq<string>)
    ensures WordsOfLines(a + b) == WordsOfLines(a) + WordsOfLines(b)
  {
    if a == [] {
      assert a + b == b;
    } else {
      assert (a + b)[1..] == a[1..] + b;
      WordsOfAppend(a[1..], b);
    }
  }

  lemma {:induction false} WordsOfDropTrailing(lines: seq<string>)
    ensures WordsOfLines(DropTrailingBlanks(lines)) == WordsOfLines(lines)
  {
    if lines != [] && lines[|lines| - 1] == "" {
      var front := lines[..|lines| - 1];
      WordsOfDropTrailing(front);
      assert lines == front + [""];
      WordsOfAppend(front, [""]);
      assert WordsOfLines([""]) == [];
    }
  }

  /** Normalization changes white space only: the words of the text stay as they are. */
  lemma NormalizeKeepsWords(input: string)
    ensures Words(NormalForm(input)) == Words(input)
  {
    WordsOfReplaceCrLf(input);
    WordsOfReplaceCr(ReplaceCrLf(input));
    WordsOfLinesOf(ReplaceCr(ReplaceCrLf(input)));
    WordsOfSqueeze(InputLines(input), true);
    WordsOfDropTrailing(Squeeze(InputLines(input), true));
    WordsOfJoinedLines(OutputLines(input));
  }
}
