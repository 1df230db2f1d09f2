/**
  `translateSrt` of csrt.py: one pass over the lines of a SubRip file.
  Index lines, timing lines and blank lines are copied; every other line is
  replaced by the answer of a translation oracle, or by a failure marker when
  the oracle answers with the empty string, in which case the current cue
  index is appended to the caller's error list.
*/
module SrtTranslator {
  import opened PyStr

  /** The marker written in front of a line the oracle could not translate (spelled as in the program). */
  const FAIL_PREFIX := "[TRANSATION-FAIL]: "

  /** `"please translate this sentence to {0}: {1}".format(language, line)`. */
  function Prompt(language: string, line: string): string {
    "please translate this sentence to " + language + ": " + line
  }

  /** The line as classified: every `\n` removed. */
  function Clean(raw: string): (line: string)
    ensures '\n' !in line && |line| <= |raw|
    ensures '\n' !in raw ==> line == raw
    ensures |raw| > 0 && raw[|raw| - 1] == '\n' && '\n' !in raw[..|raw| - 1] ==> line == raw[..|raw| - 1]
  {
    if |raw| > 0 && raw[|raw| - 1] == '\n' && '\n' !in raw[..|raw| - 1] then
      assert raw == raw[..|raw| - 1] + ['\n'];
      RemoveAllLast(raw[..|raw| - 1], '\n');
      RemoveAll(raw, '\n')
    else RemoveAll(raw, '\n')
  }

  /** Index lines, timing lines and blank lines are copied, not translated. */
  predicate PassThrough(line: string) {
    IsNumeric(line) || HasInfix(line, "-->") || line == ""
  }

  /** A line that is sent to the oracle and comes back empty. */
  predicate Fails(raw: string, language: string, ask: string -> string) {
    var line := Clean(raw);
    !PassThrough(line) && ask(Prompt(language, line)) == ""
  }

  /** What is written for one raw line. */
  function Output(raw: string, language: string, ask: string -> string): string {
    var line := Clean(raw);
    if PassThrough(line) then line + "\n"
    else
      var answer := ask(Prompt(language, line));
      if answer != "" then answer + "\n" else FAIL_PREFIX + line + "\n"
  }

  /** The state of the pass after some lines: the current index, the writes so far, the indices reported. */
  datatype Pass = Pass(lineNo: nat, written: seq<string>, failures: seq<nat>)

  function Step(p: Pass, raw: string, language: string, ask: string -> string): Pass {
    var line := Clean(raw);
    var lineNo := if IsNumeric(line) then DigitsValue(line) else p.lineNo;
    var failures := if Fails(raw, language, ask) then p.failures + [lineNo] else p.failures;
    Pass(lineNo, p.written + [Output(raw, language, ask)], failures)
  }

  /** The pass over `lines`, line by line from the first. */
  function Translation(lines: seq<string>, language: string, ask: string -> string): (p: Pass)
    ensures |p.written| == |lines|
    ensures |p.failures| <= |lines|
  {
    if lines == [] then Pass(0, [], [])
    else Step(Translation(lines[..|lines| - 1], language, ask), lines[|lines| - 1], language, ask)
  }

  /** The caller-owned `errors` list, which the pass appends to. */
  class ErrorList {
    var items: seq<nat>

    constructor()
      ensures items == []
    {
      items := [];
    }

    method Append(n: nat)
      modifies this
      ensures items == old(items) + [n]
    {
      items := items + [n];
    }
  }

  /**
    The loop of `translateSrt`, reading from a sequence of lines and writing
    to a sequence of writes; `ask` stands for the call to the model.
  */
  method TranslateSrt(lines: seq<string>, language: string, ask: string -> string, errors: ErrorList)
    returns (written: seq<string>)
    modifies errors
    ensures written == Translation(lines, language, ask).written
    ensures errors.items == old(errors.items) + Translation(lines, language, ask).failures
  {
    written := [];
    var lineNo: nat := 0;
    var i := 0;
    while i < |lines|
      invariant 0 <= i <= |lines|
      invariant Translation(lines[..i], language, ask).lineNo == lineNo
      invariant Translation(lines[..i], language, ask).written == written
      invariant errors.items == old(errors.items) + Translation(lines[..i], language, ask).failures
    {
      var line := RemoveAll(lines[i], '\n');
      if IsNumeric(line) {
        lineNo := DigitsValue(line);
      }
      if !(IsNumeric(line) || HasInfix(line, "-->")) && line != "" {
        var backup := line;
        line := ask(Prompt(language, line));
        if line == "" {
          errors.Append(lineNo);
          line := FAIL_PREFIX + backup;
        }
      }
      written := written + [line + "\n"];
      assert lines[..i + 1][..i] == lines[..i];
      i := i + 1;
    }
    assert lines[..i] == lines;
  }

  /** The pass over a prefix is the start of the pass over the whole. */
  lemma {:induction false} TranslationPrefix(lines: seq<string>, n: nat, language: string, ask: string -> string)
    requires n <= |lines|
    ensures var whole, part := Translation(lines, language, ask), Translation(lines[..n], language, ask);
      && part.written == whole.written[..n]
      && part.failures <= whole.failures
    decreases |lines|
  {
    if n < |lines| {
      var init := lines[..|lines| - 1];
      assert init[..n] == lines[..n];
      TranslationPrefix(init, n, language, ask);
    } else {
      assert lines[..n] == lines;
    }
  }

  /** The write for line `i` depends on that line alone. */
  lemma WrittenLine(lines: seq<string>, i: nat, language: string, ask: string -> string)
    requires i < |lines|
    ensures Translation(lines, language, ask).written[i] == Output(lines[i], language, ask)
  {
    TranslationPrefix(lines, i + 1, language, ask);
    assert lines[..i + 1][..i] == lines[..i];
  }

  /**
    Each write is one line ending in `\n`: a copied line unchanged, otherwise
    the oracle's non-empty answer to the prompt, or the marker and the line.
  */
  lemma OutputCases(raw: string, language: string, ask: string -> string)
    ensures var line, out := Clean(raw), Output(raw, language, ask);
      && (PassThrough(line) ==> out == line + "\n")
      && (!PassThrough(line) && ask(Prompt(language, line)) != "" ==> out == ask(Prompt(language, line)) + "\n")
      && (Fails(raw, language, ask) ==> out == FAIL_PREFIX + line + "\n")
      && |out| >= 1 && out[|out| - 1] == '\n'
      && (PassThrough(line) || Fails(raw, language, ask) ==> '\n' !in out[..|out| - 1])
  {
    var line, out := Clean(raw), Output(raw, language, ask);
    if Fails(raw, language, ask) {
      assert out[..|out| - 1] == FAIL_PREFIX + line;
      assert '\n' !in FAIL_PREFIX;
    } else if PassThrough(line) {
      assert out[..|out| - 1] == line;
    }
  }

  /**
    A line as `readlines` gives it, ending in its one `\n`, that is a numeral,
    a timing line or empty is written back exactly as it was read.
  */
  lemma CopiedReadLine(lines: seq<string>, i: nat, line: string, language: string, ask: string -> string)
    requires i < |lines| && lines[i] == line + "\n" && '\n' !in line && PassThrough(line)
    ensures Translation(lines, language, ask).written[i] == lines[i]
  {
    WrittenLine(lines, i, language, ask);
    CleanOfLine(lines[i], line);
  }

  /** A last line without `\n` that is a numeral, a timing line or empty is written back with a `\n` added. */
  lemma CopiedLine(lines: seq<string>, i: nat, language: string, ask: string -> string)
    requires i < |lines| && '\n' !in lines[i] && PassThrough(lines[i])
    ensures Translation(lines, language, ask).written[i] == lines[i] + "\n"
  {
    WrittenLine(lines, i, language, ask);
  }

  /** Any line with `-->` is copied, whatever the oracle. */
  lemma TimingLinesCopied(lines: seq<string>, i: nat, language: string, ask: string -> string)
    requires i < |lines| && HasInfix(Clean(lines[i]), "-->")
    ensures Translation(lines, language, ask).written[i] == Clean(lines[i]) + "\n"
  {
    WrittenLine(lines, i, language, ask);
  }

  /** The current index is the value of the last numeric line, or 0 when there is none. */
  lemma {:induction false} CurrentIndex(lines: seq<string>, language: string, ask: string -> string)
    ensures var lineNo := Translation(lines, language, ask).lineNo;
      && ((forall j :: 0 <= j < |lines| ==> !IsNumeric(Clean(lines[j]))) ==> lineNo == 0)
      && (forall j :: 0 <= j < |lines| && IsNumeric(Clean(lines[j]))
            && (forall k :: j < k < |lines| ==> !IsNumeric(Clean(lines[k])))
            ==> lineNo == DigitsValue(Clean(lines[j])))
    decreases |lines|
  {
    if lines != [] {
      var init := lines[..|lines| - 1];
      CurrentIndex(init, language, ask);
      assert forall j :: 0 <= j < |init| ==> init[j] == lines[j];
    }
  }

  /** Number of lines that fail among `lines`. */
  function FailCount(lines: seq<string>, language: string, ask: string -> string): nat {
    if lines == [] then 0
    else FailCount(lines[..|lines| - 1], language, ask) + (if Fails(lines[|lines| - 1], language, ask) then 1 else 0)
  }

  /**
    The reported indices: one per failing line, in line order, each the
    index current at that line (so two failing lines of one cue report it twice).
  */
  lemma {:induction false} FailuresReported(lines: seq<string>, language: string, ask: string -> string)
    ensures |Translation(lines, language, ask).failures| == FailCount(lines, language, ask)
    ensures forall j :: 0 <= j < |lines| && Fails(lines[j], language, ask) ==>
      FailCount(lines[..j], language, ask) < FailCount(lines, language, ask)
      && Translation(lines, language, ask).failures[FailCount(lines[..j], language, ask)]
         == Translation(lines[..j + 1], language, ask).lineNo
    decreases |lines|
  {
    if lines != [] {
      var n := |lines| - 1;
      var init := lines[..n];
      FailuresReported(init, language, ask);
      var whole, part := Translation(lines, language, ask), Translation(init, language, ask);
      forall j | 0 <= j < |lines| && Fails(lines[j], language, ask)
        ensures FailCount(lines[..j], language, ask) < FailCount(lines, language, ask)
        ensures whole.failures[FailCount(lines[..j], language, ask)] == Translation(lines[..j + 1], language, ask).lineNo
      {
        if j < n {
          assert init[j] == lines[j];
          assert init[..j] == lines[..j];
          assert init[..j + 1] == lines[..j + 1];
        } else {
          assert lines[..j] == init;
          assert lines[..j + 1] == lines;
        }
      }
    }
  }

  /** When no oracle call comes back empty, nothing is reported. */
  lemma {:induction false} NoFailureNoReport(lines: seq<string>, language: string, ask: string -> string)
    requires forall j :: 0 <= j < |lines| ==> !Fails(lines[j], language, ask)
    ensures Translation(lines, language, ask).failures == []
    decreases |lines|
  {
    if lines != [] {
      var init := lines[..|lines| - 1];
      assert forall j :: 0 <= j < |init| ==> init[j] == lines[j];
      NoFailureNoReport(init, language, ask);
    }
  }

  /**
    A cue whose two text lines both fail: its index is reported twice and
    both lines are written behind the marker.
  */
  lemma TwoFailuresInACue(index: string, first: string, second: string, language: string, ask: string -> string)
    requires IsNumeric(index)
    requires '\n' !in first && !PassThrough(first) && ask(Prompt(language, first)) == ""
    requires '\n' !in second && !PassThrough(second) && ask(Prompt(language, second)) == ""
    ensures var p := Translation([index + "\n", first + "\n", second + "\n"], language, ask);
      && p.failures == [DigitsValue(index), DigitsValue(index)]
      && p.written == [index + "\n", FAIL_PREFIX + first + "\n", FAIL_PREFIX + second + "\n"]
  {
    var lines := [index + "\n", first + "\n", second + "\n"];
    assert '\n' !in index by {
      assert forall k :: 0 <= k < |index| ==> IsDigit(index[k]);
    }
    CleanOfLine(index + "\n", index);
    CleanOfLine(first + "\n", first);
    CleanOfLine(second + "\n", second);
    assert lines[..1][..0] == [];
    var p1 := Translation(lines[..1], language, ask);
    assert p1 == Pass(DigitsValue(index), [index + "\n"], []);
    assert lines[..2][..1] == lines[..1];
    var p2 := Translation(lines[..2], language, ask);
    assert p2 == Step(p1, first + "\n", language, ask);
    assert lines[..|lines| - 1] == lines[..2];
  }

  lemma CleanOfLine(raw: string, line: string)
    requires raw == line + "\n" && '\n' !in line
    ensures Clean(raw) == line
  {
    RemoveAllLast(line, '\n');
  }

  lemma {:induction false} RemoveAllLast(s: string, c: char)
    requires c !in s
    ensures RemoveAll(s + [c], c) == s
  {
    var t := s + [c];
    if s != [] {
      assert t[1..] == s[1..] + [c];
      RemoveAllLast(s[1..], c);
      assert s == [s[0]] + s[1..];
    }
  }
}
