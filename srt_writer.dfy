/**
  `write_srt` of utils.py: a transcript's segments written as numbered SubRip
  blocks, and a SubRip reader that recovers the numbered cues from what
  `write_srt` writes.
*/
module SrtWriter {
  import opened Wrappers
  import opened PyStr
  import opened Timestamps

  /** A transcript segment; times are already rounded to milliseconds. */
  datatype Segment = Segment(start: int, end: int, text: string)

  /** `format_timestamp` asserts that its input is non-negative. */
  predicate WellTimed(seg: Segment) {
    seg.start >= 0 && seg.end >= 0
  }

  predicate AllWellTimed(segments: seq<Segment>) {
    forall k :: 0 <= k < |segments| ==> WellTimed(segments[k])
  }

  /** Python's `s.replace('-->', '->')`: one left-to-right pass over non-overlapping occurrences. */
  function ReplaceArrow(s: string): (r: string)
    ensures |r| <= |s|
    ensures s != [] ==> r != [] && r[|r| - 1] == s[|s| - 1]
    decreases |s|
  {
    if |s| >= 3 && s[..3] == "-->" then "->" + ReplaceArrow(s[3..])
    else if s == [] then []
    else [s[0]] + ReplaceArrow(s[1..])
  }

  /** A text without `-->` is written as it is. */
  lemma {:induction false} ReplaceArrowUnchanged(s: string)
    requires !HasInfix(s, "-->")
    ensures ReplaceArrow(s) == s
    decreases |s|
  {
    if s != [] {
      ReplaceArrowUnchanged(s[1..]);
      assert s == [s[0]] + s[1..];
    }
  }

  /** The subtitle text as written: stripped, then with `-->` replaced by `->`. */
  function CleanText(text: string): (r: string)
    ensures |r| <= |text|
    ensures r != [] ==> !IsSpace(r[|r| - 1])
  {
    ReplaceArrow(Strip(text))
  }

  /** An occurrence in a suffix is an occurrence in the whole. */
  lemma {:induction false} InfixOfSuffix(s: string, k: nat, pat: string)
    requires k <= |s|
    ensures HasInfix(s[k..], pat) ==> HasInfix(s, pat)
  {
    if k > 0 {
      assert s[1..][k - 1..] == s[k..];
      InfixOfSuffix(s[1..], k - 1, pat);
    }
  }

  /** The first two characters of the replacement's output. */
  lemma ReplaceArrowHead(t: string)
    ensures |t| >= 1 ==> |ReplaceArrow(t)| >= 1 && ReplaceArrow(t)[0] == t[0]
    ensures |t| >= 2 ==>
      && |ReplaceArrow(t)| >= 2
      && ReplaceArrow(t)[1] == if |t| >= 3 && t[..3] == "-->" then '>' else t[1]
  {
    if |t| >= 2 && !(|t| >= 3 && t[..3] == "-->") {
      var u := t[1..];
      assert |ReplaceArrow(u)| >= 1 && ReplaceArrow(u)[0] == u[0] by {
        if |u| >= 3 && u[..3] == "-->" {
        } else {
          assert ReplaceArrow(u) == [u[0]] + ReplaceArrow(u[1..]);
        }
      }
    }
  }

  /** A kept first character never starts an arrow when the input has no `--->`. */
  lemma KeptHead(s: string)
    requires s != [] && !(|s| >= 3 && s[..3] == "-->") && !HasInfix(s, "--->")
    ensures var r := [s[0]] + ReplaceArrow(s[1..]); |r| >= 3 ==> r[..3] != "-->"
  {
    var u := s[1..];
    var t := ReplaceArrow(u);
    var r := [s[0]] + t;
    if |r| >= 3 {
      ReplaceArrowHead(u);
      assert r[0] == s[0] && r[1] == s[1];
      assert !(|u| >= 3 && u[..3] == "-->") ==> r[2] == s[2];
    }
  }

  /** With no `--->` in the input, the output holds no `-->`. */
  lemma {:induction false} EscapeRemovesArrows(s: string)
    requires !HasInfix(s, "--->")
    ensures !HasInfix(ReplaceArrow(s), "-->")
    decreases |s|
  {
    if |s| >= 3 && s[..3] == "-->" {
      InfixOfSuffix(s, 3, "--->");
      EscapeRemovesArrows(s[3..]);
      var t := ReplaceArrow(s[3..]);
      var r := "->" + t;
      assert r[1..] == ">" + t;
      assert r[1..][1..] == t;
      assert |r| >= 3 ==> r[..3][1] == '>';
      assert |r| >= 4 ==> r[1..][..3][0] == '>';
    } else if s != [] {
      InfixOfSuffix(s, 1, "--->");
      EscapeRemovesArrows(s[1..]);
      var r := [s[0]] + ReplaceArrow(s[1..]);
      assert r[1..] == ReplaceArrow(s[1..]);
      KeptHead(s);
    }
  }

  /** The escape is a single pass: `--->` still yields `-->`. */
  lemma EscapeIsSinglePass()
    ensures ReplaceArrow("--->") == "-->"
    ensures HasInfix(ReplaceArrow("--->"), "-->")
  {
    assert "-->"[..3] == "-->" && "-->"[3..] == [];
    assert ReplaceArrow("-->") == "->";
    assert "--->"[..3][2] == '-' && "--->"[1..] == "-->";
    assert ReplaceArrow("--->") == "-" + ReplaceArrow("-->");
    assert HasInfix("-->", "-->");
  }

  /** An arrow inside a text is shortened, the rest is kept. */
  lemma ReplaceArrowExample()
    ensures ReplaceArrow("a --> b") == "a -> b"
  {
    assert ReplaceArrow("b") == "b";
    assert ReplaceArrow(" b") == " b";
    assert ReplaceArrow("--> b") == "-> b";
    assert ReplaceArrow(" --> b") == " -> b";
  }

  function TimingLine(seg: Segment): string
    requires WellTimed(seg)
  {
    FormatTimestamp(seg.start, true) + " --> " + FormatTimestamp(seg.end, true)
  }

  /** One `print` call of the loop: index line, timing line, text line, and print's own newline. */
  function Block(index: nat, seg: Segment): string
    requires WellTimed(seg)
  {
    NatToString(index) + "\n" + TimingLine(seg) + "\n" + CleanText(seg.text) + "\n" + "\n"
  }

  /** The blocks of `enumerate(transcript, start=1)`, in transcript order. */
  function Blocks(segments: seq<Segment>): seq<string>
    requires AllWellTimed(segments)
  {
    seq(|segments|, k requires 0 <= k < |segments| => Block(k + 1, segments[k]))
  }

  function Concat(parts: seq<string>): string {
    if parts == [] then [] else Concat(parts[..|parts| - 1]) + parts[|parts| - 1]
  }

  lemma {:induction false} ConcatCons(x: string, xs: seq<string>)
    ensures Concat([x] + xs) == x + Concat(xs)
    decreases |xs|
  {
    if xs != [] {
      var init := xs[..|xs| - 1];
      assert ([x] + xs)[..|xs|] == [x] + init;
      ConcatCons(x, init);
    } else {
      assert [x][..0] == [];
    }
  }

  /** A cue as a SubRip reader sees it. */
  datatype Cue = Cue(index: nat, start: nat, end: nat, text: string)

  /** The cues a reader should find in what `write_srt` writes. */
  function Cues(segments: seq<Segment>): seq<Cue>
    requires AllWellTimed(segments)
  {
    seq(|segments|, k requires 0 <= k < |segments| =>
      Cue(k + 1, segments[k].start, segments[k].end, CleanText(segments[k].text)))
  }

  /** Reads `start --> end`. */
  function ReadTiming(line: string): Option<(nat, nat)> {
    var k := Find(line, ' ');
    if k + 5 > |line| || line[k..k + 5] != " --> " then None
    else
      match (ParseTimestamp(line[..k]), ParseTimestamp(line[k + 5..]))
      case (Some(a), Some(b)) => Some((a, b))
      case _ => None
  }

  /** The text holds no empty line: no two newlines in a row. */
  predicate NoBlankLine(t: string) {
    forall k :: 0 <= k < |t| - 1 ==> t[k] != '\n' || t[k + 1] != '\n'
  }

  /** Position of the first `\n\n` in `s`, the end of a cue's text, or `|s|` when there is none. */
  function FindBlank(s: string): (i: nat)
    ensures i <= |s|
    ensures i + 2 <= |s| ==> s[i] == '\n' && s[i + 1] == '\n'
    ensures forall k :: 0 <= k < i && k + 1 < |s| ==> s[k] != '\n' || s[k + 1] != '\n'
  {
    if |s| < 2 then |s| else if s[0] == '\n' && s[1] == '\n' then 0 else 1 + FindBlank(s[1..])
  }

  lemma FindBlankIs(s: string, j: nat)
    requires j + 2 <= |s| && s[j] == '\n' && s[j + 1] == '\n'
    requires forall k :: 0 <= k < j ==> s[k] != '\n' || s[k + 1] != '\n'
    ensures FindBlank(s) == j
  {
    var i := FindBlank(s);
    assert !(i < j) && !(j < i);
  }

  /** A text with no empty line that does not end in a newline is ended by the `\n\n` after it. */
  lemma FindBlankOf(s: string, text: string, rest: string)
    requires s == text + "\n\n" + rest && NoBlankLine(text)
    requires text != [] ==> text[|text| - 1] != '\n'
    ensures FindBlank(s) == |text|
  {
    forall k | 0 <= k < |text|
      ensures s[k] != '\n' || s[k + 1] != '\n'
    {
      assert s[k] == text[k];
      if k + 1 < |text| {
        assert s[k + 1] == text[k + 1];
      }
    }
    FindBlankIs(s, |text|);
  }

  /** Splits off a cue's text, up to the first empty line, and skips that line. */
  function ReadText(doc: string): (r: Option<(string, string)>)
    ensures r.Some? ==> |r.value.1| < |doc|
  {
    var i := FindBlank(doc);
    if i + 2 > |doc| then None else Some((doc[..i], doc[i + 2..]))
  }

  lemma ReadTextOf(text: string, rest: string)
    requires NoBlankLine(text) && (text != [] ==> text[|text| - 1] != '\n')
    ensures ReadText(text + "\n\n" + rest) == Some((text, rest))
  {
    var doc := text + "\n\n" + rest;
    FindBlankOf(doc, text, rest);
    assert doc[..|text|] == text && doc[|text| + 2..] == rest;
  }

  /** Splits off the text up to the first newline. */
  function ReadLine(doc: string): (r: Option<(string, string)>)
    ensures r.Some? ==> |r.value.1| < |doc|
  {
    var i := Find(doc, '\n');
    if i == |doc| then None else Some((doc[..i], doc[i + 1..]))
  }

  /**
    Reads one block (index line, timing line, text lines up to the first empty
    line, that empty line) and returns what follows it. The first text line
    may itself be empty: that is a cue with an empty text.
  */
  function ReadCue(doc: string): (r: Option<(Cue, string)>)
    ensures r.Some? ==> |r.value.1| < |doc|
  {
    match ReadLine(doc)
    case None => None
    case Some((indexLine, afterIndex)) =>
      match ReadLine(afterIndex)
      case None => None
      case Some((timing, afterTiming)) =>
        match ReadText(afterTiming)
        case None => None
        case Some((text, rest)) =>
          if !IsNumeric(indexLine) then None
          else
            match ReadTiming(timing)
            case None => None
            case Some((a, b)) => Some((Cue(DigitsValue(indexLine), a, b, text), rest))
  }

  /** Reads a whole document as a sequence of blocks. */
  function ReadSrt(doc: string): Option<seq<Cue>>
    decreases |doc|
  {
    if doc == [] then Some([])
    else
      match ReadCue(doc)
      case None => None
      case Some((cue, rest)) =>
        match ReadSrt(rest)
        case None => None
        case Some(cues) => Some([cue] + cues)
  }

  lemma NoNewlineInDigits(s: string)
    requires AllDigits(s)
    ensures '\n' !in s && ' ' !in s
  {
    assert forall k :: 0 <= k < |s| ==> s[k] != '\n' && s[k] != ' ';
  }

  lemma NoSeparatorInTimestamp(ms: int)
    requires ms >= 0
    ensures '\n' !in FormatTimestamp(ms, true) && ' ' !in FormatTimestamp(ms, true)
  {
    TimestampChars(ms, true);
    var r := FormatTimestamp(ms, true);
    assert forall k :: 0 <= k < |r| ==> r[k] != '\n' && r[k] != ' ';
  }

  lemma ReadTimingOf(a: string, b: string)
    requires ' ' !in a && ParseTimestamp(a).Some? && ParseTimestamp(b).Some?
    ensures ReadTiming(a + " --> " + b) == Some((ParseTimestamp(a).value, ParseTimestamp(b).value))
  {
    var line := a + " --> " + b;
    assert line == a + [' '] + ("--> " + b);
    FindFirst(a, ' ', "--> " + b);
    var k := |a|;
    assert line[..k] == a;
    assert line[k..k + 5] == " --> ";
    assert line[k + 5..] == b;
  }

  lemma ReadLineOf(line: string, rest: string)
    requires '\n' !in line
    ensures ReadLine(line + "\n" + rest) == Some((line, rest))
  {
    var doc := line + "\n" + rest;
    assert doc == line + ['\n'] + rest;
    FindFirst(line, '\n', rest);
    assert doc[..|line|] == line && doc[|line| + 1..] == rest;
  }

  lemma ReadCueOf(idx: string, timing: string, text: string, rest: string)
    requires IsNumeric(idx) && '\n' !in timing
    requires NoBlankLine(text) && (text != [] ==> text[|text| - 1] != '\n')
    ensures ReadCue(idx + "\n" + timing + "\n" + text + "\n" + "\n" + rest) ==
      match ReadTiming(timing)
      case None => None
      case Some((a, b)) => Some((Cue(DigitsValue(idx), a, b, text), rest))
  {
    NoNewlineInDigits(idx);
    var afterTiming := text + "\n\n" + rest;
    var afterIndex := timing + "\n" + afterTiming;
    assert idx + "\n" + timing + "\n" + text + "\n" + "\n" + rest == idx + "\n" + afterIndex;
    ReadLineOf(idx, afterIndex);
    ReadLineOf(timing, afterTiming);
    ReadTextOf(text, rest);
  }

  /** A timing line built from two timestamps without spaces or newlines. */
  lemma TimingOf(a: string, b: string, x: nat, y: nat)
    requires ' ' !in a && '\n' !in a && '\n' !in b
    requires ParseTimestamp(a) == Some(x) && ParseTimestamp(b) == Some(y)
    ensures '\n' !in a + " --> " + b
    ensures ReadTiming(a + " --> " + b) == Some((x, y))
  {
    ReadTimingOf(a, b);
  }

  /** The timing line has no newline and reads back as the two times. */
  lemma TimingLineFacts(seg: Segment)
    requires WellTimed(seg)
    ensures '\n' !in TimingLine(seg)
    ensures ReadTiming(TimingLine(seg)) == Some((seg.start as nat, seg.end as nat))
  {
    NoSeparatorInTimestamp(seg.start);
    NoSeparatorInTimestamp(seg.end);
    ParseFormatTimestamp(seg.start, true);
    ParseFormatTimestamp(seg.end, true);
    TimingOf(FormatTimestamp(seg.start, true), FormatTimestamp(seg.end, true), seg.start, seg.end);
  }

  /** A block as written reads back as its cue, and reading stops right after it. */
  lemma ReadBlock(index: nat, seg: Segment, rest: string)
    requires WellTimed(seg) && NoBlankLine(CleanText(seg.text))
    ensures ReadCue(Block(index, seg) + rest)
      == Some((Cue(index, seg.start, seg.end, CleanText(seg.text)), rest))
  {
    TimingLineFacts(seg);
    assert IsSpace('\n');
    ReadCueOf(NatToString(index), TimingLine(seg), CleanText(seg.text), rest);
  }

  /** A text holding an empty line is cut short at that line. */
  lemma ReadTextCutShort(doc: string, text: string, rest: string)
    requires doc == text + "\n\n" + rest && !NoBlankLine(text)
    ensures ReadText(doc).Some? && |ReadText(doc).value.0| < |text|
  {
    var k :| 0 <= k < |text| - 1 && text[k] == '\n' && text[k + 1] == '\n';
    assert doc[k] == '\n' && doc[k + 1] == '\n';
    assert FindBlank(doc) <= k;
  }

  /** The text of a cue read after an index line and a timing line is the text `ReadText` finds. */
  lemma ReadCueText(idx: string, timing: string, text: string, rest: string)
    requires IsNumeric(idx) && '\n' !in timing
    ensures var r, t := ReadCue(idx + "\n" + timing + "\n" + text + "\n" + "\n" + rest), ReadText(text + "\n\n" + rest);
      r.Some? ==> t.Some? && r.value.0.text == t.value.0
  {
    NoNewlineInDigits(idx);
    var after := text + "\n\n" + rest;
    var afterIndex := timing + "\n" + after;
    assert idx + "\n" + timing + "\n" + text + "\n" + "\n" + rest == idx + "\n" + afterIndex;
    ReadLineOf(idx, afterIndex);
    ReadLineOf(timing, after);
  }

  /** A cleaned text holding an empty line is cut short there: the block does not read back as its cue. */
  lemma ReadBlockCutShort(index: nat, seg: Segment, rest: string)
    requires WellTimed(seg) && !NoBlankLine(CleanText(seg.text))
    ensures ReadCue(Block(index, seg) + rest)
      != Some((Cue(index, seg.start, seg.end, CleanText(seg.text)), rest))
  {
    var idx, timing, text := NatToString(index), TimingLine(seg), CleanText(seg.text);
    TimingLineFacts(seg);
    ReadCueText(idx, timing, text, rest);
    ReadTextCutShort(text + "\n\n" + rest, text, rest);
  }

  lemma SplitFirst<T>(xs: seq<T>, k: nat)
    requires k < |xs|
    ensures xs[k..] == [xs[k]] + xs[k + 1..]
  {
  }

  lemma ReadSrtStep(doc: string, cue: Cue, rest: string, cues: seq<Cue>)
    requires doc != [] && ReadCue(doc) == Some((cue, rest)) && ReadSrt(rest) == Some(cues)
    ensures ReadSrt(doc) == Some([cue] + cues)
  {
  }

  /** Reading every block from the k-th on gives the cues from the k-th on. */
  lemma {:induction false} ReadBlocksFrom(segments: seq<Segment>, k: nat)
    requires AllWellTimed(segments) && k <= |segments|
    requires forall n :: 0 <= n < |segments| ==> NoBlankLine(CleanText(segments[n].text))
    ensures ReadSrt(Concat(Blocks(segments)[k..])) == Some(Cues(segments)[k..])
    decreases |segments| - k
  {
    var blocks, cues := Blocks(segments), Cues(segments);
    if k == |segments| {
      assert blocks[k..] == [];
      assert cues[k..] == [];
    } else {
      ReadBlocksFrom(segments, k + 1);
      var block, later := blocks[k], Concat(blocks[k + 1..]);
      SplitFirst(blocks, k);
      ConcatCons(block, blocks[k + 1..]);
      assert block == Block(k + 1, segments[k]);
      ReadBlock(k + 1, segments[k], later);
      assert cues[k] == Cue(k + 1, segments[k].start, segments[k].end, CleanText(segments[k].text));
      ReadSrtStep(block + later, cues[k], later, cues[k + 1..]);
      SplitFirst(cues, k);
    }
  }

  /** A SubRip reader recovers from the file every cue, numbered 1..N in transcript order. */
  lemma ReadWrittenSrt(segments: seq<Segment>)
    requires AllWellTimed(segments)
    requires forall n :: 0 <= n < |segments| ==> NoBlankLine(CleanText(segments[n].text))
    ensures ReadSrt(Concat(Blocks(segments))) == Some(Cues(segments))
  {
    ReadBlocksFrom(segments, 0);
    assert Blocks(segments)[0..] == Blocks(segments);
    assert Cues(segments)[0..] == Cues(segments);
  }

  lemma BlocksAppend(segments: seq<Segment>, i: nat)
    requires AllWellTimed(segments) && i < |segments|
    ensures Concat(Blocks(segments[..i + 1])) == Concat(Blocks(segments[..i])) + Block(i + 1, segments[i])
  {
    var before, after := Blocks(segments[..i]), Blocks(segments[..i + 1]);
    var last := Block(i + 1, segments[i]);
    assert forall k :: 0 <= k < i ==> after[k] == before[k] by {
      assert forall k :: 0 <= k < i ==> segments[..i + 1][k] == segments[..i][k];
    }
    SeqSnoc(after, before, last);
    ConcatSnoc(after, before, last);
  }

  lemma SeqSnoc<T>(xs: seq<T>, init: seq<T>, last: T)
    requires |xs| == |init| + 1 && xs[|init|] == last
    requires forall k :: 0 <= k < |init| ==> xs[k] == init[k]
    ensures xs == init + [last]
  {
  }

  lemma ConcatSnoc(parts: seq<string>, init: seq<string>, last: string)
    requires parts == init + [last]
    ensures Concat(parts) == Concat(init) + last
  {
    assert parts[..|parts| - 1] == init;
  }

  /** `write_srt`: the loop over `enumerate(transcript, start=1)`, with the file as a string. */
  method WriteSrt(segments: seq<Segment>) returns (srt: string)
    requires AllWellTimed(segments)
    ensures srt == Concat(Blocks(segments))
    ensures (forall n :: 0 <= n < |segments| ==> NoBlankLine(CleanText(segments[n].text))) ==>
      ReadSrt(srt) == Some(Cues(segments))
  {
    srt := [];
    var i := 0;
    while i < |segments|
      invariant 0 <= i <= |segments|
      invariant srt == Concat(Blocks(segments[..i]))
    {
      BlocksAppend(segments, i);
      srt := srt + Block(i + 1, segments[i]);
      i := i + 1;
    }
    assert segments[..i] == segments;
    if forall n :: 0 <= n < |segments| ==> NoBlankLine(CleanText(segments[n].text)) {
      ReadWrittenSrt(segments);
    }
  }
}
