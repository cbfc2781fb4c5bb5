/**
 * The question-text parser: one question block, written as the question
 * text on its first non-blank line, one option per following line, and the
 * 1-based number of the correct option on the last line.
 */
module QuestionParser {
  import opened Wrappers
  import opened Text

  /** A parsed question: its text, its options in order, and the 0-based
      index of the correct option. */
  datatype Question = Question(questionText: string, options: seq<string>, correctOptionIndex: nat)

  const MinOptions: nat := 2
  const MaxOptions: nat := 10

  /** A line the parser keeps: non-empty, no white space at either end,
      and no line break inside. */
  predicate IsCleanLine(s: string) {
    s != [] && IsTrimmed(s) && '\n' !in s
  }

  /** What every successful parse returns: clean text and options, between
      2 and 10 options, and a correct index that names one of them. */
  predicate WellFormed(q: Question) {
    && IsCleanLine(q.questionText)
    && MinOptions <= |q.options| <= MaxOptions
    && (forall i :: 0 <= i < |q.options| ==> IsCleanLine(q.options[i]))
    && q.correctOptionIndex < |q.options|
  }

  /** The lines that are not blank, in their original order. */
  function NonBlankLines(lines: seq<string>): (r: seq<string>)
    ensures |r| <= |lines|
    ensures forall i :: 0 <= i < |r| ==> !IsBlank(r[i]) && r[i] in lines
  {
    if lines == [] then []
    else
      var rest := NonBlankLines(lines[1..]);
      assert lines == [lines[0]] + lines[1..];
      (if Trim(lines[0]) != [] then [lines[0]] else []) + rest
  }

  /** The filter acts line by line: a single line is kept exactly when it
      is not blank. */
  lemma NonBlankLinesOfOne(line: string)
    ensures NonBlankLines([line]) == (if IsBlank(line) then [] else [line])
  {
    assert [line][1..] == [];
  }

  /** The filter distributes over concatenation, so it keeps every
      non-blank line and keeps them in their order. */
  lemma {:induction false} NonBlankLinesAppend(a: seq<string>, b: seq<string>)
    ensures NonBlankLines(a + b) == NonBlankLines(a) + NonBlankLines(b)
  {
    if a == [] {
      assert a + b == b;
    } else {
      var head := if Trim(a[0]) != [] then [a[0]] else [];
      assert (a + b)[0] == a[0];
      assert (a + b)[1..] == a[1..] + b;
      NonBlankLinesAppend(a[1..], b);
      assert NonBlankLines(a + b) == head + (NonBlankLines(a[1..]) + NonBlankLines(b));
      assert head + (NonBlankLines(a[1..]) + NonBlankLines(b)) == (head + NonBlankLines(a[1..])) + NonBlankLines(b);
    }
  }

  lemma {:induction false} NonBlankLinesKeepsAll(lines: seq<string>)
    requires forall i :: 0 <= i < |lines| ==> !IsBlank(lines[i])
    ensures NonBlankLines(lines) == lines
  {
    if lines != [] {
      NonBlankLinesKeepsAll(lines[1..]);
    }
  }

  /** Every line trimmed, in order (`lines.map(l => l.trim())`). */
  function TrimAll(lines: seq<string>): (r: seq<string>)
    ensures |r| == |lines|
    ensures forall i :: 0 <= i < |lines| ==> r[i] == Trim(lines[i])
  {
    if lines == [] then [] else [Trim(lines[0])] + TrimAll(lines[1..])
  }

  /** The non-blank lines of a question block. */
  function QuestionLines(text: string): seq<string> {
    NonBlankLines(Split(Trim(text), '\n'))
  }

  /** The parser's acceptance rule on the non-blank lines: at least three of
      them, 2 to 10 option lines, and a last line whose leading number lies
      between 1 and the number of options. */
  predicate Accepts(lines: seq<string>) {
    && |lines| >= 3
    && MinOptions <= |lines| - 2 <= MaxOptions
    && ParseInt(lines[|lines| - 1]).Some?
    && 1 <= ParseInt(lines[|lines| - 1]).value <= |lines| - 2
  }

  /** `parseSingleQuestion(text)`; `None` stands for `null`. */
  function ParseSingleQuestion(text: string): (r: Option<Question>)
    ensures r.Some? <==> Accepts(QuestionLines(text))
    ensures r.Some? ==> WellFormed(r.value)
    ensures r.Some? ==> r.value == Accepted(QuestionLines(text))
  {
    var lines := QuestionLines(text);
    if |lines| < 3 then None
    else
      var correctOptionNumber := ParseInt(lines[|lines| - 1]);
      var optionCount := |lines| - 2;
      if || correctOptionNumber.None?
         || correctOptionNumber.value < 1
         || correctOptionNumber.value > optionCount
         || optionCount < MinOptions
         || optionCount > MaxOptions
      then None
      else
        AcceptedIsWellFormed(text);
        Some(Accepted(lines))
  }

  /** The question the parser builds from an accepted block: the first line
      trimmed, the middle lines trimmed and in order, and the number on the
      last line minus one. */
  function Accepted(lines: seq<string>): Question
    requires Accepts(lines)
  {
    Question(Trim(lines[0]), TrimAll(lines[1..|lines| - 1]), ParseInt(lines[|lines| - 1]).value - 1)
  }

  lemma AcceptedIsWellFormed(text: string)
    requires Accepts(QuestionLines(text))
    ensures WellFormed(Accepted(QuestionLines(text)))
  {
    CleanLineOfBlock(text, 0);
    forall i | 0 <= i < |Accepted(QuestionLines(text)).options|
      ensures IsCleanLine(Accepted(QuestionLines(text)).options[i])
    {
      AcceptedOptionIsClean(text, i);
    }
  }

  lemma AcceptedOptionIsClean(text: string, i: nat)
    requires Accepts(QuestionLines(text))
    requires i < |Accepted(QuestionLines(text)).options|
    ensures IsCleanLine(Accepted(QuestionLines(text)).options[i])
  {
    AcceptedOption(QuestionLines(text), i);
    CleanLineOfBlock(text, i + 1);
  }

  /** Option `i` of an accepted block is line `i + 1`, trimmed. */
  lemma AcceptedOption(lines: seq<string>, i: nat)
    requires Accepts(lines)
    requires i < |Accepted(lines).options|
    ensures Accepted(lines).options[i] == Trim(lines[i + 1])
  {
  }

  /** A trimmed non-blank line of the block is a clean line. */
  lemma CleanLineOfBlock(text: string, i: nat)
    requires i < |QuestionLines(text)|
    ensures IsCleanLine(Trim(QuestionLines(text)[i]))
  {
    var line := QuestionLines(text)[i];
    assert line in Split(Trim(text), '\n');
    TrimKeepsNoBreak(line);
  }

  lemma TrimKeepsNoBreak(s: string)
    requires '\n' !in s
    ensures '\n' !in Trim(s)
  {
    var t := TrimStart(s);
    assert '\n' !in t by {
      assert forall k :: 0 <= k < |t| ==> t[k] == s[|s| - |t| + k];
    }
    var r := TrimEnd(t);
    assert forall k :: 0 <= k < |r| ==> r[k] == t[k];
  }

  /** The lines of a question in the block format the parser reads. */
  function FormatLines(q: Question): seq<string> {
    [q.questionText] + q.options + [NatToDecimal(q.correctOptionIndex + 1)]
  }

  /** The text of a question in the block format the parser reads. */
  function FormatQuestion(q: Question): string {
    Join(FormatLines(q), '\n')
  }

  lemma {:induction false} JoinLast(parts: seq<string>, sep: char)
    requires |parts| > 0 && parts[|parts| - 1] != []
    ensures var s := Join(parts, sep); |s| > 0 && s[|s| - 1] == parts[|parts| - 1][|parts[|parts| - 1]| - 1]
  {
    if |parts| > 1 {
      JoinLast(parts[1..], sep);
    }
  }

  lemma FormatLineIsClean(q: Question, i: nat)
    requires WellFormed(q)
    requires i < |FormatLines(q)|
    ensures var line := FormatLines(q)[i]; line != [] && '\n' !in line && !IsSpace(line[0]) && !IsBlank(line)
  {
    var parts := FormatLines(q);
    if i == |parts| - 1 {
      var num := NatToDecimal(q.correctOptionIndex + 1);
      assert parts[i] == num;
      assert forall k :: 0 <= k < |num| ==> IsDigit(num[k]);
    } else if i > 0 {
      assert parts[i] == q.options[i - 1];
    }
  }

  /** The block text of a well-formed question splits back into its lines. */
  lemma QuestionLinesOfFormat(q: Question)
    requires WellFormed(q)
    ensures QuestionLines(FormatQuestion(q)) == FormatLines(q)
  {
    var parts := FormatLines(q);
    var text := FormatQuestion(q);
    forall i | 0 <= i < |parts| ensures '\n' !in parts[i] && !IsBlank(parts[i]) {
      FormatLineIsClean(q, i);
    }
    FormatLineIsClean(q, 0);
    FormatLineIsClean(q, |parts| - 1);
    assert |text| > 0 && text[0] == parts[0][0];
    JoinLast(parts, '\n');
    var last := parts[|parts| - 1];
    assert IsDigit(last[|last| - 1]);
    assert IsTrimmed(text);
    TrimOfTrimmed(text);
    SplitJoin(parts, '\n');
    NonBlankLinesKeepsAll(parts);
  }

  lemma {:induction false} TrimAllOfClean(lines: seq<string>)
    requires forall i :: 0 <= i < |lines| ==> IsCleanLine(lines[i])
    ensures TrimAll(lines) == lines
  {
    if lines != [] {
      TrimOfTrimmed(lines[0]);
      TrimAllOfClean(lines[1..]);
    }
  }

  lemma AcceptedOfFormat(q: Question)
    requires WellFormed(q)
    ensures Accepts(FormatLines(q)) && Accepted(FormatLines(q)) == q
  {
    var parts := FormatLines(q);
    var n := q.correctOptionIndex + 1;
    var last := NatToDecimal(n);
    assert parts[|parts| - 1] == last;
    assert parts[0] == q.questionText;
    assert parts[1..|parts| - 1] == q.options;
    LastLineReadsBack(n);
    assert ParseInt(parts[|parts| - 1]) == Some(n as int);
    assert Accepts(parts);
    TrimOfTrimmed(q.questionText);
    TrimAllOfClean(q.options);
    assert Trim(parts[0]) == q.questionText;
    assert TrimAll(parts[1..|parts| - 1]) == q.options;
  }

  lemma LastLineReadsBack(n: nat)
    ensures ParseInt(NatToDecimal(n)) == Some(n as int)
  {
    var d := NatToDecimal(n);
    assert IsDigit(d[0]);
    assert [] + d == d && d + [] == d;
    TrimStartSkipsBlank([], d);
    ParseSignedOfDigits(d, []);
  }

  /** Parsing the block text of a well-formed question gives the question back. */
  lemma ParseFormatRoundTrip(q: Question)
    requires WellFormed(q)
    ensures ParseSingleQuestion(FormatQuestion(q)) == Some(q)
  {
    QuestionLinesOfFormat(q);
    AcceptedOfFormat(q);
  }
}
