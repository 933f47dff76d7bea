/** `parseTextQuestion`: one question block in, one positional row of fields out.
    The kind is chosen by a case-sensitive leading tag, checked in the source's order
    (MC, MA-but-not-MAT, TF, SR, ORD, MAT); each kind has its own extraction rules. */
module Parser {
  import opened Wrappers
  import opened Text
  import opened Scan

  /** The six question kinds the tool recognises. */
  datatype Kind = MultipleChoice | MultipleAnswer | TrueFalse | ShortReply | Ordering | Matching

  /** The tag a block of each kind starts with; it is also the first field of the row. */
  function Tag(k: Kind): string {
    match k
    case MultipleChoice => "MC"
    case MultipleAnswer => "MA"
    case TrueFalse => "TF"
    case ShortReply => "SR"
    case Ordering => "ORD"
    case Matching => "MAT"
  }

  /** The three outcomes of parsing a block: a row of fields, a raised exception (an explicit
      `raise`, or `.group()` called on a failed search), or falling off the end (`None`). */
  datatype Result = Row(fields: seq<string>) | Fail(msg: string) | NoRow

  const NoOptionsMsg := "No options starting with @@ found."
  const NoAnswersMsg := "No answers starting with >> found."
  const NoTrueFalseMsg := "No true/false answer starting with >> found."
  const NotTrueFalseMsg := "The answer needs to be 'true' or 'false'."
  const CountMismatchMsg := "Number of choices with @@ does not equal number of answers with >>."
  /** What Python reports when `.group()` is called on the `None` of a failed search. */
  const NoMatchMsg := "'NoneType' object has no attribute 'group'"

  /** The if/elif chain of `parseTextQuestion`: the first tag test that succeeds decides. */
  function Classify(s: string): (r: Option<Kind>)
    ensures r.Some? ==> StartsWith(s, Tag(r.value))
    ensures r.None? <==> forall k :: !StartsWith(s, Tag(k))
    ensures StartsWith(s, "MAT") ==> r == Some(Matching)
  {
    assert StartsWith(s, "MAT") ==> StartsWith(s, "MA") && s[1] != 'C';
    if StartsWith(s, "MC") then Some(MultipleChoice)
    else if StartsWith(s, "MA") && !StartsWith(s, "MAT") then Some(MultipleAnswer)
    else if StartsWith(s, "TF") then Some(TrueFalse)
    else if StartsWith(s, "SR") then Some(ShortReply)
    else if StartsWith(s, "ORD") then Some(Ordering)
    else if StartsWith(s, "MAT") then Some(Matching)
    else None
  }

  /** The order of the tests only matters for MA and MAT: a block is of kind `k` exactly when it
      starts with `Tag(k)`, except that a block starting with `MAT` is never multiple-answer. */
  lemma ClassifyByPrefix(s: string, k: Kind)
    ensures Classify(s) == Some(k) <==> StartsWith(s, Tag(k)) && (k == MultipleAnswer ==> !StartsWith(s, "MAT"))
  {
    if StartsWith(s, Tag(k)) {
      assert s[0] == Tag(k)[0] && s[1] == Tag(k)[1];
    }
  }

  /** Label of an option in the row. */
  function Mark(correct: bool): string {
    if correct then "correct" else "incorrect"
  }

  /** The question field: the lazily matched span after the tag, normalised. The search cannot
      fail once `stop in s` holds, so Python's `.group(1)` never meets `None` here. */
  function QuestionField(s: string, tag: string, stop: string): (q: string)
    requires StartsWith(s, tag) && |stop| > 0
    requires stop[0] !in tag && !IsDigit(stop[0]) && stop[0] != '.'
    requires Contains(s, stop)
    ensures QuestionSpan(s, |tag|, stop).Some?
    ensures q == NormalizeText(QuestionSpan(s, |tag|, stop).value)
    ensures CleanText(q)
  {
    SpanFoundAfterTag(s, tag, stop);
    NormalizeText(QuestionSpan(s, |tag|, stop).value)
  }

  /** `[xs[0], ys[0], xs[1], ys[1], ...]`: the two-fields-per-option tail of a row. */
  function Interleave(xs: seq<string>, ys: seq<string>): (r: seq<string>)
    requires |xs| == |ys|
    ensures |r| == 2 * |xs|
  {
    if |xs| == 0 then [] else [xs[0], ys[0]] + Interleave(xs[1..], ys[1..])
  }

  /** Entry i of each list lands at positions 2i and 2i+1 of the interleaving. */
  lemma {:induction false} InterleaveAt(xs: seq<string>, ys: seq<string>, i: nat)
    requires |xs| == |ys| && i < |xs|
    ensures Interleave(xs, ys)[2 * i] == xs[i] && Interleave(xs, ys)[2 * i + 1] == ys[i]
    decreases i
  {
    var rest := Interleave(xs[1..], ys[1..]);
    assert Interleave(xs, ys) == [xs[0], ys[0]] + rest;
    if i > 0 {
      InterleaveAt(xs[1..], ys[1..], i - 1);
      assert rest[2 * (i - 1)] == xs[i] && rest[2 * (i - 1) + 1] == ys[i];
    }
  }

  /** `[f(x) for x in xs]`. */
  function MapStrings(xs: seq<string>, f: string -> string): (r: seq<string>)
    ensures |r| == |xs|
    ensures forall i :: 0 <= i < |xs| ==> r[i] == f(xs[i])
  {
    if |xs| == 0 then [] else [f(xs[0])] + MapStrings(xs[1..], f)
  }

  /** Entry 2i+2 and 2i+3 of a row made of a tag, a question and an interleaving. */
  lemma RowPairAt(tag: string, q: string, xs: seq<string>, ys: seq<string>, i: nat)
    requires |xs| == |ys| && i < |xs|
    ensures ([tag, q] + Interleave(xs, ys))[2 + 2 * i] == xs[i]
    ensures ([tag, q] + Interleave(xs, ys))[3 + 2 * i] == ys[i]
  {
    InterleaveAt(xs, ys, i);
  }

  /** The answer value a multiple-choice block is scored against: the first `>>` line's. */
  function McAnswer(s: string): string
    requires |MarkerLines(s, ">>")| > 0
  {
    AnswerValue(MarkerLines(s, ">>")[0])
  }

  /** Multiple choice (lines 15-32). Fails when `@@` or `>>` is not in the block, or when no line
      starts with `>>` and one more character. Otherwise the row holds the tag, the question and
      two fields per `@@` line (see `McOption`). */
  function ParseMC(s: string): (r: Result)
    requires StartsWith(s, "MC")
    ensures !r.NoRow?
    ensures r.Fail? <==> !Contains(s, "@@") || !Contains(s, ">>") || |MarkerLines(s, ">>")| == 0
    ensures r.Row? ==>
      && |r.fields| == 2 + 2 * |MarkerLines(s, "@@")|
      && r.fields[0] == "MC"
      && r.fields[1] == QuestionField(s, "MC", "@@")
  {
    if !Contains(s, "@@") then Fail(NoOptionsMsg)
    else if !Contains(s, ">>") then Fail(NoAnswersMsg)
    else
      var question := QuestionField(s, "MC", "@@");
      var answerLines := MarkerLines(s, ">>");
      if |answerLines| == 0 then Fail(NoMatchMsg)
      else
        var options := MarkerLines(s, "@@");
        var answer := AnswerValue(answerLines[0]);
        var tail := Interleave(MapStrings(options, ChoiceText),
                               MapStrings(options, o => Mark(StartsWith(o, "@@" + answer))));
        TwoThenTail("MC", question, tail);
        Row(["MC", question] + tail)
  }

  /** Option i of a multiple-choice row: the `@@` line's text, then `correct` exactly when the line
      starts with `@@` followed by the answer value (a prefix test, not label equality). */
  lemma McOption(s: string, i: nat)
    requires StartsWith(s, "MC") && Contains(s, "@@") && Contains(s, ">>")
    requires |MarkerLines(s, ">>")| > 0 && i < |MarkerLines(s, "@@")|
    ensures ParseMC(s).Row?
    ensures ParseMC(s).fields[2 + 2 * i] == ChoiceText(MarkerLines(s, "@@")[i])
    ensures ParseMC(s).fields[3 + 2 * i] == Mark(StartsWith(MarkerLines(s, "@@")[i], "@@" + McAnswer(s)))
  {
    var options := MarkerLines(s, "@@");
    var answer := McAnswer(s);
    RowPairAt("MC", QuestionField(s, "MC", "@@"), MapStrings(options, ChoiceText),
              MapStrings(options, o => Mark(StartsWith(o, "@@" + answer))), i);
  }

  /** The multiple-answer values: `>>` lines with `>` and then spaces stripped, in order. */
  function MaAnswers(s: string): (a: seq<string>)
    ensures |a| == |MarkerLines(s, ">>")|
    ensures forall j :: 0 <= j < |a| ==> a[j] == SpaceStrippedAnswer(MarkerLines(s, ">>")[j])
  {
    MapStrings(MarkerLines(s, ">>"), SpaceStrippedAnswer)
  }

  /** `correct` when the option line's letter label is one of the answer values. */
  function LabelMark(answers: seq<string>): string -> string {
    o => Mark(ChoiceCode(o).Some? && ChoiceCode(o).value in answers)
  }

  /** An option written `@@`, a letter label, whitespace and text is marked `correct` exactly when
      the label is one of the answers, and `incorrect` otherwise; the text plays no part. */
  lemma LabelMarkOfLabelled(answers: seq<string>, code: string, sep: char, text: string)
    requires |code| > 0 && forall k :: 0 <= k < |code| ==> IsAsciiLetter(code[k])
    requires IsSpace(sep)
    ensures LabelMark(answers)("@@" + code + [sep] + text) == "correct" <==> code in answers
    ensures LabelMark(answers)("@@" + code + [sep] + text) == "incorrect" <==> code !in answers
  {
    var line := "@@" + code + [sep] + text;
    ChoiceTextOfLabelled(code, sep, text);
    assert LabelMark(answers)(line) == Mark(code in answers);
    assert "correct"[0] != "incorrect"[0];
  }

  /** Multiple answer (lines 36-58). Fails when `@@` or `>>` is not in the block, or when an
      `@@` line has no letter right after `@@`. Otherwise the row holds the tag, the question and
      two fields per `@@` line (see `MaOption`). */
  function ParseMA(s: string): (r: Result)
    requires StartsWith(s, "MA")
    ensures !r.NoRow?
    ensures r.Fail? <==>
      || !Contains(s, "@@") || !Contains(s, ">>")
      || exists i :: 0 <= i < |MarkerLines(s, "@@")| && !IsAsciiLetter(MarkerLines(s, "@@")[i][2])
    ensures r.Row? ==>
      && |r.fields| == 2 + 2 * |MarkerLines(s, "@@")|
      && r.fields[0] == "MA"
      && r.fields[1] == QuestionField(s, "MA", "@@")
  {
    if !Contains(s, "@@") then Fail(NoOptionsMsg)
    else if !Contains(s, ">>") then Fail(NoAnswersMsg)
    else
      var question := QuestionField(s, "MA", "@@");
      var options := MarkerLines(s, "@@");
      LetterlessOption(options);
      if exists i :: 0 <= i < |options| && ChoiceCode(options[i]).None? then Fail(NoMatchMsg)
      else
        var tail := Interleave(MapStrings(options, ChoiceText), MapStrings(options, LabelMark(MaAnswers(s))));
        TwoThenTail("MA", question, tail);
        Row(["MA", question] + tail)
  }

  /** The label search fails on some `@@` line exactly when some `@@` line has no letter right
      after the marker. */
  lemma LetterlessOption(options: seq<string>)
    requires forall k :: 0 <= k < |options| ==> IsMarkerLine(options[k], "@@") && |options[k]| > 2
    ensures (exists i :: 0 <= i < |options| && ChoiceCode(options[i]).None?) <==>
            (exists i :: 0 <= i < |options| && !IsAsciiLetter(options[i][2]))
  {
  }

  /** A multiple-answer block whose every `@@` line has a letter label gives the tag, the question
      and the interleaved option texts and marks. */
  lemma MaRow(s: string)
    requires StartsWith(s, "MA") && Contains(s, "@@") && Contains(s, ">>")
    requires forall k :: 0 <= k < |MarkerLines(s, "@@")| ==> IsAsciiLetter(MarkerLines(s, "@@")[k][2])
    ensures ParseMA(s) == Row(["MA", QuestionField(s, "MA", "@@")] +
      Interleave(MapStrings(MarkerLines(s, "@@"), ChoiceText), MapStrings(MarkerLines(s, "@@"), LabelMark(MaAnswers(s)))))
  {
    LetterlessOption(MarkerLines(s, "@@"));
  }

  /** Option i of a multiple-answer row: the `@@` line's text, then `correct` exactly when its
      letter label equals one of the `>>` values (with `>` and spaces stripped). */
  lemma MaOption(s: string, i: nat)
    requires StartsWith(s, "MA") && Contains(s, "@@") && Contains(s, ">>")
    requires forall k :: 0 <= k < |MarkerLines(s, "@@")| ==> IsAsciiLetter(MarkerLines(s, "@@")[k][2])
    requires i < |MarkerLines(s, "@@")|
    ensures ParseMA(s).Row?
    ensures ChoiceCode(MarkerLines(s, "@@")[i]).Some?
    ensures ParseMA(s).fields[2 + 2 * i] == ChoiceText(MarkerLines(s, "@@")[i])
    ensures ParseMA(s).fields[3 + 2 * i] == Mark(ChoiceCode(MarkerLines(s, "@@")[i]).value in MaAnswers(s))
  {
    var question := QuestionField(s, "MA", "@@");
    var options := MarkerLines(s, "@@");
    var xs, ys := MapStrings(options, ChoiceText), MapStrings(options, LabelMark(MaAnswers(s)));
    MaRow(s);
    assert ChoiceCode(options[i]).Some?;
    RowPairAt("MA", question, xs, ys, i);
  }

  /** Comparing lower-cased text with a lower-case word is comparing up to case. */
  lemma LowerIsCaseInsensitive(a: string, w: string)
    requires Lower(w) == w
    ensures Lower(a) == w <==> EqualIgnoringCase(a, w)
  {
    if EqualIgnoringCase(a, w) {
      assert forall i :: 0 <= i < |a| ==> Lower(a)[i] == LowerChar(w[i]) == Lower(w)[i] == w[i];
    }
  }

  /** The two truth words are already lower case. */
  lemma LowerWords()
    ensures Lower("true") == "true" && Lower("false") == "false"
  {
  }

  /** `answer.strip('>>').strip().lower()` when that is `true` or `false`; `None` otherwise. */
  function TrueFalseValue(line: string): (r: Option<string>)
    ensures r.None? <==>
      !(EqualIgnoringCase(AnswerValue(line), "true") || EqualIgnoringCase(AnswerValue(line), "false"))
    ensures r.Some? ==> (r.value == "true" || r.value == "false") && EqualIgnoringCase(r.value, AnswerValue(line))
  {
    var answer := Lower(AnswerValue(line));
    LowerWords();
    LowerIsCaseInsensitive(AnswerValue(line), "true");
    LowerIsCaseInsensitive(AnswerValue(line), "false");
    if answer == "true" || answer == "false" then Some(answer) else None
  }

  /** True/false (lines 62-73). Fails when `>>` is not in the block, when no line starts with `>>`
      and one more character, or when the first answer value is neither `true` nor `false` in any
      letter case. Otherwise the row is the tag, the question and the lower-cased answer. */
  function ParseTF(s: string): (r: Result)
    requires StartsWith(s, "TF")
    ensures !r.NoRow?
    ensures r.Fail? <==>
      || !Contains(s, ">>") || |MarkerLines(s, ">>")| == 0
      || TrueFalseValue(MarkerLines(s, ">>")[0]).None?
    ensures r.Row? ==>
      && Contains(s, ">>")
      && |r.fields| == 3
      && r.fields[0] == "TF"
      && r.fields[1] == QuestionField(s, "TF", ">>")
      && (r.fields[2] == "true" || r.fields[2] == "false")
      && EqualIgnoringCase(r.fields[2], AnswerValue(MarkerLines(s, ">>")[0]))
  {
    if !Contains(s, ">>") then Fail(NoTrueFalseMsg)
    else
      var question := QuestionField(s, "TF", ">>");
      var answerLines := MarkerLines(s, ">>");
      if |answerLines| == 0 then Fail(NoMatchMsg)
      else
        match TrueFalseValue(answerLines[0])
        case None => Fail(NotTrueFalseMsg)
        case Some(answer) => Row(["TF", question, answer])
  }

  /** Short reply (lines 76-81). Never fails; the question is only the rest of the first line,
      because `.` does not match a line break. */
  function ParseSR(s: string): (r: Result)
    requires StartsWith(s, "SR")
    ensures r.Row? && |r.fields| == 2 && r.fields[0] == "SR" && CleanText(r.fields[1])
    ensures r.fields[1] == NormalizeText(LineRest(s, TagEnd(s, 2)))
  {
    Row(["SR", NormalizeText(LineRest(s, TagEnd(s, 2)))])
  }

  /** A run of characters is measured the same in a text and in any longer text it starts,
      as long as the character after the shorter text also ends the run. */
  lemma {:induction false} RunEndPrefix(a: string, s: string, i: nat, p: char -> bool)
    requires i <= |a| <= |s| && s[..|a|] == a
    requires |a| < |s| ==> !p(s[|a|])
    ensures RunEnd(a, i, p) == RunEnd(s, i, p)
    decreases |a| - i
  {
    if i < |a| {
      assert s[i] == a[i];
      RunEndPrefix(a, s, i + 1, p);
    }
  }

  /** Everything after the first line break of a short-reply block is ignored. */
  lemma ShortReplyIgnoresLaterLines(first: string, rest: string)
    requires StartsWith(first, "SR")
    requires forall k :: 0 <= k < |first| ==> first[k] != '\n'
    ensures ParseSR(first + "\n" + rest) == ParseSR(first)
  {
    var s := first + "\n" + rest;
    assert s[..|first|] == first;
    assert TagEnd(s, 2) == TagEnd(first, 2) by {
      RunEndPrefix(first, s, 2, IsDigit);
    }
    var p := TagEnd(first, 2);
    var a := LineRest(first, p);
    var b := LineRest(s, p);
    assert p + |a| == |first|;
    assert s[|first|] == '\n';
    assert forall k :: p <= k < |first| ==> s[k] == first[k] && s[k] != '\n';
    assert p + |b| <= |first| by {
      assert forall k :: 0 <= k < |b| ==> b[k] == s[p + k];
    }
    assert p + |b| == |first|;
    assert b == a;
  }

  /** Ordering (lines 85-95). Fails only when `>>` is not in the block. Otherwise every `>>`
      line's value follows the question, in the order the lines appear. */
  function ParseORD(s: string): (r: Result)
    requires StartsWith(s, "ORD")
    ensures !r.NoRow?
    ensures r.Fail? <==> !Contains(s, ">>")
    ensures r.Row? ==>
      && |r.fields| == 2 + |MarkerLines(s, ">>")|
      && r.fields[0] == "ORD"
      && r.fields[1] == QuestionField(s, "ORD", ">>")
      && forall i :: 0 <= i < |MarkerLines(s, ">>")| ==> r.fields[2 + i] == AnswerValue(MarkerLines(s, ">>")[i])
  {
    if !Contains(s, ">>") then Fail(NoAnswersMsg)
    else
      var question := QuestionField(s, "ORD", ">>");
      var answers := MapStrings(MarkerLines(s, ">>"), AnswerValue);
      TwoThenTail("ORD", question, answers);
      Row(["ORD", question] + answers)
  }

  /** Where the fields of a row made of two leading fields and a tail sit. */
  lemma TwoThenTail(x: string, y: string, tail: seq<string>)
    ensures |[x, y] + tail| == 2 + |tail|
    ensures ([x, y] + tail)[0] == x && ([x, y] + tail)[1] == y
    ensures forall i :: 0 <= i < |tail| ==> ([x, y] + tail)[2 + i] == tail[i]
  {
  }

  /** Matching (lines 99-116). Fails when `@@` or `>>` is not in the block or the numbers of
      `@@` and `>>` lines differ. Otherwise the row holds the tag, the question and one item and
      one answer per pair (see `MatPair`). */
  function ParseMAT(s: string): (r: Result)
    requires StartsWith(s, "MAT")
    ensures !r.NoRow?
    ensures r.Fail? <==>
      !Contains(s, "@@") || !Contains(s, ">>") || |MarkerLines(s, "@@")| != |MarkerLines(s, ">>")|
    ensures r.Row? ==>
      && |r.fields| == 2 + 2 * |MarkerLines(s, "@@")|
      && r.fields[0] == "MAT"
      && r.fields[1] == QuestionField(s, "MAT", "@@")
  {
    if !Contains(s, "@@") then Fail(NoOptionsMsg)
    else if !Contains(s, ">>") then Fail(NoAnswersMsg)
    else
      var question := QuestionField(s, "MAT", "@@");
      var items := MarkerLines(s, "@@");
      var answerLines := MarkerLines(s, ">>");
      if |items| != |answerLines| then Fail(CountMismatchMsg)
      else
        var tail := Interleave(MapStrings(items, MatchItem), MapStrings(answerLines, AnswerValue));
        TwoThenTail("MAT", question, tail);
        Row(["MAT", question] + tail)
  }

  /** Pair i of a matching row: item i (`@` and whitespace stripped), then answer i, by position only. */
  lemma MatPair(s: string, i: nat)
    requires StartsWith(s, "MAT") && Contains(s, "@@") && Contains(s, ">>")
    requires |MarkerLines(s, "@@")| == |MarkerLines(s, ">>")| && i < |MarkerLines(s, "@@")|
    ensures ParseMAT(s).Row?
    ensures ParseMAT(s).fields[2 + 2 * i] == MatchItem(MarkerLines(s, "@@")[i])
    ensures ParseMAT(s).fields[3 + 2 * i] == AnswerValue(MarkerLines(s, ">>")[i])
  {
    RowPairAt("MAT", QuestionField(s, "MAT", "@@"), MapStrings(MarkerLines(s, "@@"), MatchItem),
              MapStrings(MarkerLines(s, ">>"), AnswerValue), i);
  }

  /** `parseTextQuestion(problem)`. A block with none of the six tags yields no row; every row
      starts with the tag of the block's kind and a clean, one-line question text. */
  function ParseTextQuestion(s: string): (r: Result)
    ensures r.NoRow? <==> Classify(s).None?
    ensures r.NoRow? <==> forall k :: !StartsWith(s, Tag(k))
    ensures r.Row? ==> |r.fields| >= 2 && r.fields[0] == Tag(Classify(s).value) && CleanText(r.fields[1])
    ensures StartsWith(s, "MAT") ==> r == ParseMAT(s)
  {
    match Classify(s)
    case None => NoRow
    case Some(MultipleChoice) => ParseMC(s)
    case Some(MultipleAnswer) => ParseMA(s)
    case Some(TrueFalse) => ParseTF(s)
    case Some(ShortReply) => ParseSR(s)
    case Some(Ordering) => ParseORD(s)
    case Some(Matching) => ParseMAT(s)
  }

  /** A block starting with `MAT` is always parsed as a matching question. */
  lemma MatchingBeforeMultipleAnswer(s: string)
    requires StartsWith(s, "MAT")
    ensures ParseTextQuestion(s) == ParseMAT(s)
  {
    assert Classify(s) == Some(Matching);
  }

  /** On well-formed input the prefix test of multiple choice agrees with label equality: when
      option line i is `@@`, one letter, then whitespace, and the answer is one character,
      option i is `correct` exactly when its label is the answer. */
  lemma SingleLetterLabelsMatchByEquality(s: string, i: nat)
    requires StartsWith(s, "MC") && Contains(s, "@@") && Contains(s, ">>")
    requires |MarkerLines(s, ">>")| > 0 && i < |MarkerLines(s, "@@")|
    requires |MarkerLines(s, "@@")[i]| > 3
    requires IsAsciiLetter(MarkerLines(s, "@@")[i][2]) && IsSpace(MarkerLines(s, "@@")[i][3])
    requires |McAnswer(s)| == 1
    ensures ParseMC(s).fields[3 + 2 * i] == "correct" <==> ChoiceCode(MarkerLines(s, "@@")[i]) == Some(McAnswer(s))
  {
    var line := MarkerLines(s, "@@")[i];
    var answer := McAnswer(s);
    McOption(s, i);
    SingleLetterLabel(line, answer);
  }
}
