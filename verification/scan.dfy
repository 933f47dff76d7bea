/** The handful of regular expressions `parseTextQuestion` uses, each written out as a
    scanner with the exact semantics of Python's `re` for that one pattern:
    - `^TAG(?:\d+)?\.?([\s\S]*?)(?=STOP)`  : QuestionSpan
    - `^SR(?:\d+)?\.?(.*)`                 : LineRest after TagEnd
    - `re.findall(r'^M[^\n]+', s, re.M)`   : MarkerLines
    - `re.search(r'^@@([a-zA-Z]+)', line)` : ChoiceCode
    - `re.sub(r'^@@[a-zA-Z]+\s', '', line)`: ChoiceText (followed by `strip()`) */
module Scan {
  import opened Wrappers
  import opened Text

  /** End of the maximal run of characters satisfying `p` that starts at `i`. */
  function RunEnd(s: string, i: nat, p: char -> bool): (k: nat)
    requires i <= |s|
    ensures i <= k <= |s|
    ensures forall x :: i <= x < k ==> p(s[x])
    ensures k == |s| || !p(s[k])
    decreases |s| - i
  {
    if i < |s| && p(s[i]) then RunEnd(s, i + 1, p) else i
  }

  /** Where the question text starts: after the tag, the greedy `(?:\d+)?` and the optional `\.?`. */
  function TagEnd(s: string, tagLen: nat): (p: nat)
    requires tagLen <= |s|
    ensures tagLen <= p <= |s|
    ensures forall k :: tagLen <= k < p ==> IsDigit(s[k]) || s[k] == '.'
    ensures var d := RunEnd(s, tagLen, IsDigit);
            || (d < |s| && s[d] == '.' && p == d + 1)
            || ((d == |s| || s[d] != '.') && p == d)
  {
    var d := RunEnd(s, tagLen, IsDigit);
    if d < |s| && s[d] == '.' then d + 1 else d
  }

  /** `span` is what the lazy group `([\s\S]*?)(?=stop)` captures from `from`:
      it is followed by `stop`, and `stop` starts nowhere inside it. */
  ghost predicate LazySpan(s: string, from: nat, stop: string, span: string) {
    && from + |span| <= |s|
    && s[from..from + |span|] == span
    && OccursAt(s, stop, from + |span|)
    && forall j :: from <= j < from + |span| ==> !OccursAt(s, stop, j)
  }

  /** `re.search(r'^TAG(?:\d+)?\.?([\s\S]*?)(?=STOP)', s).group(1)` for a block that starts
      with a tag of length `tagLen`; `None` when the search fails. */
  function QuestionSpan(s: string, tagLen: nat, stop: string): (r: Option<string>)
    requires tagLen <= |s|
    ensures r.Some? ==> LazySpan(s, TagEnd(s, tagLen), stop, r.value)
    ensures r.None? ==> forall j :: TagEnd(s, tagLen) <= j ==> !OccursAt(s, stop, j)
  {
    var p := TagEnd(s, tagLen);
    match IndexOf(s, stop, p)
    case None => None
    case Some(q) => Some(s[p..q])
  }

  /** Once `stop in s` holds, the question search cannot fail: the tag, its digits and its dot
      contain no character that starts `stop`, so the first `stop` lies after them. */
  lemma SpanFoundAfterTag(s: string, tag: string, stop: string)
    requires StartsWith(s, tag) && |stop| > 0
    requires stop[0] !in tag && !IsDigit(stop[0]) && stop[0] != '.'
    requires Contains(s, stop)
    ensures QuestionSpan(s, |tag|, stop).Some?
  {
    var p := TagEnd(s, |tag|);
    var i :| 0 <= i <= |s| - |stop| && OccursAt(s, stop, i);
    assert s[i] == stop[0] by {
      assert s[i..i + |stop|][0] == stop[0];
    }
    assert p <= i;
  }

  /** `(.*)` without DOTALL: the rest of the line that starts at `from`. */
  function LineRest(s: string, from: nat): (r: string)
    requires from <= |s|
    ensures from + |r| <= |s| && r == s[from..from + |r|]
    ensures forall k :: 0 <= k < |r| ==> r[k] != '\n'
    ensures from + |r| == |s| || s[from + |r|] == '\n'
  {
    s[from..RunEnd(s, from, c => c != '\n')]
  }

  /** A well-formed question field: one line, no surrounding whitespace. */
  predicate CleanText(q: string) {
    && (forall k :: 0 <= k < |q| ==> q[k] != '\n')
    && (|q| > 0 ==> !IsSpace(q[0]) && !IsSpace(q[|q| - 1]))
  }

  /** `q` is the slice of `span` starting at `i` with each line break turned into a space, and every
      character of `span` outside that slice is whitespace. */
  predicate FlatCore(span: string, q: string, i: nat) {
    && i + |q| <= |span|
    && (forall k :: 0 <= k < |q| ==> q[k] == (if span[i + k] == '\n' then ' ' else span[i + k]))
    && (forall k :: 0 <= k < |span| && !(i <= k < i + |q|) ==> IsSpace(span[k]))
  }

  /** `text.replace('\n', ' ').strip()`: how every question text is normalised. */
  function NormalizeText(span: string): (q: string)
    ensures |q| <= |span|
    ensures CleanText(q)
    ensures exists i: nat :: FlatCore(span, q, i)
  {
    var flat := ReplaceChar(span, '\n', ' ');
    var q := Strip(flat, Whitespace);
    StrippedFlatCore(span, flat, q);
    q
  }

  /** The whitespace strip of the flattened span is a flattened slice of it. */
  lemma StrippedFlatCore(span: string, flat: string, q: string)
    requires flat == ReplaceChar(span, '\n', ' ') && q == Strip(flat, Whitespace)
    ensures CleanText(q)
    ensures FlatCore(span, q, SkipLeft(flat, Whitespace, 0))
  {
    var i := SkipLeft(flat, Whitespace, 0);
    assert |flat| == |span|;
    assert i + |q| <= |span|;
    assert forall k :: 0 <= k < |q| ==> q[k] == flat[i + k];
    StrippedOutside(span, flat, q);
  }

  /** What the strip of the flattened span leaves out is whitespace in the span itself. */
  lemma StrippedOutside(span: string, flat: string, q: string)
    requires flat == ReplaceChar(span, '\n', ' ') && q == Strip(flat, Whitespace)
    ensures forall k :: 0 <= k < |span| && !(SkipLeft(flat, Whitespace, 0) <= k < SkipLeft(flat, Whitespace, 0) + |q|) ==>
      IsSpace(span[k])
  {
    var i := SkipLeft(flat, Whitespace, 0);
    forall k | 0 <= k < |span| && !(i <= k < i + |q|)
      ensures IsSpace(span[k])
    {
      assert Strips(Whitespace, flat[k]);
    }
  }

  /** Two clean lines joined by a line break become one line joined by a space. */
  lemma NormalizeJoinsLines(a: string, b: string)
    requires |a| > 0 && |b| > 0 && CleanText(a) && CleanText(b)
    ensures NormalizeText(a + "\n" + b) == a + " " + b
  {
    var s := a + "\n" + b;
    var flat := ReplaceChar(s, '\n', ' ');
    assert flat == a + " " + b by {
      forall k | 0 <= k < |s| ensures flat[k] == (a + " " + b)[k] {
        if k < |a| {
          assert s[k] == a[k];
        } else if k > |a| {
          assert s[k] == b[k - |a| - 1];
        }
      }
    }
    StripStripped(flat, Whitespace);
  }

  /** Normalising twice is normalising once: a normalised text is a fixed point. */
  lemma NormalizeIdempotent(span: string)
    ensures NormalizeText(NormalizeText(span)) == NormalizeText(span)
  {
    var q := NormalizeText(span);
    assert ReplaceChar(q, '\n', ' ') == q;
    StripStripped(q, Whitespace);
  }

  /** A text that is one line with no surrounding whitespace is left as it is. */
  lemma NormalizeKeepsCleanText(t: string)
    requires CleanText(t)
    ensures NormalizeText(t) == t
  {
    assert ReplaceChar(t, '\n', ' ') == t;
    StripStripped(t, Whitespace);
  }

  /** A line that `^M[^\n]+` matches as a whole: the marker and at least one more character. */
  predicate IsMarkerLine(line: string, m: string) {
    StartsWith(line, m) && |line| > |m|
  }

  /** The marker lines among `lines`, in their order. */
  function KeepMarkerLines(lines: seq<string>, m: string): (r: seq<string>)
    ensures |r| <= |lines|
    ensures forall k :: 0 <= k < |r| ==> IsMarkerLine(r[k], m)
    ensures forall x :: x in r <==> x in lines && IsMarkerLine(x, m)
  {
    if |lines| == 0 then []
    else if IsMarkerLine(lines[0], m) then [lines[0]] + KeepMarkerLines(lines[1..], m)
    else KeepMarkerLines(lines[1..], m)
  }

  /** Keeping marker lines distributes over concatenation, so order is preserved. */
  lemma {:induction false} KeepConcat(a: seq<string>, b: seq<string>, m: string)
    ensures KeepMarkerLines(a + b, m) == KeepMarkerLines(a, m) + KeepMarkerLines(b, m)
    decreases |a|
  {
    if |a| > 0 {
      assert (a + b)[0] == a[0];
      assert (a + b)[1..] == a[1..] + b;
      KeepConcat(a[1..], b, m);
    } else {
      assert a + b == b;
    }
  }

  /** `re.findall(r'^M[^\n]+', s, re.M)`. With `re.M`, `^` matches at the start of every line,
      and `[^\n]+` runs to the end of that line, so each match is one whole line. */
  function MarkerLines(s: string, m: string): (r: seq<string>)
    ensures forall k :: 0 <= k < |r| ==> IsMarkerLine(r[k], m)
  {
    KeepMarkerLines(Lines(s), m)
  }

  /** The matches are exactly the lines of `s` that are marker lines, and none spans a line break. */
  lemma MarkerLinesAreLines(s: string, m: string)
    ensures forall x :: x in MarkerLines(s, m) <==> x in Lines(s) && IsMarkerLine(x, m)
    ensures forall k, x :: 0 <= k < |MarkerLines(s, m)| && 0 <= x < |MarkerLines(s, m)[k]| ==>
      MarkerLines(s, m)[k][x] != '\n'
  {
    var ls := Lines(s);
    var r := MarkerLines(s, m);
    LinesHaveNoBreak(s);
    forall k, x | 0 <= k < |r| && 0 <= x < |r[k]| ensures r[k][x] != '\n' {
      assert r[k] in ls;
      var i :| 0 <= i < |ls| && ls[i] == r[k];
    }
  }

  /** Marker lines of two texts joined by a line break: those of the first text, then those of the
      second. The scan never reorders lines. */
  lemma MarkerLinesConcat(a: string, b: string, m: string)
    ensures MarkerLines(a + "\n" + b, m) == MarkerLines(a, m) + MarkerLines(b, m)
  {
    LinesConcat(a, b);
    KeepConcat(Lines(a), Lines(b), m);
  }

  /** `re.search(r'^@@([a-zA-Z]+)', line).group(1)`: the maximal letter label after `@@`. */
  function ChoiceCode(line: string): (r: Option<string>)
    ensures r.None? <==> !(StartsWith(line, "@@") && |line| > 2 && IsAsciiLetter(line[2]))
    ensures r.Some? ==> |r.value| > 0 && 2 + |r.value| <= |line| && line[2..2 + |r.value|] == r.value
    ensures r.Some? ==> forall k :: 0 <= k < |r.value| ==> IsAsciiLetter(r.value[k])
    ensures r.Some? ==> 2 + |r.value| == |line| || !IsAsciiLetter(line[2 + |r.value|])
  {
    if StartsWith(line, "@@") && |line| > 2 && IsAsciiLetter(line[2]) then
      Some(line[2..RunEnd(line, 2, IsAsciiLetter)])
    else None
  }

  /** `re.sub(r'^@@[a-zA-Z]+\s', '', line).strip()`: the option text with its label removed.
      The substitution applies only when the maximal letter run after `@@` is followed by
      whitespace; otherwise the whole line, `@@` included, is only stripped. */
  function ChoiceText(line: string): (r: string)
    ensures |r| <= |line|
    ensures |r| > 0 ==> !IsSpace(r[0]) && !IsSpace(r[|r| - 1])
  {
    if StartsWith(line, "@@") then
      var e := RunEnd(line, 2, IsAsciiLetter);
      if 2 < e < |line| && IsSpace(line[e]) then Strip(line[e + 1..], Whitespace)
      else Strip(line, Whitespace)
    else Strip(line, Whitespace)
  }

  /** A space character is never a letter, so it ends a label. */
  lemma SpaceIsNotLetter(c: char)
    requires IsSpace(c)
    ensures !IsAsciiLetter(c)
  {
  }

  /** For a one-letter label followed by whitespace, the prefix test `startswith('@@' + answer)`
      with a one-character answer is the same as the label being the answer. */
  lemma SingleLetterLabel(line: string, answer: string)
    requires StartsWith(line, "@@") && |line| > 3 && IsAsciiLetter(line[2]) && IsSpace(line[3])
    requires |answer| == 1
    ensures StartsWith(line, "@@" + answer) <==> ChoiceCode(line) == Some(answer)
  {
    SpaceIsNotLetter(line[3]);
    assert line[..3] == line[..2] + [line[2]];
    assert "@@" + answer == "@@" + [answer[0]];
    if ChoiceCode(line).Some? {
      var code := ChoiceCode(line).value;
      assert |code| == 1;
      assert code == [line[2]] by {
        assert code[0] == line[2..3][0];
      }
    }
  }

  /** An option written `@@` + label + one whitespace + text yields the stripped text. */
  lemma ChoiceTextOfLabelled(code: string, sep: char, text: string)
    requires |code| > 0 && forall k :: 0 <= k < |code| ==> IsAsciiLetter(code[k])
    requires IsSpace(sep)
    ensures ChoiceText("@@" + code + [sep] + text) == Strip(text, Whitespace)
    ensures ChoiceCode("@@" + code + [sep] + text) == Some(code)
  {
    LabelledLine(code, sep, text);
  }

  /** An `@@` line whose letter label is missing or not followed by whitespace (`@@A) Paris`,
      `@@A.Paris`, `@@ Paris`, `@@AB`) is not rewritten: its text is the whole stripped line,
      which still starts with the `@@` marker. */
  lemma ChoiceTextUnlabelled(line: string)
    requires StartsWith(line, "@@")
    requires ChoiceCode(line).None? || 2 + |ChoiceCode(line).value| == |line|
             || !IsSpace(line[2 + |ChoiceCode(line).value|])
    ensures ChoiceText(line) == Strip(line, Whitespace)
    ensures StartsWith(ChoiceText(line), "@@")
  {
    var e := RunEnd(line, 2, IsAsciiLetter);
    if ChoiceCode(line).Some? {
      assert ChoiceCode(line).value == line[2..e];
    } else {
      assert e == 2;
    }
    var r := Strip(line, Whitespace);
    assert r == ChoiceText(line);
    SkipLeftIs(line, Whitespace, 0, 0);
    assert !Strips(Whitespace, line[1]);
    assert 2 <= |r| && r[..2] == line[..2];
  }

  /** `@@A) Paris` has the label `A`, but a `)` follows it, so the line keeps marker and label. */
  lemma ParenthesisedLabelKept()
    ensures ChoiceCode("@@A) Paris") == Some("A")
    ensures ChoiceText("@@A) Paris") == "@@A) Paris"
  {
    var line := "@@A) Paris";
    assert IsAsciiLetter(line[2]) && !IsAsciiLetter(line[3]) && !IsSpace(line[3]);
    assert RunEnd(line, 2, IsAsciiLetter) == 3;
    assert line[2..3] == "A";
    SkipLeftIs(line, Whitespace, 0, 0);
    SkipRightIs(line, Whitespace, 0, |line|, |line|);
    assert line[0..|line|] == line;
  }

  /** Where the letter run of a labelled choice line ends, and what lies on either side. */
  lemma LabelledLine(code: string, sep: char, text: string)
    requires |code| > 0 && forall k :: 0 <= k < |code| ==> IsAsciiLetter(code[k])
    requires IsSpace(sep)
    ensures StartsWith("@@" + code + [sep] + text, "@@")
    ensures RunEnd("@@" + code + [sep] + text, 2, IsAsciiLetter) == 2 + |code|
    ensures ("@@" + code + [sep] + text)[2 + |code|] == sep
    ensures ("@@" + code + [sep] + text)[2..2 + |code|] == code
    ensures ("@@" + code + [sep] + text)[2 + |code| + 1..] == text
  {
    var line := "@@" + code + [sep] + text;
    assert forall k :: 2 <= k < 2 + |code| ==> line[k] == code[k - 2];
    assert line[2 + |code|] == sep;
    SpaceIsNotLetter(sep);
    assert forall k :: 2 <= k < 2 + |code| ==> IsAsciiLetter(line[k]);
  }

  /** `line.strip(m + m).strip()`: the value of a line written with a doubled marker `m`. Python's
      `strip('>>')` removes every `>` at either end, so only the character `m` matters. */
  function MarkedValue(line: string, m: char): (r: string)
    ensures |r| <= |line|
    ensures |r| > 0 ==> !IsSpace(r[0]) && !IsSpace(r[|r| - 1])
  {
    Strip(Strip(line, Chars([m])), Whitespace)
  }

  /** `line.strip('>>').strip()`: an answer value (multiple choice, true/false, ordering, matching). */
  function AnswerValue(line: string): string {
    MarkedValue(line, '>')
  }

  /** `line.strip('>>').strip(' ')`: a multiple-answer value; only spaces are stripped. */
  function SpaceStrippedAnswer(line: string): (r: string)
    ensures |r| <= |line|
    ensures |r| > 0 ==> r[0] != ' ' && r[|r| - 1] != ' '
  {
    Strip(Strip(line, Chars(">")), Chars(" "))
  }

  /** `line.strip('@@').strip()`: a matching item. */
  function MatchItem(line: string): string {
    MarkedValue(line, '@')
  }

  /** Writing a value `v` as the line `m m`, then any run of whitespace `pad`, then `v`, and reading
      it back gives `v`, provided `v` has no surrounding whitespace and does not end in `m` (which
      `strip` would eat), nor start with `m` when `pad` is empty. This is the answer line `>>v` or
      `>> v` for `m == '>'` and the matching item `@@ v` for `m == '@'`. */
  lemma MarkedValueRoundTrip(pad: string, v: string, m: char)
    requires !IsSpace(m) && forall k :: 0 <= k < |pad| ==> IsSpace(pad[k])
    requires |v| > 0 ==> !IsSpace(v[0]) && !IsSpace(v[|v| - 1]) && v[|v| - 1] != m
    requires |pad| == 0 && |v| > 0 ==> v[0] != m
    ensures MarkedValue([m, m] + pad + v, m) == v
  {
    var line := [m, m] + pad + v;
    var t := pad + v;
    MarkerPrefix(line, t, m, Chars([m]));
    LeadingRun(t, pad, v, Whitespace);
  }

  /** Stripping the marker `m` from `m m t`, where `t` neither starts nor ends with `m`, leaves `t`. */
  lemma MarkerPrefix(line: string, t: string, m: char, set_: StripSet)
    requires set_ == Chars([m]) && line == [m, m] + t
    requires |t| > 0 ==> !Strips(set_, t[0]) && !Strips(set_, t[|t| - 1])
    ensures Strip(line, set_) == t
  {
    SkipLeftIs(line, set_, 0, 2);
    SkipRightIs(line, set_, 2, |line|, |line|);
    assert line[2..] == t;
  }

  /** Stripping a leading run `pad` of stripped characters from `pad + v`, where `v` has nothing to
      strip at either end, leaves `v`. */
  lemma LeadingRun(t: string, pad: string, v: string, set_: StripSet)
    requires t == pad + v && forall k :: 0 <= k < |pad| ==> Strips(set_, pad[k])
    requires |v| > 0 ==> !Strips(set_, v[0]) && !Strips(set_, v[|v| - 1])
    ensures Strip(t, set_) == v
  {
    assert forall k :: 0 <= k < |pad| ==> t[k] == pad[k];
    assert |v| > 0 ==> t[|pad|] == v[0] && t[|t| - 1] == v[|v| - 1];
    SkipLeftIs(t, set_, 0, |pad|);
    SkipRightIs(t, set_, |pad|, |t|, |t|);
    assert t[|pad|..] == v;
  }

  /** Writing a multiple-answer value `v` as `>>`, a run of spaces and `v` reads back as `v`. Only
      spaces are stripped: a `v` ending in a tab keeps the tab, so `>>A\t` never names label `A`. */
  lemma SpaceStrippedRoundTrip(pad: string, v: string)
    requires forall k :: 0 <= k < |pad| ==> pad[k] == ' '
    requires |v| > 0 ==> v[0] != ' ' && v[|v| - 1] != ' ' && v[0] != '>' && v[|v| - 1] != '>'
    ensures SpaceStrippedAnswer(">>" + pad + v) == v
  {
    var line := ">>" + pad + v;
    var t := pad + v;
    assert line == ['>', '>'] + t;
    MarkerPrefix(line, t, '>', Chars(">"));
    LeadingRun(t, pad, v, Chars(" "));
  }

  /** A tab after a multiple-answer value survives. */
  lemma SpaceStrippedKeepsTab()
    ensures SpaceStrippedAnswer(">>A\t") == "A\t"
  {
    SpaceStrippedRoundTrip("", "A\t");
    assert ">>" + "" + "A\t" == ">>A\t";
  }

  /** The whitespace strip of every other answer drops that tab. */
  lemma AnswerValueDropsTab()
    ensures AnswerValue(">>A\t") == "A"
  {
    assert ">>A\t" == ['>', '>'] + "A\t";
    MarkerPrefix(">>A\t", "A\t", '>', Chars(">"));
    SkipLeftIs("A\t", Whitespace, 0, 0);
    SkipRightIs("A\t", Whitespace, 0, 2, 1);
    assert "A\t"[0..1] == "A";
  }
}
