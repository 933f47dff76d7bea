/** String primitives with Python `str` semantics: character classes, substring
    search (`in`, `find`), `split`/`join`, `strip`, `replace` and `lower`. */
module Text {
  import opened Wrappers

  /** Python's `str.isspace()`: the characters `str.strip()` removes and `\s` matches. */
  predicate IsSpace(c: char) {
    || ('\t' <= c <= '\r')          // tab, newline, vertical tab, form feed, carriage return
    || ('\U{1C}' <= c <= ' ')       // file/group/record/unit separators and space
    || c == '\U{85}' || c == '\U{A0}' || c == '\U{1680}'
    || ('\U{2000}' <= c <= '\U{200A}')
    || c == '\U{2028}' || c == '\U{2029}' || c == '\U{202F}' || c == '\U{205F}' || c == '\U{3000}'
  }

  /** `\d`, restricted to ASCII digits. */
  predicate IsDigit(c: char) {
    '0' <= c <= '9'
  }

  /** The regex class `[a-zA-Z]`. */
  predicate IsAsciiLetter(c: char) {
    ('a' <= c <= 'z') || ('A' <= c <= 'Z')
  }

  /** `s.startswith(p)`. */
  predicate StartsWith(s: string, p: string) {
    |p| <= |s| && s[..|p|] == p
  }

  /** `pat` occurs in `s` starting at index `i`. */
  predicate OccursAt(s: string, pat: string, i: int) {
    0 <= i && i + |pat| <= |s| && s[i..i + |pat|] == pat
  }

  /** Python's `pat in s`. */
  predicate Contains(s: string, pat: string) {
    exists i | 0 <= i <= |s| - |pat| :: OccursAt(s, pat, i)
  }

  /** The leftmost occurrence of `pat` in `s` at or after `from` (`s.find(pat, from)`). */
  function IndexOf(s: string, pat: string, from: nat): (r: Option<nat>)
    ensures r.Some? ==> from <= r.value && OccursAt(s, pat, r.value)
    ensures r.Some? ==> forall j :: from <= j < r.value ==> !OccursAt(s, pat, j)
    ensures r.None? ==> forall j :: from <= j ==> !OccursAt(s, pat, j)
    decreases |s| - from
  {
    if from + |pat| > |s| then None
    else if OccursAt(s, pat, from) then Some(from)
    else IndexOf(s, pat, from + 1)
  }

  /** A search from the start finds something exactly when `pat in s`. */
  lemma FoundIffContains(s: string, pat: string)
    ensures IndexOf(s, pat, 0).Some? <==> Contains(s, pat)
  {
    if Contains(s, pat) {
      var i :| 0 <= i <= |s| - |pat| && OccursAt(s, pat, i);
      assert !(forall j :: 0 <= j ==> !OccursAt(s, pat, j));
    }
  }

  /** `s.split(sep)` for a non-empty separator: cut at the leftmost occurrence, repeatedly. */
  function SplitOn(s: string, sep: string): (parts: seq<string>)
    requires |sep| > 0
    ensures |parts| >= 1
    decreases |s|
  {
    match IndexOf(s, sep, 0)
    case None => [s]
    case Some(i) => [s[..i]] + SplitOn(s[i + |sep|..], sep)
  }

  /** Nothing before the leftmost occurrence of `pat` contains `pat`. */
  lemma BeforeFirstIsFree(s: string, pat: string, i: nat)
    requires |pat| > 0 && IndexOf(s, pat, 0) == Some(i)
    ensures forall j :: !OccursAt(s[..i], pat, j)
  {
    forall j | OccursAt(s[..i], pat, j) ensures false {
      assert j < i;
      assert s[j..j + |pat|] == s[..i][j..j + |pat|];
      assert OccursAt(s, pat, j);
    }
  }

  /** No piece of a split contains the separator. */
  lemma {:induction false} SplitOnPartFree(s: string, sep: string, k: nat)
    requires |sep| > 0 && k < |SplitOn(s, sep)|
    ensures forall j :: !OccursAt(SplitOn(s, sep)[k], sep, j)
    decreases |s|
  {
    match IndexOf(s, sep, 0)
    case None =>
    case Some(i) =>
      var rest := s[i + |sep|..];
      assert SplitOn(s, sep) == [s[..i]] + SplitOn(rest, sep);
      if k == 0 {
        BeforeFirstIsFree(s, sep, i);
      } else {
        SplitOnPartFree(rest, sep, k - 1);
      }
  }

  /** Every piece of a split at `cc` but the last is free of doubled `c`: it holds no `cc` and does
      not end with `c`, since otherwise a `cc` would start further left than the cut. So the cut is
      always at the leftmost `cc` (`"%%%"` splits into `""` and `"%"`). */
  lemma {:induction false} SplitOnPieceNoDoubled(s: string, c: char, k: nat)
    requires k + 1 < |SplitOn(s, [c, c])|
    ensures NoDoubled(SplitOn(s, [c, c])[k], c)
    decreases |s|
  {
    match IndexOf(s, [c, c], 0)
    case None =>
    case Some(i) =>
      var rest := s[i + 2..];
      SplitAtDoubled(s, c, i);
      if k == 0 {
        CutIsLeftmost(s, c, i);
      } else {
        SplitOnPieceNoDoubled(rest, c, k - 1);
      }
  }

  /** A split at `cc` cuts at the leftmost `cc`. */
  lemma SplitAtDoubled(s: string, c: char, i: nat)
    requires IndexOf(s, [c, c], 0) == Some(i)
    ensures i + 2 <= |s|
    ensures SplitOn(s, [c, c]) == [s[..i]] + SplitOn(s[i + 2..], [c, c])
  {
    assert OccursAt(s, [c, c], i);
    assert |[c, c]| == 2;
  }

  /** The text before the leftmost `cc` is free of doubled `c`. */
  lemma CutIsLeftmost(s: string, c: char, i: nat)
    requires IndexOf(s, [c, c], 0) == Some(i)
    ensures NoDoubled(s[..i], c)
  {
    BeforeFirstIsFree(s, [c, c], i);
    if i > 0 {
      assert !OccursAt(s, [c, c], i - 1);
      assert s[i] == s[i..i + 2][0] == c;
      assert s[i - 1..i + 1] == [s[i - 1], s[i]];
      assert s[..i][i - 1] == s[i - 1];
    }
  }

  /** `sep.join(parts)`. */
  function Join(parts: seq<string>, sep: string): string
  {
    if |parts| == 0 then ""
    else if |parts| == 1 then parts[0]
    else parts[0] + sep + Join(parts[1..], sep)
  }

  /** Joining the pieces of a split with the same separator gives back the text. */
  lemma {:induction false} JoinSplit(s: string, sep: string)
    requires |sep| > 0
    ensures Join(SplitOn(s, sep), sep) == s
    decreases |s|
  {
    match IndexOf(s, sep, 0)
    case None =>
    case Some(i) =>
      var rest := s[i + |sep|..];
      var parts := SplitOn(rest, sep);
      JoinSplit(rest, sep);
      assert SplitOn(s, sep) == [s[..i]] + parts;
      assert ([s[..i]] + parts)[1..] == parts;
      assert Join([s[..i]] + parts, sep) == s[..i] + sep + Join(parts, sep);
      assert s == s[..i] + s[i..i + |sep|] + rest;
  }

  /** `s.split('\n')`: the lines of a text, without their line breaks. */
  function Lines(s: string): (ls: seq<string>)
    ensures |ls| >= 1
  {
    SplitOn(s, "\n")
  }

  /** No line holds a line break. */
  lemma LinesHaveNoBreak(s: string)
    ensures forall k, x :: 0 <= k < |Lines(s)| && 0 <= x < |Lines(s)[k]| ==> Lines(s)[k][x] != '\n'
  {
    var ls := Lines(s);
    forall k, x | 0 <= k < |ls| && 0 <= x < |ls[k]| ensures ls[k][x] != '\n' {
      SplitOnPartFree(s, "\n", k);
      assert !OccursAt(ls[k], "\n", x);
      assert ls[k][x..x + 1] == [ls[k][x]];
    }
  }

  /** The search result is pinned down by its contract: an occurrence with none before it. */
  lemma IndexOfIs(s: string, pat: string, from: nat, i: nat)
    requires from <= i && OccursAt(s, pat, i)
    requires forall j :: from <= j < i ==> !OccursAt(s, pat, j)
    ensures IndexOf(s, pat, from) == Some(i)
  {
  }

  /** `x` holds no `cc` and does not end with `c`: a `cc` written right after `x` is the first one. */
  predicate NoDoubled(x: string, c: char) {
    !Contains(x, [c, c]) && (|x| > 0 ==> x[|x| - 1] != c)
  }

  /** In `x + cc + y` with `x` free of doubled `c`, the leftmost `cc` is the one right after `x`. */
  lemma FirstDoubled(x: string, y: string, c: char, from: nat)
    requires NoDoubled(x, c) && from <= |x|
    ensures IndexOf(x + [c, c] + y, [c, c], from) == Some(|x|)
  {
    var s := x + [c, c] + y;
    assert s[|x|..|x| + 2] == [c, c];
    forall j | from <= j < |x| ensures !OccursAt(s, [c, c], j) {
      if j + 2 <= |x| {
        assert s[j..j + 2] == x[j..j + 2];
        assert !OccursAt(x, [c, c], j);
      } else {
        assert s[j] == x[|x| - 1];
      }
    }
    IndexOfIs(s, [c, c], from, |x|);
  }

  /** Splitting at a doubled `c` that no earlier `cc` precedes yields `x` and then the split of the rest. */
  lemma SplitFirst(x: string, y: string, c: char)
    requires NoDoubled(x, c)
    ensures SplitOn(x + [c, c] + y, [c, c]) == [x] + SplitOn(y, [c, c])
  {
    var s := x + [c, c] + y;
    FirstDoubled(x, y, c, 0);
    assert s[..|x|] == x;
    assert s[|x| + 2..] == y;
  }

  /** An occurrence found in `a` is still the leftmost one once more text follows `a`. */
  lemma FoundInPrefix(a: string, b: string, pat: string, i: nat)
    requires IndexOf(a, pat, 0) == Some(i)
    ensures IndexOf(a + b, pat, 0) == Some(i)
  {
    var s := a + b;
    forall j | 0 <= j < i ensures !OccursAt(s, pat, j) {
      assert !OccursAt(a, pat, j);
      assert s[j..j + |pat|] == a[j..j + |pat|];
    }
    assert s[i..i + |pat|] == a[i..i + |pat|];
    IndexOfIs(s, pat, 0, i);
  }

  /** In `a + "\n" + b` with no line break in `a`, the first line break is the one after `a`. */
  lemma BreakAfterLine(a: string, b: string)
    requires IndexOf(a, "\n", 0) == None
    ensures IndexOf(a + "\n" + b, "\n", 0) == Some(|a|)
  {
    var s := a + "\n" + b;
    forall j | 0 <= j < |a| ensures !OccursAt(s, "\n", j) {
      assert !OccursAt(a, "\n", j);
      assert s[j..j + 1] == a[j..j + 1];
    }
    assert s[|a|..|a| + 1] == "\n";
    IndexOfIs(s, "\n", 0, |a|);
  }

  /** Splitting `a` at its first line break. */
  lemma FirstLine(a: string, i: nat)
    requires IndexOf(a, "\n", 0) == Some(i)
    ensures i < |a|
    ensures Lines(a) == [a[..i]] + Lines(a[i + 1..])
  {
    assert OccursAt(a, "\n", i);
    assert SplitOn(a, "\n") == [a[..i]] + SplitOn(a[i + 1..], "\n");
  }

  /** The first line of `a` is also the first line of `a + "\n" + b`, and the rest follows. */
  lemma LinesAtBreak(a: string, b: string, i: nat)
    requires IndexOf(a, "\n", 0) == Some(i)
    ensures i < |a|
    ensures Lines(a + "\n" + b) == [a[..i]] + Lines(a[i + 1..] + "\n" + b)
  {
    var s := a + "\n" + b;
    BreakBeforeJoin(a, b, i);
    FirstLine(s, i);
    TakeAppend(a + "\n", b, i);
    TakeAppend(a, "\n", i);
    DropAppend(a + "\n", b, i + 1);
    DropAppend(a, "\n", i + 1);
  }

  /** A line break found in `a` is still the first one once text is appended. */
  lemma BreakBeforeJoin(a: string, b: string, i: nat)
    requires IndexOf(a, "\n", 0) == Some(i)
    ensures IndexOf(a + "\n" + b, "\n", 0) == Some(i)
  {
    FoundInPrefix(a, "\n", "\n", i);
    FoundInPrefix(a + "\n", b, "\n", i);
  }

  /** Taking a prefix that lies inside the left operand of a concatenation. */
  lemma TakeAppend(x: string, y: string, k: nat)
    requires k <= |x|
    ensures (x + y)[..k] == x[..k]
  {
  }

  /** Dropping a prefix that lies inside the left operand of a concatenation. */
  lemma DropAppend(x: string, y: string, k: nat)
    requires k <= |x|
    ensures (x + y)[k..] == x[k..] + y
  {
  }

  /** A text without a line break is one line, and stays one line when text is appended after a break. */
  lemma LastLineJoined(a: string, b: string)
    requires IndexOf(a, "\n", 0) == None
    ensures Lines(a) == [a]
    ensures Lines(a + "\n" + b) == [a] + Lines(b)
  {
    var s := a + "\n" + b;
    BreakAfterLine(a, b);
    TakeAppend(a + "\n", b, |a|);
    DropAppend(a + "\n", b, |a| + 1);
    assert (a + "\n")[..|a|] == a;
    assert (a + "\n")[|a| + 1..] == [];
  }

  /** Splitting at a line break that is added between two texts splits each text on its own. */
  lemma {:induction false} LinesConcat(a: string, b: string)
    ensures Lines(a + "\n" + b) == Lines(a) + Lines(b)
    decreases |a|
  {
    match IndexOf(a, "\n", 0)
    case None =>
      LastLineJoined(a, b);
    case Some(i) =>
      FirstLine(a, i);
      LinesAtBreak(a, b, i);
      LinesConcat(a[i + 1..], b);
      ConsAssoc(Lines(a + "\n" + b), Lines(a), a[..i], Lines(a[i + 1..] + "\n" + b),
                Lines(a[i + 1..]), Lines(b));
  }

  /** Rewriting `x = [h] + y` with `y = u + v` and `z = [h] + u` gives `x = z + v`. */
  lemma ConsAssoc<T>(x: seq<T>, z: seq<T>, h: T, y: seq<T>, u: seq<T>, v: seq<T>)
    requires x == [h] + y && y == u + v && z == [h] + u
    ensures x == z + v
  {
    assert [h] + (u + v) == ([h] + u) + v;
  }

  /** The character set handed to Python's `strip`: no argument strips whitespace,
      a string argument strips every character it contains (`strip('>>')` strips `>`). */
  datatype StripSet = Whitespace | Chars(cs: string)

  predicate Strips(set_: StripSet, c: char) {
    match set_
    case Whitespace => IsSpace(c)
    case Chars(cs) => c in cs
  }

  /** First index at or after `i` holding a character that is not stripped. */
  function SkipLeft(s: string, set_: StripSet, i: nat): (k: nat)
    requires i <= |s|
    ensures i <= k <= |s|
    ensures forall x :: i <= x < k ==> Strips(set_, s[x])
    ensures k == |s| || !Strips(set_, s[k])
    decreases |s| - i
  {
    if i < |s| && Strips(set_, s[i]) then SkipLeft(s, set_, i + 1) else i
  }

  /** Last end index at or below `j`, and not below `lo`, preceded by a character that is not stripped. */
  function SkipRight(s: string, set_: StripSet, lo: nat, j: nat): (k: nat)
    requires lo <= j <= |s|
    ensures lo <= k <= j
    ensures forall x :: k <= x < j ==> Strips(set_, s[x])
    ensures k == lo || !Strips(set_, s[k - 1])
    decreases j
  {
    if lo < j && Strips(set_, s[j - 1]) then SkipRight(s, set_, lo, j - 1) else j
  }

  /** `SkipLeft` is pinned down by its contract: the first kept character at or after `i`. */
  lemma SkipLeftIs(s: string, set_: StripSet, i: nat, k: nat)
    requires i <= k <= |s|
    requires forall x :: i <= x < k ==> Strips(set_, s[x])
    requires k == |s| || !Strips(set_, s[k])
    ensures SkipLeft(s, set_, i) == k
  {
  }

  /** `SkipRight` is pinned down by its contract: the end after the last kept character. */
  lemma SkipRightIs(s: string, set_: StripSet, lo: nat, j: nat, k: nat)
    requires lo <= k <= j <= |s|
    requires forall x :: k <= x < j ==> Strips(set_, s[x])
    requires k == lo || !Strips(set_, s[k - 1])
    ensures SkipRight(s, set_, lo, j) == k
  {
  }

  /** `s.strip()` / `s.strip(chars)`: the slice left after removing stripped characters from both ends. */
  function Strip(s: string, set_: StripSet): (r: string)
    ensures |r| <= |s|
    ensures |r| > 0 ==> !Strips(set_, r[0]) && !Strips(set_, r[|r| - 1])
    ensures SkipLeft(s, set_, 0) + |r| <= |s|
    ensures r == s[SkipLeft(s, set_, 0)..SkipLeft(s, set_, 0) + |r|]
    ensures forall x :: SkipLeft(s, set_, 0) + |r| <= x < |s| ==> Strips(set_, s[x])
  {
    var i := SkipLeft(s, set_, 0);
    var j := SkipRight(s, set_, i, |s|);
    s[i..j]
  }

  /** A string with nothing to strip at either end is its own strip. */
  lemma StripStripped(s: string, set_: StripSet)
    requires |s| > 0 ==> !Strips(set_, s[0]) && !Strips(set_, s[|s| - 1])
    ensures Strip(s, set_) == s
  {
    var i := SkipLeft(s, set_, 0);
    assert i == 0;
    var j := SkipRight(s, set_, i, |s|);
    assert j == |s|;
  }

  /** `s.replace(target, sub)` for single characters. */
  function ReplaceChar(s: string, target: char, sub: char): (r: string)
    ensures |r| == |s|
    ensures forall i :: 0 <= i < |s| ==> r[i] == (if s[i] == target then sub else s[i])
  {
    seq(|s|, i requires 0 <= i < |s| => if s[i] == target then sub else s[i])
  }

  /** `c.lower()` on ASCII; every other character is left alone. */
  function LowerChar(c: char): char {
    if 'A' <= c <= 'Z' then (c as int + 32) as char else c
  }

  /** `s.lower()`, restricted to ASCII letters. */
  function Lower(s: string): (r: string)
    ensures |r| == |s|
    ensures forall i :: 0 <= i < |s| ==> r[i] == LowerChar(s[i])
  {
    seq(|s|, i requires 0 <= i < |s| => LowerChar(s[i]))
  }

  /** `a` and `b` spell the same word up to ASCII case. */
  predicate EqualIgnoringCase(a: string, b: string) {
    |a| == |b| && forall i :: 0 <= i < |a| ==> LowerChar(a[i]) == LowerChar(b[i])
  }
}
