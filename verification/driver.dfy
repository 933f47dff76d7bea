/** The glue of the command-line entry point: the text of the input file is cleaned of curly
    quotes, cut into question blocks at `%%`, each block loses its `##...##` comments, and
    every block is parsed into one output row. Blocks without a tag give no row; blocks whose
    parse raises give a blank row so the output keeps its place. */
module Driver {
  import opened Wrappers
  import opened Text
  import opened Parser

  /** The three replacements `replace('“','"').replace('”','"').replace('’','\'')`, in order. */
  function NormalizeQuotes(s: string): (r: string)
    ensures |r| == |s|
    ensures forall i :: 0 <= i < |s| ==>
      r[i] == (if s[i] == '“' || s[i] == '”' then '"' else if s[i] == '’' then '\'' else s[i])
  {
    ReplaceChar(ReplaceChar(ReplaceChar(s, '“', '"'), '”', '"'), '’', '\'')
  }

  /** After the replacements no curly quote is left, and a second pass changes nothing. */
  lemma NormalizeQuotesIdempotent(s: string)
    ensures forall i :: 0 <= i < |NormalizeQuotes(s)| ==>
      NormalizeQuotes(s)[i] != '“' && NormalizeQuotes(s)[i] != '”' && NormalizeQuotes(s)[i] != '’'
    ensures NormalizeQuotes(NormalizeQuotes(s)) == NormalizeQuotes(s)
  {
  }

  /** The replacements work character by character, so they distribute over concatenation. */
  lemma NormalizeQuotesConcat(a: string, b: string)
    ensures NormalizeQuotes(a + b) == NormalizeQuotes(a) + NormalizeQuotes(b)
  {
    var l := NormalizeQuotes(a + b);
    var r := NormalizeQuotes(a) + NormalizeQuotes(b);
    assert |l| == |r|;
    forall i | 0 <= i < |l| ensures l[i] == r[i] {
      if i < |a| {
        assert (a + b)[i] == a[i];
      } else {
        assert (a + b)[i] == b[i - |a|];
      }
    }
  }

  /** `s` has a comment: an opening `##` and, at least two characters later, a closing `##`. */
  predicate HasComment(s: string) {
    exists i, j | 0 <= i && i + 2 <= j <= |s| :: OccursAt(s, "##", i) && OccursAt(s, "##", j)
  }

  /** `re.sub(r'##[\s\S]*?##', '', s)`: the leftmost `##` opens a comment that the next `##`
      closes, and scanning resumes after it. When the leftmost `##` has no closing `##`, no later
      position can start a match either, so the rest of the text is kept as it is. */
  function StripComments(s: string): (r: string)
    ensures |r| <= |s|
    ensures r != s ==> |r| + 4 <= |s|
    decreases |s|
  {
    match IndexOf(s, "##", 0)
    case None => s
    case Some(i) =>
      match IndexOf(s, "##", i + 2)
      case None => s
      case Some(j) => s[..i] + StripComments(s[j + 2..])
  }

  /** Removing comments changes the text exactly when it has one. */
  lemma StripCommentsChanges(s: string)
    ensures StripComments(s) == s <==> !HasComment(s)
  {
    match IndexOf(s, "##", 0)
    case None =>
    case Some(i) =>
      match IndexOf(s, "##", i + 2)
      case None =>
      case Some(j) =>
        assert OccursAt(s, "##", i) && OccursAt(s, "##", j);
        assert |StripComments(s)| < |s|;
  }

  /** A comment whose body holds no `##` is cut out together with both markers, and the text
      before it is kept. */
  lemma StripOneComment(before: string, body: string, after: string)
    requires NoDoubled(before, '#') && NoDoubled(body, '#')
    ensures StripComments(before + "##" + body + "##" + after) == before + StripComments(after)
  {
    OpeningHash(before, body, after);
    ClosingHash(before, body, after);
    CommentSlices(before, body, after);
  }

  /** The first `##` of `before + "##" + body + "##" + after` is the one right after `before`. */
  lemma OpeningHash(before: string, body: string, after: string)
    requires NoDoubled(before, '#')
    ensures IndexOf(before + "##" + body + "##" + after, "##", 0) == Some(|before|)
  {
    assert before + "##" + body + "##" + after == before + "##" + (body + "##" + after);
    FirstDoubled(before, body + "##" + after, '#', 0);
  }

  /** The text before the opening and after the closing marker. */
  lemma CommentSlices(before: string, body: string, after: string)
    ensures (before + "##" + body + "##" + after)[..|before|] == before
    ensures (before + "##" + body + "##" + after)[|before| + 2 + |body| + 2..] == after
  {
  }

  /** After an opening `##`, a hashless comment body is closed by the `##` that follows it. */
  lemma ClosingHash(before: string, body: string, after: string)
    requires NoDoubled(body, '#')
    ensures IndexOf(before + "##" + body + "##" + after, "##", |before| + 2) == Some(|before| + 2 + |body|)
  {
    var s := before + "##" + body + "##" + after;
    var i := |before|;
    var j := i + 2 + |body|;
    assert s[j..j + 2] == "##";
    forall k | i + 2 <= k < j ensures !OccursAt(s, "##", k) {
      if k + 2 <= j {
        assert s[k..k + 2] == body[k - i - 2..k - i];
        assert !OccursAt(body, ['#', '#'], k - i - 2);
      } else {
        assert s[k] == body[|body| - 1];
      }
    }
    IndexOfIs(s, "##", i + 2, j);
  }

  /** The question blocks of a file: quotes normalised, split at `%%`, comments removed. */
  function Blocks(text: string): (bs: seq<string>)
    ensures |bs| == |SplitOn(NormalizeQuotes(text), "%%")|
    ensures forall k :: 0 <= k < |bs| ==> bs[k] == StripComments(SplitOn(NormalizeQuotes(text), "%%")[k])
  {
    var parts := SplitOn(NormalizeQuotes(text), "%%");
    seq(|parts|, k requires 0 <= k < |parts| => StripComments(parts[k]))
  }

  /** Splitting at `%%` loses nothing: joining the raw blocks back gives the normalised text. */
  lemma SplitKeepsText(text: string)
    ensures Join(SplitOn(NormalizeQuotes(text), "%%"), "%%") == NormalizeQuotes(text)
  {
    JoinSplit(NormalizeQuotes(text), "%%");
  }

  /** A row of the output file. `Blank` is the `'\n'` the source appends for a question whose
      parse raised; the tab-separated writer turns it into a row of one field. */
  datatype OutRow = Fields(values: seq<string>) | Blank

  /** The row, if any, one parse result contributes to the output: `None` results are dropped. */
  function RowOf(res: Result): (r: seq<OutRow>)
    ensures |r| <= 1
    ensures |r| == 0 <==> res.NoRow?
    ensures |r| == 1 ==> (r[0].Blank? <==> res.Fail?)
    ensures |r| == 1 && r[0].Fields? ==> r[0].values == res.fields
  {
    match res
    case Row(fields) => [Fields(fields)]
    case Fail(_) => [Blank]
    case NoRow => []
  }

  /** The loop over the parse results followed by the filter that drops the `None` results. */
  function AssembleRows(results: seq<Result>): (rows: seq<OutRow>)
    ensures |rows| <= |results|
  {
    if |results| == 0 then [] else RowOf(results[0]) + AssembleRows(results[1..])
  }

  /** The output keeps the order of the input: the rows of two runs of results are concatenated. */
  lemma {:induction false} AssembleConcat(a: seq<Result>, b: seq<Result>)
    ensures AssembleRows(a + b) == AssembleRows(a) + AssembleRows(b)
    decreases |a|
  {
    if |a| == 0 {
      assert a + b == b;
    } else {
      assert (a + b)[0] == a[0];
      assert (a + b)[1..] == a[1..] + b;
      AssembleConcat(a[1..], b);
    }
  }

  /** How many results are `None`. */
  function NoRowCount(results: seq<Result>): (n: nat)
    ensures n <= |results|
  {
    if |results| == 0 then 0 else (if results[0].NoRow? then 1 else 0) + NoRowCount(results[1..])
  }

  /** Every result but a `None` one gives exactly one row: the output is as long as the input
      minus the `None` results. */
  lemma {:induction false} AssembleCount(results: seq<Result>)
    ensures |AssembleRows(results)| == |results| - NoRowCount(results)
    decreases |results|
  {
    if |results| > 0 {
      AssembleCount(results[1..]);
    }
  }

  /** When no result is `None`, there is exactly one row per result. */
  lemma {:induction false} AssembleLength(results: seq<Result>)
    requires forall x :: 0 <= x < |results| ==> !results[x].NoRow?
    ensures |AssembleRows(results)| == |results|
    decreases |results|
  {
    if |results| > 0 {
      assert |RowOf(results[0])| == 1;
      assert forall x :: 0 <= x < |results| - 1 ==> results[1..][x] == results[x + 1];
      AssembleLength(results[1..]);
    }
  }

  /** When no result is `None`, row k belongs to result k: its fields when the parse succeeded,
      a blank row when it raised. */
  lemma {:induction false} AssembleAligned(results: seq<Result>, k: nat)
    requires forall x :: 0 <= x < |results| ==> !results[x].NoRow?
    requires k < |results|
    ensures |AssembleRows(results)| == |results|
    ensures AssembleRows(results)[k] == (if results[k].Row? then Fields(results[k].fields) else Blank)
    decreases k
  {
    AssembleLength(results);
    assert |RowOf(results[0])| == 1;
    if k > 0 {
      assert forall x :: 0 <= x < |results| - 1 ==> results[1..][x] == results[x + 1];
      AssembleAligned(results[1..], k - 1);
    }
  }

  /** The parser applied to every block. The glue is written for any parser `parse`;
      `ConvertText` fixes it to `parseTextQuestion`. */
  function ParseAll(blocks: seq<string>, parse: string -> Result): (rs: seq<Result>)
    ensures |rs| == |blocks|
    ensures forall k :: 0 <= k < |blocks| ==> rs[k] == parse(blocks[k])
  {
    seq(|blocks|, k requires 0 <= k < |blocks| => parse(blocks[k]))
  }

  /** A block yields no result exactly when it carries none of the six tags, so a file whose
      blocks all carry a tag gives one row per block, in order. */
  lemma TaggedBlocksAlign(blocks: seq<string>, k: nat)
    requires forall x :: 0 <= x < |blocks| ==> Classify(blocks[x]).Some?
    requires k < |blocks|
    ensures |AssembleRows(ParseAll(blocks, ParseTextQuestion))| == |blocks|
    ensures AssembleRows(ParseAll(blocks, ParseTextQuestion))[k] ==
      (if ParseTextQuestion(blocks[k]).Row? then Fields(ParseTextQuestion(blocks[k]).fields) else Blank)
  {
    AssembleAligned(ParseAll(blocks, ParseTextQuestion), k);
  }

  /** The rows for one file's text with a given parser. */
  function ConvertWith(text: string, parse: string -> Result): (rows: seq<OutRow>)
    ensures |rows| == |Blocks(text)| - NoRowCount(ParseAll(Blocks(text), parse))
    ensures |rows| <= |SplitOn(NormalizeQuotes(text), "%%")|
  {
    var results := ParseAll(Blocks(text), parse);
    AssembleCount(results);
    AssembleRows(results)
  }

  /** The rows for one file's text (lines 126-139, without reading and writing the files). */
  function ConvertText(text: string): (rows: seq<OutRow>)
    ensures |rows| == |Blocks(text)| - NoRowCount(ParseAll(Blocks(text), ParseTextQuestion))
    ensures |rows| <= |SplitOn(NormalizeQuotes(text), "%%")|
  {
    ConvertWith(text, ParseTextQuestion)
  }

  /** Quote normalisation neither creates nor removes `%`, so it keeps a block free of `%%`. */
  lemma NormalizeKeepsPercents(a: string)
    requires NoDoubled(a, '%')
    ensures NoDoubled(NormalizeQuotes(a), '%')
  {
    var n := NormalizeQuotes(a);
    forall k | 0 <= k <= |n| - 2 ensures !OccursAt(n, "%%", k) {
      assert !OccursAt(a, "%%", k);
    }
  }

  /** Blocks are converted independently: a first block without `%%` gives its own row (or none),
      and the rest of the file is converted as if it stood alone. */
  lemma ConvertFirstBlock(a: string, b: string, parse: string -> Result)
    requires NoDoubled(a, '%')
    ensures ConvertWith(a + "%%" + b, parse) == RowOf(parse(StripComments(NormalizeQuotes(a)))) + ConvertWith(b, parse)
  {
    var blocks := Blocks(a + "%%" + b);
    FirstBlock(a, b);
    var results := ParseAll(blocks, parse);
    assert results[0] == parse(StripComments(NormalizeQuotes(a)));
    assert results[1..] == ParseAll(Blocks(b), parse);
  }

  /** A first block without `%%` is split off whole, and the blocks after it are those of the rest. */
  lemma FirstBlock(a: string, b: string)
    requires NoDoubled(a, '%')
    ensures Blocks(a + "%%" + b) == [StripComments(NormalizeQuotes(a))] + Blocks(b)
  {
    var na := NormalizeQuotes(a);
    var nb := NormalizeQuotes(b);
    assert NormalizeQuotes(a + "%%" + b) == na + "%%" + nb by {
      NormalizeQuotesConcat(a + "%%", b);
      NormalizeQuotesConcat(a, "%%");
    }
    NormalizeKeepsPercents(a);
    SplitFirst(na, nb, '%');
  }

  /** What `outputRows.append(...)` receives for one parse result: the row, the blank row for a
      raised exception, or `None`. */
  function Entry(res: Result): (e: Option<OutRow>)
    ensures e.None? <==> res.NoRow?
    ensures e.Some? ==> RowOf(res) == [e.value]
  {
    match res
    case Row(fields) => Some(Fields(fields))
    case Fail(_) => Some(Blank)
    case NoRow => None
  }

  /** The for-loop of lines 131-138 and the filter of line 139, written as the source writes them:
      collect one entry per block, `None` included, then drop the `None` entries. */
  method CollectRows(blocks: seq<string>, parse: string -> Result) returns (rows: seq<OutRow>)
    ensures rows == AssembleRows(ParseAll(blocks, parse))
  {
    var collected: seq<Option<OutRow>> := [];
    var results: seq<Result> := [];
    var k := 0;
    while k < |blocks|
      invariant 0 <= k <= |blocks|
      invariant |collected| == |results| == k
      invariant forall x :: 0 <= x < k ==> results[x] == parse(blocks[x])
      invariant forall x :: 0 <= x < k ==> collected[x] == Entry(results[x])
    {
      var res := parse(blocks[k]);
      results := results + [res];
      collected := collected + [Entry(res)];
      k := k + 1;
    }
    assert results == ParseAll(blocks, parse);
    rows := [];
    k := 0;
    while k < |collected|
      invariant 0 <= k <= |collected|
      invariant rows == AssembleRows(results[..k])
    {
      AssembleConcat(results[..k], [results[k]]);
      assert results[..k + 1] == results[..k] + [results[k]];
      assert AssembleRows([results[k]]) == RowOf(results[k]) + AssembleRows([]);
      if collected[k].Some? {
        rows := rows + [collected[k].value];
      }
      k := k + 1;
    }
    assert results[..k] == results;
  }
}
