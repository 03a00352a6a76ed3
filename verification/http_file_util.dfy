/** The request splitter of `backend/src/utils/httpFileUtil.js`: cuts the text of an `.http`
    file into the requests separated by `###` lines, recording each request's trimmed text and
    its 1-based line range in the original file. */
module HttpFileUtil {
  import opened Text

  /** One request: its trimmed text and its first and last line (1-based, inclusive). */
  datatype Block = Block(raw: string, startLine: int, endLine: int)

  /** A separator line: its trimmed text starts with `###`. */
  predicate IsDelimiter(line: string) {
    StartsWith(Trim(line), "###")
  }

  /** Does the 0-based line index `j` lie in the 1-based range of `b`? */
  predicate Contains(b: Block, j: int) {
    b.startLine <= j + 1 <= b.endLine
  }

  predicate NoDelimiterIn(lines: seq<string>, lo: int, hi: int)
    requires 0 <= lo <= hi <= |lines|
  {
    forall j :: lo <= j < hi ==> !IsDelimiter(lines[j])
  }

  /** `b` covers a run of lines holding no separator, and its text is those lines joined
      with LF and trimmed. */
  ghost predicate Spans(lines: seq<string>, b: Block) {
    && 1 <= b.startLine <= b.endLine <= |lines|
    && NoDelimiterIn(lines, b.startLine - 1, b.endLine)
    && b.raw == Trim(Join(lines[b.startLine - 1..b.endLine], "\n"))
  }

  /** The run of `b` cannot be extended: on each side it meets a separator or the edge of the file. */
  ghost predicate Maximal(lines: seq<string>, b: Block)
    requires 1 <= b.startLine <= b.endLine <= |lines|
  {
    && (b.startLine == 1 || IsDelimiter(lines[b.startLine - 2]))
    && (b.endLine == |lines| || IsDelimiter(lines[b.endLine]))
  }

  /** Blocks come in file order and do not overlap. */
  ghost predicate InOrder(blocks: seq<Block>) {
    forall p, q :: 0 <= p < q < |blocks| ==> blocks[p].endLine < blocks[q].startLine
  }

  /** Every block's range runs forwards. */
  ghost predicate WellFormed(blocks: seq<Block>) {
    forall k :: 0 <= k < |blocks| ==> blocks[k].startLine <= blocks[k].endLine
  }

  ghost predicate Covered(blocks: seq<Block>, j: int) {
    exists k :: 0 <= k < |blocks| && Contains(blocks[k], j)
  }

  /** What `splitHttpRequests` returns for `lines`: every maximal separator-free run of lines that
      holds some non-blank text, as a block, in file order, and nothing else. */
  ghost predicate IsSplit(lines: seq<string>, blocks: seq<Block>) {
    && (forall b :: b in blocks ==> Spans(lines, b) && Maximal(lines, b) && b.raw != "")
    && InOrder(blocks)
    && (forall j :: 0 <= j < |lines| && !IsDelimiter(lines[j]) && !AllWhitespace(lines[j]) ==>
          Covered(blocks, j))
  }

  function CountDelimiters(lines: seq<string>): nat {
    if |lines| == 0 then 0
    else CountDelimiters(lines[..|lines| - 1]) + (if IsDelimiter(lines[|lines| - 1]) then 1 else 0)
  }

  /** The final `filter(r => r.raw.length > 0)`. */
  function NonEmpty(bs: seq<Block>): (r: seq<Block>)
    ensures forall b :: b in r <==> b in bs && b.raw != ""
    ensures |r| <= |bs|
    ensures InOrder(bs) ==> InOrder(r)
  {
    if |bs| == 0 then []
    else
      var rest := NonEmpty(bs[1..]);
      FilterStep(bs, rest);
      (if bs[0].raw != "" then [bs[0]] else []) + rest
  }

  /** One step of the filter keeps file order: what is kept of the tail stays ordered, and the
      head, when kept, comes before all of it. */
  lemma FilterStep(bs: seq<Block>, rest: seq<Block>)
    requires |bs| > 0
    requires forall b :: b in rest ==> b in bs[1..]
    requires InOrder(bs[1..]) ==> InOrder(rest)
    ensures InOrder(bs) ==> InOrder(rest) && InOrder([bs[0]] + rest)
  {
    if InOrder(bs) {
      InOrderTail(bs);
      HeadBeforeTail(bs);
      ConsInOrder(bs[0], rest);
    }
  }

  /** Dropping the first block keeps the rest in order. */
  lemma InOrderTail(bs: seq<Block>)
    requires InOrder(bs) && |bs| > 0
    ensures InOrder(bs[1..])
    ensures WellFormed(bs) ==> WellFormed(bs[1..])
  {
    assert forall k :: 0 <= k < |bs[1..]| ==> bs[1..][k] == bs[k + 1];
  }

  /** A block placed before every block of an ordered list keeps it ordered. */
  lemma ConsInOrder(h: Block, rest: seq<Block>)
    requires InOrder(rest)
    requires forall b :: b in rest ==> h.endLine < b.startLine
    ensures InOrder([h] + rest)
  {
    var r := [h] + rest;
    forall p, q | 0 <= p < q < |r|
      ensures r[p].endLine < r[q].startLine
    {
      assert r[q] == rest[q - 1];
      if p > 0 {
        assert r[p] == rest[p - 1];
      }
    }
  }

  /** In an ordered list, the first block ends before every later one starts. */
  lemma HeadBeforeTail(bs: seq<Block>)
    requires InOrder(bs) && |bs| > 0
    ensures forall b :: b in bs[1..] ==> bs[0].endLine < b.startLine
  {
    forall b | b in bs[1..]
      ensures bs[0].endLine < b.startLine
    {
      var q :| 0 <= q < |bs[1..]| && bs[1..][q] == b;
      assert bs[q + 1] == b;
    }
  }

  /** A block's text is empty exactly when every line of its range is blank. */
  lemma BlankBlock(lines: seq<string>, b: Block)
    requires Spans(lines, b)
    ensures b.raw == "" <==> forall j :: b.startLine - 1 <= j < b.endLine ==> AllWhitespace(lines[j])
  {
    var run := lines[b.startLine - 1..b.endLine];
    assert AllWhitespace("\n") by {
      assert "\n"[0] == '\n';
    }
    JoinAllWhitespace(run, "\n");
    TrimFacts(Join(run, "\n"));
    assert forall j :: b.startLine - 1 <= j < b.endLine ==> lines[j] == run[j - (b.startLine - 1)];
  }

  /** The requests emitted once the lines before `done` have been scanned: each one a maximal
      separator-free run ending at or before `done`, in order, together covering every
      non-separator line before `done`. */
  ghost predicate Emitted(lines: seq<string>, requests: seq<Block>, done: int) {
    && 0 <= done <= |lines|
    && (forall b :: b in requests ==> Spans(lines, b) && Maximal(lines, b) && b.endLine <= done)
    && InOrder(requests)
    && (forall j :: 0 <= j < done && !IsDelimiter(lines[j]) ==> Covered(requests, j))
  }

  /** A closed separator-free run, as a block, spans and is maximal. */
  lemma RunBlock(lines: seq<string>, b: Block, lo: int, hi: int)
    requires 0 <= lo < hi <= |lines| && NoDelimiterIn(lines, lo, hi)
    requires lo == 0 || IsDelimiter(lines[lo - 1])
    requires hi == |lines| || IsDelimiter(lines[hi])
    requires b == Block(Trim(Join(lines[lo..hi], "\n")), lo + 1, hi)
    ensures Spans(lines, b) && Maximal(lines, b)
  {
  }

  /** Emitting the pending run `lines[lo..hi]` when it is closed by a separator or the end of file. */
  lemma EmitRun(lines: seq<string>, requests: seq<Block>, b: Block, lo: int, hi: int)
    requires Emitted(lines, requests, lo)
    requires 0 <= lo < hi <= |lines| && NoDelimiterIn(lines, lo, hi)
    requires lo == 0 || IsDelimiter(lines[lo - 1])
    requires hi == |lines| || IsDelimiter(lines[hi])
    requires b == Block(Trim(Join(lines[lo..hi], "\n")), lo + 1, hi)
    ensures Emitted(lines, requests + [b], hi)
  {
    RunBlock(lines, b, lo, hi);
    EmitKeepsBlocks(lines, requests, b, lo, hi);
    EmitKeepsOrder(requests, b, lo);
    EmitKeepsCover(lines, requests, b, lo, hi);
  }

  lemma EmitKeepsBlocks(lines: seq<string>, requests: seq<Block>, b: Block, lo: int, hi: int)
    requires forall r :: r in requests ==> Spans(lines, r) && Maximal(lines, r) && r.endLine <= lo
    requires Spans(lines, b) && Maximal(lines, b) && lo <= b.endLine == hi
    ensures forall r :: r in requests + [b] ==> Spans(lines, r) && Maximal(lines, r) && r.endLine <= hi
  {
  }

  lemma EmitKeepsOrder(requests: seq<Block>, b: Block, lo: int)
    requires InOrder(requests)
    requires forall r :: r in requests ==> r.endLine <= lo
    requires b.startLine == lo + 1
    ensures InOrder(requests + [b])
  {
    var rs := requests + [b];
    forall p, q | 0 <= p < q < |rs|
      ensures rs[p].endLine < rs[q].startLine
    {
      assert rs[p] == requests[p] && requests[p] in requests;
      if q < |requests| {
        assert rs[q] == requests[q];
      }
    }
  }

  lemma EmitKeepsCover(lines: seq<string>, requests: seq<Block>, b: Block, lo: int, hi: int)
    requires 0 <= lo <= hi <= |lines|
    requires forall j :: 0 <= j < lo && !IsDelimiter(lines[j]) ==> Covered(requests, j)
    requires b.startLine == lo + 1 && b.endLine == hi
    ensures forall j :: 0 <= j < hi && !IsDelimiter(lines[j]) ==> Covered(requests + [b], j)
  {
    var rs := requests + [b];
    forall j | 0 <= j < hi && !IsDelimiter(lines[j])
      ensures Covered(rs, j)
    {
      if j < lo {
        var k :| 0 <= k < |requests| && Contains(requests[k], j);
        assert rs[k] == requests[k];
      } else {
        assert Contains(rs[|requests|], j);
      }
    }
  }

  /** Scanning past a separator line emits nothing and leaves nothing uncovered. */
  lemma SkipDelimiter(lines: seq<string>, requests: seq<Block>, i: int)
    requires Emitted(lines, requests, i)
    requires 0 <= i < |lines| && IsDelimiter(lines[i])
    ensures Emitted(lines, requests, i + 1)
  {
  }

  /** Dropping the empty requests of a complete scan leaves exactly the split. */
  lemma FinishSplit(lines: seq<string>, requests: seq<Block>)
    requires Emitted(lines, requests, |lines|)
    ensures IsSplit(lines, NonEmpty(requests))
  {
    forall j | 0 <= j < |lines| && !IsDelimiter(lines[j]) && !AllWhitespace(lines[j])
      ensures Covered(NonEmpty(requests), j)
    {
      CoverSurvivesFilter(lines, requests, j);
    }
  }

  /** A non-blank line covered by some request is still covered once blank requests are dropped. */
  lemma CoverSurvivesFilter(lines: seq<string>, requests: seq<Block>, j: int)
    requires forall r :: r in requests ==> Spans(lines, r)
    requires 0 <= j < |lines| && !AllWhitespace(lines[j]) && Covered(requests, j)
    ensures Covered(NonEmpty(requests), j)
  {
    var k :| 0 <= k < |requests| && Contains(requests[k], j);
    var r := requests[k];
    assert r in requests;
    BlankBlock(lines, r);
    var blocks := NonEmpty(requests);
    assert r in blocks;
    var k' :| 0 <= k' < |blocks| && blocks[k'] == r;
    assert Contains(blocks[k'], j);
  }

  /** The scan state before line `i`: `curr` holds the pending separator-free run that starts at
      `startLine` (0-based), and `requests` holds what was emitted for the lines before `done`. */
  ghost predicate ScanState(lines: seq<string>, i: int, requests: seq<Block>, curr: seq<string>,
                            startLine: int, done: int)
  {
    && 0 <= i <= |lines|
    && done == (if |curr| > 0 then startLine else i)
    && (|curr| > 0 ==>
          && 0 <= startLine < i
          && curr == lines[startLine..i]
          && NoDelimiterIn(lines, startLine, i)
          && (startLine == 0 || IsDelimiter(lines[startLine - 1])))
    && (|curr| == 0 ==> i == 0 || IsDelimiter(lines[i - 1]))
    && Emitted(lines, requests, done)
    && |requests| <= CountDelimiters(lines[..i])
  }

  lemma CountDelimitersStep(lines: seq<string>, i: int)
    requires 0 <= i < |lines|
    ensures CountDelimiters(lines[..i + 1])
         == CountDelimiters(lines[..i]) + (if IsDelimiter(lines[i]) then 1 else 0)
  {
    assert lines[..i + 1][..i] == lines[..i];
  }

  /** A separator line closes the pending run, if any. */
  lemma ScanDelimiter(lines: seq<string>, i: int, requests: seq<Block>, curr: seq<string>,
                      startLine: int, done: int)
    requires ScanState(lines, i, requests, curr, startLine, done)
    requires i < |lines| && IsDelimiter(lines[i])
    ensures |curr| > 0 ==>
              ScanState(lines, i + 1, requests + [Block(Trim(Join(curr, "\n")), startLine + 1, i)],
                        [], startLine, i + 1)
    ensures |curr| == 0 ==> ScanState(lines, i + 1, requests, [], startLine, i + 1)
  {
    CountDelimitersStep(lines, i);
    if |curr| > 0 {
      var b := Block(Trim(Join(curr, "\n")), startLine + 1, i);
      EmitRun(lines, requests, b, startLine, i);
      SkipDelimiter(lines, requests + [b], i);
    } else {
      SkipDelimiter(lines, requests, i);
    }
  }

  /** Any other line joins the pending run, opening one if none is pending. */
  lemma ScanOther(lines: seq<string>, i: int, requests: seq<Block>, curr: seq<string>,
                  startLine: int, done: int)
    requires ScanState(lines, i, requests, curr, startLine, done)
    requires i < |lines| && !IsDelimiter(lines[i])
    ensures |curr| == 0 ==> ScanState(lines, i + 1, requests, curr + [lines[i]], i, i)
    ensures |curr| > 0 ==> ScanState(lines, i + 1, requests, curr + [lines[i]], startLine, startLine)
  {
    CountDelimitersStep(lines, i);
    var startLine' := if |curr| == 0 then i else startLine;
    assert lines[startLine'..i + 1] == lines[startLine'..i] + [lines[i]];
  }

  /** At the end of the file the pending run, if any, is emitted, and dropping the empty
      requests leaves the split. */
  lemma FinishScan(lines: seq<string>, requests: seq<Block>, curr: seq<string>, startLine: int,
                   done: int)
    requires ScanState(lines, |lines|, requests, curr, startLine, done)
    ensures |curr| > 0 ==>
              var final := requests + [Block(Trim(Join(curr, "\n")), startLine + 1, |lines|)];
              IsSplit(lines, NonEmpty(final)) && |NonEmpty(final)| <= CountDelimiters(lines) + 1
    ensures |curr| == 0 ==>
              IsSplit(lines, NonEmpty(requests)) && |NonEmpty(requests)| <= CountDelimiters(lines) + 1
  {
    assert lines[..|lines|] == lines;
    if |curr| > 0 {
      var b := Block(Trim(Join(curr, "\n")), startLine + 1, |lines|);
      EmitRun(lines, requests, b, startLine, |lines|);
      FinishSplit(lines, requests + [b]);
    } else {
      FinishSplit(lines, requests);
    }
  }

  /** The loop of `splitHttpRequests`: a single pass over the lines that keeps the pending
      request's lines in `curr` and emits it at each separator and at the end of the file,
      followed by dropping requests whose text is empty. */
  method SplitLinesIntoRequests(lines: seq<string>) returns (blocks: seq<Block>)
    ensures IsSplit(lines, blocks)
    ensures |blocks| <= CountDelimiters(lines) + 1
  {
    var requests: seq<Block> := [];
    var curr: seq<string> := [];
    var startLine := 0;
    ghost var done := 0;  // every line before `done` is a separator or lies in an emitted request
    var i := 0;
    while i < |lines|
      invariant ScanState(lines, i, requests, curr, startLine, done)
    {
      var line := lines[i];
      if IsDelimiter(line) {
        ScanDelimiter(lines, i, requests, curr, startLine, done);
        if |curr| > 0 {
          requests := requests + [Block(Trim(Join(curr, "\n")), startLine + 1, i)];
          curr := [];
        }
        done := i + 1;
      } else {
        ScanOther(lines, i, requests, curr, startLine, done);
        if |curr| == 0 {
          startLine := i;
        }
        curr := curr + [line];
        done := startLine;
      }
      i := i + 1;
    }
    FinishScan(lines, requests, curr, startLine, done);
    if |curr| > 0 {
      requests := requests + [Block(Trim(Join(curr, "\n")), startLine + 1, |lines|)];
    }
    blocks := NonEmpty(requests);
  }

  /** `splitHttpRequests(content)`: splits the text into lines on LF or CRLF and cuts the lines
      into requests at the separators. */
  method SplitHttpRequests(content: string) returns (blocks: seq<Block>)
    ensures IsSplit(SplitLines(content), blocks)
    ensures |blocks| <= CountDelimiters(SplitLines(content)) + 1
  {
    blocks := SplitLinesIntoRequests(SplitLines(content));
  }

  lemma FirstTwoInOrder(blocks: seq<Block>)
    requires InOrder(blocks)
    ensures |blocks| >= 2 ==> blocks[0].endLine < blocks[1].startLine
  {
  }

  /** A file without separators but with some text is a single request spanning every line. */
  lemma {:induction false} NoDelimiterOneBlock(lines: seq<string>, blocks: seq<Block>)
    requires IsSplit(lines, blocks)
    requires forall j :: 0 <= j < |lines| ==> !IsDelimiter(lines[j])
    requires exists j :: 0 <= j < |lines| && !AllWhitespace(lines[j])
    ensures |blocks| == 1 && blocks[0].startLine == 1 && blocks[0].endLine == |lines|
  {
    var j :| 0 <= j < |lines| && !AllWhitespace(lines[j]);
    assert Covered(blocks, j);
    assert forall k :: 0 <= k < |blocks| ==> blocks[k].startLine == 1 && blocks[k].endLine == |lines|;
    FirstTwoInOrder(blocks);
  }

  /** When there are no separators, the single request holds all the lines, joined and trimmed. */
  lemma WholeFileBlock(lines: seq<string>, blocks: seq<Block>)
    requires IsSplit(lines, blocks)
    requires forall j :: 0 <= j < |lines| ==> !IsDelimiter(lines[j])
    requires exists j :: 0 <= j < |lines| && !AllWhitespace(lines[j])
    ensures blocks == [Block(Trim(Join(lines, "\n")), 1, |lines|)]
  {
    NoDelimiterOneBlock(lines, blocks);
    assert blocks[0] in blocks;
    assert lines[0..|lines|] == lines;
    assert blocks == [blocks[0]];
  }

  /** For a file without separators that is not blank, the single request is the whole file
      with each CRLF read as LF, trimmed. */
  lemma SingleRequestFile(content: string, blocks: seq<Block>)
    requires IsSplit(SplitLines(content), blocks)
    requires forall j :: 0 <= j < |SplitLines(content)| ==> !IsDelimiter(SplitLines(content)[j])
    requires !AllWhitespace(content)
    ensures blocks == [Block(Trim(DropCRBeforeLF(content)), 1, |SplitLines(content)|)]
  {
    var lines := SplitLines(content);
    JoinSplitLinesAll(content);
    DropCRBlank(content);
    assert AllWhitespace("\n") by {
      assert "\n"[0] == '\n';
    }
    JoinAllWhitespace(lines, "\n");
    WholeFileBlock(lines, blocks);
  }

  /** A file made only of separators and blank lines holds no request. */
  lemma OnlyDelimitersAndBlanks(lines: seq<string>, blocks: seq<Block>)
    requires IsSplit(lines, blocks)
    requires forall j :: 0 <= j < |lines| ==> IsDelimiter(lines[j]) || AllWhitespace(lines[j])
    ensures blocks == []
  {
    if |blocks| > 0 {
      BlankBlock(lines, blocks[0]);
    }
  }

  /** Two maximal separator-free runs sharing a line are the same block. */
  lemma SameRun(lines: seq<string>, x: Block, y: Block, j: int)
    requires Spans(lines, x) && Maximal(lines, x) && Contains(x, j)
    requires Spans(lines, y) && Maximal(lines, y) && Contains(y, j)
    ensures x == y
  {
    assert x.startLine == y.startLine;
    assert x.endLine == y.endLine;
  }

  /** Blocks in order start strictly later the later they come. */
  lemma InOrderStarts(bs: seq<Block>)
    requires InOrder(bs) && WellFormed(bs)
    ensures forall k :: 0 < k < |bs| ==> bs[0].startLine < bs[k].startLine
  {
  }

  /** Two lists hold the same blocks. */
  ghost predicate SameElements(a: seq<Block>, b: seq<Block>) {
    forall x :: x in a <==> x in b
  }

  lemma EmptyTogether(a: seq<Block>, b: seq<Block>)
    requires SameElements(a, b)
    ensures |a| == 0 <==> |b| == 0
  {
    assert |a| > 0 ==> a[0] in b;
    assert |b| > 0 ==> b[0] in a;
  }

  /** Ordered lists of well-formed blocks holding the same blocks begin with the same block. */
  lemma SameFirstBlock(a: seq<Block>, b: seq<Block>)
    requires InOrder(a) && InOrder(b) && WellFormed(a) && WellFormed(b)
    requires |a| > 0 && |b| > 0 && SameElements(a, b)
    ensures a[0] == b[0]
  {
    assert b[0] in a && a[0] in b;
    InOrderStarts(a);
    InOrderStarts(b);
    var n :| 0 <= n < |a| && a[n] == b[0];
    var m :| 0 <= m < |b| && b[m] == a[0];
    assert b[0].startLine <= a[0].startLine;
    assert n == 0;
  }

  /** Dropping equal first blocks keeps two ordered lists holding the same blocks. */
  lemma SameRestBlocks(a: seq<Block>, b: seq<Block>)
    requires InOrder(a) && InOrder(b) && WellFormed(a) && WellFormed(b)
    requires |a| > 0 && |b| > 0 && a[0] == b[0] && SameElements(a, b)
    ensures SameElements(a[1..], b[1..])
  {
    InOrderStarts(a);
    InOrderStarts(b);
    forall x
      ensures x in a[1..] ==> x in b[1..]
      ensures x in b[1..] ==> x in a[1..]
    {
      if x in a[1..] {
        var i :| 0 <= i < |a[1..]| && a[1..][i] == x;
        assert a[i + 1] == x;
        assert x in b;
        var k :| 0 <= k < |b| && b[k] == x;
        assert b[1..][k - 1] == x;
      }
      if x in b[1..] {
        var i :| 0 <= i < |b[1..]| && b[1..][i] == x;
        assert b[i + 1] == x;
        assert x in a;
        var k :| 0 <= k < |a| && a[k] == x;
        assert a[1..][k - 1] == x;
      }
    }
  }

  lemma ConsEqual(a: seq<Block>, b: seq<Block>)
    requires |a| > 0 && |b| > 0 && a[0] == b[0] && a[1..] == b[1..]
    ensures a == b
  {
    assert a == [a[0]] + a[1..];
    assert b == [b[0]] + b[1..];
  }

  /** Two ordered lists of well-formed blocks holding the same blocks are equal. */
  lemma {:induction false} SameBlocks(a: seq<Block>, b: seq<Block>)
    requires InOrder(a) && InOrder(b) && WellFormed(a) && WellFormed(b) && SameElements(a, b)
    ensures a == b
    decreases |a|
  {
    EmptyTogether(a, b);
    if |a| > 0 {
      SameFirstBlock(a, b);
      SameRestBlocks(a, b);
      InOrderTail(a);
      InOrderTail(b);
      SameBlocks(a[1..], b[1..]);
      ConsEqual(a, b);
    }
  }

  /** Every block of one split of `lines` is a block of any other. */
  lemma SplitBlocksShared(lines: seq<string>, a: seq<Block>, b: seq<Block>)
    requires IsSplit(lines, a) && IsSplit(lines, b)
    ensures forall x :: x in a ==> x in b
  {
    forall x | x in a
      ensures x in b
    {
      BlankBlock(lines, x);
      var j :| x.startLine - 1 <= j < x.endLine && !AllWhitespace(lines[j]);
      assert Covered(b, j);
      var m :| 0 <= m < |b| && Contains(b[m], j);
      SameRun(lines, x, b[m], j);
    }
  }

  /** `IsSplit` pins the result down completely: at most one list of blocks satisfies it, so
      the postcondition of `SplitHttpRequests` determines its output. */
  lemma SplitIsUnique(lines: seq<string>, a: seq<Block>, b: seq<Block>)
    requires IsSplit(lines, a) && IsSplit(lines, b)
    ensures a == b
  {
    SplitBlocksShared(lines, a, b);
    SplitBlocksShared(lines, b, a);
    assert WellFormed(a) && WellFormed(b);
    SameBlocks(a, b);
  }
}
