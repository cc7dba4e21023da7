/** The model text (Model/Model.py): a model file is a sequence of blocks,
    each introduced by a `*HEADER*` line and followed by its body lines,
    plus one free-text DESCRIPTION span running from a `<DESCRIPTION>`
    line to an `<END>` line.  Reading splits the lines into blocks kept
    in first-seen order under distinct headers (Python's OrderedDict);
    writing renders them back.  Lines are modelled without their line
    terminator: every test the reader applies (`strip`, `rstrip`, `in`)
    gives the same answer with or without it. */
module ModelText {
  import opened Wrappers
  import opened Text

  datatype Block = Block(header: string, body: seq<string>)

  const Description: string := "DESCRIPTION"
  const DescOpen: string := "<DESCRIPTION>"
  const DescClose: string := "<END>"

  /** The line a block header is written as. */
  function HeaderLine(h: string): string {
    "*" + h + "*"
  }

  // ---------------------------------------------------------------
  // parse_block_header
  // ---------------------------------------------------------------

  /** `parse_block_header`: the text between the stars of a stripped
      line that starts and ends with '*' and is longer than two
      characters. */
  function ParseBlockHeader(line: string): (r: Option<string>)
    ensures r.Some? <==> var s := Strip(line); |s| > 2 && s[0] == '*' && s[|s| - 1] == '*'
    ensures r.Some? ==> |r.value| > 0 && Strip(line) == HeaderLine(r.value)
  {
    HeaderOf(Strip(line))
  }

  /** The header a stripped line introduces. */
  function HeaderOf(s: string): (r: Option<string>)
    ensures r.Some? <==> |s| > 2 && s[0] == '*' && s[|s| - 1] == '*'
    ensures r.Some? ==> |r.value| > 0 && s == HeaderLine(r.value)
  {
    if |s| > 2 && s[0] == '*' && s[|s| - 1] == '*' then
      Enclosed(s, '*');
      Some(s[1..|s| - 1])
    else None
  }

  lemma Enclosed<T>(s: seq<T>, a: T)
    requires |s| >= 2 && s[0] == a && s[|s| - 1] == a
    ensures s == [a] + s[1..|s| - 1] + [a]
  {
  }

  /** A written header reads back as the same header. */
  lemma HeaderRoundTrip(h: string)
    requires |h| > 0
    ensures ParseBlockHeader(HeaderLine(h)) == Some(h)
  {
    var s := HeaderLine(h);
    StripIdentity(s);
    assert s[1..|s| - 1] == h;
  }

  // ---------------------------------------------------------------
  // BlockAdapter.from_lines
  // ---------------------------------------------------------------

  /** A line as the reader stores it: not blank, and right-stripped. */
  predicate Tidy(l: string) {
    |l| > 0 && !IsSpace(l[|l| - 1])
  }

  /** `f` applied to each element, the results concatenated. */
  function FlatMap<T, U>(xs: seq<T>, f: T -> seq<U>): seq<U> {
    if |xs| == 0 then [] else f(xs[0]) + FlatMap(xs[1..], f)
  }

  lemma {:induction false} FlatMapConcat<T, U>(a: seq<T>, b: seq<T>, f: T -> seq<U>)
    ensures FlatMap(a + b, f) == FlatMap(a, f) + FlatMap(b, f)
    decreases |a|
  {
    if |a| == 0 {
      assert a + b == b;
    } else {
      assert (a + b)[1..] == a[1..] + b;
      FlatMapConcat(a[1..], b, f);
    }
  }

  /** Mapping each element to itself alone gives the elements back. */
  lemma {:induction false} FlatMapFixed<T>(xs: seq<T>, f: T -> seq<T>)
    requires forall k :: 0 <= k < |xs| ==> f(xs[k]) == [xs[k]]
    ensures FlatMap(xs, f) == xs
    decreases |xs|
  {
    if |xs| > 0 {
      FlatMapFixed(xs[1..], f);
      assert [xs[0]] + xs[1..] == xs;
    }
  }

  /** A map to at most one tidy line gives at most one tidy line each. */
  lemma {:induction false} FlatMapTidy(xs: seq<string>, f: string -> seq<string>)
    requires forall x :: |f(x)| <= 1 && (|f(x)| == 1 ==> Tidy(f(x)[0]))
    ensures |FlatMap(xs, f)| <= |xs|
    ensures forall k :: 0 <= k < |FlatMap(xs, f)| ==> Tidy(FlatMap(xs, f)[k])
    decreases |xs|
  {
    if |xs| > 0 {
      FlatMapTidy(xs[1..], f);
    }
  }

  /** The non-blank lines, each right-stripped, in order. */
  function Clean(lines: seq<string>): (r: seq<string>)
    ensures |r| <= |lines|
    ensures forall k :: 0 <= k < |r| ==> Tidy(r[k])
  {
    FlatMapTidy(lines, CleanLine);
    FlatMap(lines, CleanLine)
  }

  /** One line as the reader keeps it: nothing when blank, else the line
      right-stripped. */
  function CleanLine(l: string): (r: seq<string>)
    ensures |r| <= 1
    ensures |r| == 1 ==> Tidy(r[0])
  {
    if |Strip(l)| == 0 then []
    else
      StrippedNotEmpty(l);
      [RStrip(l)]
  }

  /** A tidy line is kept as it is. */
  lemma TidyKept(l: string)
    requires Tidy(l)
    ensures CleanLine(l) == [l]
    ensures Clean([l]) == [l]
  {
    StripEmptyIffBlank(l);
    assert !IsBlank(l);
    CleanOne(l);
  }

  lemma CleanOne(l: string)
    ensures Clean([l]) == CleanLine(l)
  {
    FlatMapOne(l, CleanLine);
  }

  lemma FlatMapOne<T, U>(x: T, f: T -> seq<U>)
    ensures FlatMap([x], f) == f(x)
  {
    assert [x][1..] == [];
    assert FlatMap<T, U>([], f) == [];
    assert f(x) + [] == f(x);
  }

  /** A blank line is dropped. */
  lemma BlankDropped(l: string)
    requires IsBlank(l)
    ensures Clean([l]) == []
  {
    StripEmptyIffBlank(l);
    CleanOne(l);
  }

  /** Cleaning works line by line. */
  lemma CleanConcat(a: seq<string>, b: seq<string>)
    ensures Clean(a + b) == Clean(a) + Clean(b)
  {
    FlatMapConcat(a, b, CleanLine);
  }

  /** Lines that are all tidy are kept unchanged. */
  lemma CleanTidy(lines: seq<string>)
    requires forall k :: 0 <= k < |lines| ==> Tidy(lines[k])
    ensures Clean(lines) == lines
  {
    forall k | 0 <= k < |lines|
      ensures CleanLine(lines[k]) == [lines[k]]
    {
      TidyKept(lines[k]);
    }
    FlatMapFixed(lines, CleanLine);
  }

  /** `from_lines`: the block with the given header whose body is the
      non-blank lines, right-stripped. */
  function FromLines(header: string, lines: seq<string>): (r: Block)
    ensures r.header == header
    ensures forall k :: 0 <= k < |r.body| ==> Tidy(r.body[k])
  {
    Block(header, Clean(lines))
  }

  /** Re-reading a block's own body changes nothing. */
  lemma FromLinesIdempotent(header: string, lines: seq<string>)
    ensures FromLines(header, FromLines(header, lines).body) == FromLines(header, lines)
  {
    CleanTidy(Clean(lines));
  }

  // ---------------------------------------------------------------
  // The block dictionary
  // ---------------------------------------------------------------

  predicate HasHeader(bs: seq<Block>, h: string) {
    exists k | 0 <= k < |bs| :: bs[k].header == h
  }

  /** Headers are the keys of a dictionary: no two blocks share one. */
  predicate Distinct(bs: seq<Block>) {
    forall i, j | 0 <= i < j < |bs| :: bs[i].header != bs[j].header
  }

  /** The body stored under a header: the dictionary's `get`. */
  function Lookup(bs: seq<Block>, h: string): (r: Option<seq<string>>)
    ensures r.None? <==> !HasHeader(bs, h)
  {
    if |bs| == 0 then None
    else if bs[0].header == h then Some(bs[0].body)
    else
      var r := Lookup(bs[1..], h);
      assert HasHeader(bs, h) <==> HasHeader(bs[1..], h);
      r
  }

  /** `blocks[b.header] = b` on an ordered dictionary: an existing entry
      is replaced where it stands, a new one goes last. */
  function Put(bs: seq<Block>, b: Block): (r: seq<Block>)
    ensures |bs| <= |r| <= |bs| + 1
    ensures forall k :: 0 <= k < |bs| ==> r[k].header == bs[k].header
    ensures |r| > |bs| ==> r[|bs|] == b
  {
    if |bs| == 0 then [b]
    else if bs[0].header == b.header then [b] + bs[1..]
    else [bs[0]] + Put(bs[1..], b)
  }

  /** A new header goes last; an existing one keeps the count. */
  lemma {:induction false} PutShape(bs: seq<Block>, b: Block)
    ensures !HasHeader(bs, b.header) ==> Put(bs, b) == bs + [b]
    ensures HasHeader(bs, b.header) ==> |Put(bs, b)| == |bs|
    decreases |bs|
  {
    if |bs| > 0 && bs[0].header != b.header {
      PutShape(bs[1..], b);
      assert HasHeader(bs, b.header) <==> HasHeader(bs[1..], b.header) by {
        if HasHeader(bs, b.header) {
          var k :| 0 <= k < |bs| && bs[k].header == b.header;
          assert bs[1..][k - 1].header == b.header;
        }
        if HasHeader(bs[1..], b.header) {
          var k :| 0 <= k < |bs| - 1 && bs[1..][k].header == b.header;
          assert bs[k + 1].header == b.header;
        }
      }
      assert [bs[0]] + (bs[1..] + [b]) == bs + [b];
    } else if |bs| > 0 {
      assert bs[0].header == b.header;
    }
  }

  /** Putting into a dictionary keeps its keys distinct. */
  lemma {:induction false} PutDistinct(bs: seq<Block>, b: Block)
    ensures Distinct(bs) ==> Distinct(Put(bs, b))
    decreases |bs|
  {
    if |bs| > 0 && bs[0].header != b.header && Distinct(bs) {
      PutDistinct(bs[1..], b);
      var rest := Put(bs[1..], b);
      assert forall j :: 0 <= j < |rest| ==> rest[j].header != bs[0].header by {
        forall j | 0 <= j < |rest|
          ensures rest[j].header != bs[0].header
        {
          if j < |bs| - 1 {
            assert rest[j].header == bs[j + 1].header;
          }
        }
      }
    }
  }

  /** After `Put` the header holds the new body, and every other header
      what it held before. */
  lemma {:induction false} PutLookup(bs: seq<Block>, b: Block, h: string)
    ensures Lookup(Put(bs, b), h) == if h == b.header then Some(b.body) else Lookup(bs, h)
    decreases |bs|
  {
    if |bs| > 0 && bs[0].header != b.header {
      PutLookup(bs[1..], b, h);
      assert Put(bs, b)[1..] == Put(bs[1..], b);
    }
  }

  // ---------------------------------------------------------------
  // ModelAdapter.from_text
  // ---------------------------------------------------------------

  /** The loop's variables: the blocks saved so far, the open block's
      header (`current_block`), the lines collected for it, and whether
      the DESCRIPTION span is open. */
  datatype Reader = Reader(blocks: seq<Block>, current: Option<string>, lines: seq<string>, inDesc: bool)

  const Start: Reader := Reader([], None, [], false)

  /** `if current_block: blocks[current_block] = Block(...)`. */
  function Flush(st: Reader): (r: seq<Block>)
    ensures Distinct(st.blocks) ==> Distinct(r)
  {
    match st.current
    case None => st.blocks
    case Some(h) =>
      if |h| == 0 then st.blocks
      else PutDistinct(st.blocks, Block(h, st.lines)); Put(st.blocks, Block(h, st.lines))
  }

  /** One turn of the loop.  A `<DESCRIPTION>` line saves the open block
      and opens the DESCRIPTION span with that line; inside the span
      every line is kept right-stripped, blank or not, and an `<END>`
      line closes and saves it.  Elsewhere a header line saves the open
      block and opens a new one, and any other non-blank line is
      collected right-stripped. */
  function Step(st: Reader, line: string): (r: Reader)
    ensures Distinct(st.blocks) ==> Distinct(r.blocks)
  {
    if Find(line, DescOpen) then
      Reader(Flush(st), Some(Description), [RStrip(line)], true)
    else if st.inDesc then
      var ls := st.lines + [RStrip(line)];
      if Find(line, DescClose) then
        PutDistinct(st.blocks, Block(Description, ls));
        Reader(Put(st.blocks, Block(Description, ls)), None, [], false)
      else st.(lines := ls)
    else
      match ParseBlockHeader(line)
      case Some(h) => Reader(Flush(st), Some(h), [], false)
      case None => if |Strip(line)| == 0 then st else st.(lines := st.lines + [RStrip(line)])
  }

  function Run(st: Reader, lines: seq<string>): (r: Reader)
    ensures Distinct(st.blocks) ==> Distinct(r.blocks)
    decreases |lines|
  {
    if |lines| == 0 then st else Run(Step(st, lines[0]), lines[1..])
  }

  /** After the loop the open block is saved, unless a block with its
      header was saved already. */
  function Finish(st: Reader): (r: seq<Block>)
    ensures Distinct(st.blocks) ==> Distinct(r)
  {
    match st.current
    case Some(h) =>
      if |h| > 0 && !HasHeader(st.blocks, h) then
        PutDistinct(st.blocks, Block(h, st.lines)); Put(st.blocks, Block(h, st.lines))
      else st.blocks
    case None => st.blocks
  }

  /** `from_text` on the lines of a model file. */
  function FromText(lines: seq<string>): (r: seq<Block>)
    ensures Distinct(r)
  {
    Finish(Run(Start, lines))
  }

  /** The lines of a text as Python's line iteration yields them, less
      their terminators: a final newline ends the last line rather than
      starting an empty one. */
  function FileLines(text: string): (r: seq<string>)
    ensures forall k :: 0 <= k < |r| ==> '\n' !in r[k]
  {
    if |text| == 0 then []
    else if text[|text| - 1] == '\n' then SplitOn(text[..|text| - 1], '\n')
    else SplitOn(text, '\n')
  }

  // ---------------------------------------------------------------
  // Reading, lemmas
  // ---------------------------------------------------------------

  /** Stated over any element type, so that lines are not compared
      character by character. */
  lemma ConcatAssoc<T>(a: seq<T>, b: seq<T>, c: seq<T>)
    ensures (a + b) + c == a + (b + c)
  {
  }

  lemma {:induction false} RunConcat(st: Reader, a: seq<string>, b: seq<string>)
    ensures Run(st, a + b) == Run(Run(st, a), b)
    decreases |a|
  {
    if |a| == 0 {
      assert a + b == b;
    } else {
      assert (a + b)[1..] == a[1..] + b;
      RunConcat(Step(st, a[0]), a[1..], b);
    }
  }

  /** A line that is neither a header nor opens the DESCRIPTION span. */
  predicate PlainLine(l: string) {
    !Find(l, DescOpen) && ParseBlockHeader(l).None?
  }

  /** Outside the DESCRIPTION span a plain line only adds to the open
      block's lines: itself right-stripped, or nothing when blank. */
  lemma PlainStep(st: Reader, l: string)
    requires !st.inDesc && PlainLine(l)
    ensures Step(st, l) == st.(lines := st.lines + Clean([l]))
  {
    CleanOne(l);
    if |Strip(l)| == 0 {
      assert st.lines + [] == st.lines;
    }
  }

  /** One turn of `RunPlain`'s induction: a plain first line, then the
      rest as the induction hypothesis says. */
  lemma RunPlainCons(st: Reader, l: string, rest: seq<string>)
    requires !st.inDesc && PlainLine(l)
    requires var next := Step(st, l); Run(next, rest) == next.(lines := next.lines + Clean(rest))
    ensures Run(st, [l] + rest) == st.(lines := st.lines + Clean([l] + rest))
  {
    var ls := [l] + rest;
    assert ls[0] == l && ls[1..] == rest;
    PlainStep(st, l);
    CleanConcat([l], rest);
    ReaderAppend(st, Step(st, l), Run(Step(st, l), rest), Clean([l]), Clean(rest));
  }

  /** Collecting `a` and then `b` collects `a + b`. */
  lemma ReaderAppend(st: Reader, next: Reader, last: Reader, a: seq<string>, b: seq<string>)
    requires next == st.(lines := st.lines + a) && last == next.(lines := next.lines + b)
    ensures last == st.(lines := st.lines + (a + b))
  {
    ConcatAssoc(st.lines, a, b);
  }

  /** Outside the DESCRIPTION span, plain lines only add to the open
      block's lines: the non-blank ones, right-stripped. */
  lemma {:induction false} RunPlain(st: Reader, ls: seq<string>)
    requires !st.inDesc
    requires forall k :: 0 <= k < |ls| ==> PlainLine(ls[k])
    ensures Run(st, ls) == st.(lines := st.lines + Clean(ls))
    decreases |ls|
  {
    if |ls| > 0 {
      PlainStep(st, ls[0]);
      RunPlain(Step(st, ls[0]), ls[1..]);
      RunPlainCons(st, ls[0], ls[1..]);
      assert [ls[0]] + ls[1..] == ls;
    } else {
      assert st.lines + [] == st.lines;
    }
  }

  /** Outside the DESCRIPTION span a header line saves the open block and
      opens an empty one. */
  lemma HeaderStep(st: Reader, line: string, h: string)
    requires !st.inDesc && !Find(line, DescOpen) && ParseBlockHeader(line) == Some(h)
    ensures Step(st, line) == Reader(Flush(st), Some(h), [], false)
  {
  }

  /** Lines before the first header are discarded. */
  lemma PreambleDropped(pre: seq<string>, head: string, rest: seq<string>)
    requires forall k :: 0 <= k < |pre| ==> PlainLine(pre[k])
    requires !Find(head, DescOpen) && ParseBlockHeader(head).Some?
    ensures FromText(pre + [head] + rest) == FromText([head] + rest)
  {
    assert pre + [head] + rest == pre + ([head] + rest);
    RunConcat(Start, pre, [head] + rest);
    var mid := PreambleRun(pre);
    RunCons(mid, head, rest);
    RunCons(Start, head, rest);
    HeaderResets(mid, head);
  }

  /** Plain lines before any header only collect lines nobody saves. */
  lemma PreambleRun(pre: seq<string>) returns (mid: Reader)
    requires forall k :: 0 <= k < |pre| ==> PlainLine(pre[k])
    ensures Run(Start, pre) == mid && mid.blocks == [] && mid.current.None? && !mid.inDesc
  {
    RunPlain(Start, pre);
    mid := Start.(lines := Start.lines + Clean(pre));
  }

  /** A header line read with no block open and none saved opens the
      same block whatever lines were collected. */
  lemma HeaderResets(st: Reader, head: string)
    requires st.blocks == [] && st.current.None? && !st.inDesc
    requires !Find(head, DescOpen) && ParseBlockHeader(head).Some?
    ensures Step(st, head) == Step(Start, head)
  {
    var h := ParseBlockHeader(head).value;
    HeaderStep(st, head, h);
    HeaderStep(Start, head, h);
  }

  /** A header line followed by plain lines reads as the one block that
      `from_lines` builds from those lines. */
  lemma SingleBlock(head: string, body: seq<string>)
    requires !Find(head, DescOpen) && ParseBlockHeader(head).Some?
    requires forall k :: 0 <= k < |body| ==> PlainLine(body[k])
    ensures FromText([head] + body) == [FromLines(ParseBlockHeader(head).value, body)]
  {
    var h := ParseBlockHeader(head).value;
    assert ([head] + body)[0] == head && ([head] + body)[1..] == body;
    HeaderStep(Start, head, h);
    var st := Reader([], Some(h), [], false);
    RunPlain(st, body);
    assert [] + Clean(body) == Clean(body);
  }

  /** Every line, right-stripped. */
  function RStripAll(ls: seq<string>): (r: seq<string>)
    ensures |r| == |ls| && forall k :: 0 <= k < |ls| ==> r[k] == RStrip(ls[k])
  {
    seq(|ls|, k requires 0 <= k < |ls| => RStrip(ls[k]))
  }

  /** Inside the DESCRIPTION span a line that neither opens nor closes
      it is kept right-stripped. */
  lemma DescStep(st: Reader, l: string)
    requires st.inDesc && !Find(l, DescOpen) && !Find(l, DescClose)
    ensures Step(st, l) == st.(lines := st.lines + [RStrip(l)])
  {
  }

  /** Inside the DESCRIPTION span each line is kept right-stripped,
      blank lines included. */
  lemma {:induction false} RunInDescription(st: Reader, ls: seq<string>)
    requires st.inDesc
    requires forall k :: 0 <= k < |ls| ==> !Find(ls[k], DescOpen) && !Find(ls[k], DescClose)
    ensures Run(st, ls) == st.(lines := st.lines + RStripAll(ls))
    decreases |ls|
  {
    if |ls| > 0 {
      DescStep(st, ls[0]);
      RunInDescription(Step(st, ls[0]), ls[1..]);
      assert RStripAll(ls) == [RStrip(ls[0])] + RStripAll(ls[1..]);
      ConcatAssoc(st.lines, [RStrip(ls[0])], RStripAll(ls[1..]));
    } else {
      assert st.lines + [] == st.lines;
    }
  }

  /** The DESCRIPTION block spans from the `<DESCRIPTION>` line through
      the `<END>` line inclusive, every line right-stripped. */
  lemma DescriptionSpan(first: string, mid: seq<string>, last: string)
    requires Find(first, DescOpen)
    requires forall k :: 0 <= k < |mid| ==> !Find(mid[k], DescOpen) && !Find(mid[k], DescClose)
    requires !Find(last, DescOpen) && Find(last, DescClose)
    ensures FromText([first] + mid + [last]) == [Block(Description, RStripAll([first] + mid + [last]))]
  {
    ConcatAssoc([first], mid, [last]);
    RunCons(Start, first, mid + [last]);
    DescOpenStep(first);
    var st := Reader([], Some(Description), [RStrip(first)], true);
    RunConcat(st, mid, [last]);
    RunInDescription(st, mid);
    DescCloseStep(st.(lines := [RStrip(first)] + RStripAll(mid)), last);
    RStripAllSpan(first, mid, last);
  }

  lemma RunCons(st: Reader, l: string, rest: seq<string>)
    ensures Run(st, [l] + rest) == Run(Step(st, l), rest)
  {
    var ls := [l] + rest;
    assert ls[0] == l && ls[1..] == rest;
  }

  /** A `<DESCRIPTION>` line at the start opens the span with itself. */
  lemma DescOpenStep(first: string)
    requires Find(first, DescOpen)
    ensures Step(Start, first) == Reader([], Some(Description), [RStrip(first)], true)
  {
  }

  /** An `<END>` line inside the span closes it and saves it. */
  lemma DescCloseStep(st: Reader, last: string)
    requires st.inDesc && st.blocks == [] && !Find(last, DescOpen) && Find(last, DescClose)
    ensures Finish(Run(st, [last])) == [Block(Description, st.lines + [RStrip(last)])]
  {
    assert Run(st, [last]) == Step(st, last);
  }

  lemma RStripAllSpan(first: string, mid: seq<string>, last: string)
    ensures RStripAll([first] + mid + [last]) == [RStrip(first)] + RStripAll(mid) + [RStrip(last)]
  {
    RStripAllConcat([first], mid);
    RStripAllConcat([first] + mid, [last]);
  }

  lemma RStripAllConcat(a: seq<string>, b: seq<string>)
    ensures RStripAll(a + b) == RStripAll(a) + RStripAll(b)
  {
    var l, r := RStripAll(a + b), RStripAll(a) + RStripAll(b);
    forall k | 0 <= k < |l|
      ensures l[k] == r[k]
    {
      if k < |a| {
        assert (a + b)[k] == a[k];
      } else {
        assert (a + b)[k] == b[k - |a|];
      }
    }
  }

  // ---------------------------------------------------------------
  // ModelAdapter.to_text
  // ---------------------------------------------------------------

  /** One block's text: DESCRIPTION is five newlines and its body; any
      other block is its header line, then its body lines. */
  function BlockText(b: Block): string {
    if b.header == Description then "\n\n\n\n\n" + JoinWith(b.body, "\n")
    else if |b.body| > 0 then HeaderLine(b.header) + "\n" + JoinWith(b.body, "\n")
    else HeaderLine(b.header)
  }

  function BlockTexts(bs: seq<Block>): (r: seq<string>)
    ensures |r| == |bs| && forall k :: 0 <= k < |bs| ==> r[k] == BlockText(bs[k])
  {
    seq(|bs|, k requires 0 <= k < |bs| => BlockText(bs[k]))
  }

  /** `to_text`: the block texts joined by newlines, stripped, with one
      final newline. */
  function ToText(bs: seq<Block>): string {
    Strip(JoinWith(BlockTexts(bs), "\n")) + "\n"
  }

  /** A block's lines: its header line, then its body. */
  function BlockLines(b: Block): seq<string> {
    [HeaderLine(b.header)] + b.body
  }

  function ToLines(bs: seq<Block>): (r: seq<string>)
    ensures |bs| > 0 ==> |r| > 0
  {
    if |bs| == 0 then [] else BlockLines(bs[0]) + ToLines(bs[1..])
  }

  lemma {:induction false} ToLinesSnoc(bs: seq<Block>, b: Block)
    ensures ToLines(bs + [b]) == ToLines(bs) + BlockLines(b)
    decreases |bs|
  {
    if |bs| == 0 {
      assert [b][1..] == [];
      assert bs + [b] == [b];
    } else {
      assert (bs + [b])[1..] == bs[1..] + [b];
      ToLinesSnoc(bs[1..], b);
    }
  }

  /** A block the writer and the reader agree on: a non-empty header
      other than DESCRIPTION whose line is a plain header line, and a
      body of tidy plain lines, none holding a newline. */
  predicate PlainBlock(b: Block) {
    && Writable(b)
    && !Find(HeaderLine(b.header), DescOpen)
    && forall k :: 0 <= k < |b.body| ==> PlainLine(b.body[k])
  }

  /** What the writer needs of a block to produce lines that split back
      apart: a non-empty header other than DESCRIPTION, tidy body lines,
      and no newline anywhere. */
  predicate Writable(b: Block) {
    b.header != Description && LineSafe(b)
  }

  /** A non-empty header and tidy body lines, none holding a newline. */
  predicate LineSafe(b: Block) {
    && |b.header| > 0 && '\n' !in b.header
    && forall k :: 0 <= k < |b.body| ==> Tidy(b.body[k]) && '\n' !in b.body[k]
  }

  predicate PlainBlocks(bs: seq<Block>) {
    Distinct(bs) && forall k :: 0 <= k < |bs| ==> PlainBlock(bs[k])
  }

  lemma SplitLast<T>(s: seq<T>)
    requires |s| > 0
    ensures s == s[..|s| - 1] + [s[|s| - 1]]
  {
  }

  /** Saving the last of distinct blocks after the others appends it. */
  lemma SaveLast(bs: seq<Block>)
    requires |bs| > 0 && Distinct(bs)
    ensures Put(bs[..|bs| - 1], bs[|bs| - 1]) == bs
  {
    var n := |bs|;
    var init := bs[..n - 1];
    assert forall k :: 0 <= k < n - 1 ==> init[k].header != bs[n - 1].header;
    assert !HasHeader(init, bs[n - 1].header);
    PutShape(init, bs[n - 1]);
    SplitLast(bs);
  }

  lemma PlainBlocksInit(bs: seq<Block>)
    requires |bs| > 0 && PlainBlocks(bs)
    ensures PlainBlocks(bs[..|bs| - 1])
  {
  }

  /** Outside the DESCRIPTION span a plain block's lines save the open
      block and leave this one open with its body collected. */
  lemma BlockRun(st: Reader, b: Block)
    requires !st.inDesc && PlainBlock(b)
    ensures Run(st, BlockLines(b)) == Reader(Flush(st), Some(b.header), b.body, false)
  {
    RunCons(st, HeaderLine(b.header), b.body);
    HeaderOpens(st, b.header);
    BodyCollected(Reader(Flush(st), Some(b.header), [], false), b.body);
  }

  /** Outside the DESCRIPTION span a written header line saves the open
      block and opens the header's own. */
  lemma HeaderOpens(st: Reader, h: string)
    requires !st.inDesc && |h| > 0 && !Find(HeaderLine(h), DescOpen)
    ensures Step(st, HeaderLine(h)) == Reader(Flush(st), Some(h), [], false)
  {
    HeaderRoundTrip(h);
    HeaderStep(st, HeaderLine(h), h);
  }

  /** Tidy plain lines read into an empty open block become its lines
      unchanged. */
  lemma BodyCollected(st: Reader, body: seq<string>)
    requires !st.inDesc && st.lines == []
    requires forall k :: 0 <= k < |body| ==> PlainLine(body[k]) && Tidy(body[k])
    ensures Run(st, body) == st.(lines := body)
  {
    RunPlain(st, body);
    CleanTidy(body);
    assert [] + body == body;
  }

  /** Reading the lines of plain blocks leaves all but the last block
      saved, and the last one open with its body collected. */
  lemma {:induction false} RunBlocks(bs: seq<Block>)
    requires |bs| > 0 && PlainBlocks(bs)
    ensures Run(Start, ToLines(bs)) == Reader(bs[..|bs| - 1], Some(bs[|bs| - 1].header), bs[|bs| - 1].body, false)
    decreases |bs|
  {
    var n := |bs|;
    var init, last := bs[..n - 1], bs[n - 1];
    SplitLast(bs);
    ToLinesSnoc(init, last);
    RunConcat(Start, ToLines(init), BlockLines(last));
    var mid := Run(Start, ToLines(init));
    if n == 1 {
      assert mid == Start;
      BlockRun(mid, last);
    } else {
      PlainBlocksInit(bs);
      RunBlocks(init);
      BlockRun(mid, last);
      SaveLast(init);
    }
  }

  /** Reading the lines of plain blocks gives the blocks back. */
  lemma LinesRoundTrip(bs: seq<Block>)
    requires PlainBlocks(bs)
    ensures FromText(ToLines(bs)) == bs
  {
    if |bs| > 0 {
      RunBlocks(bs);
      SaveLast(bs);
      var n := |bs|;
      assert !HasHeader(bs[..n - 1], bs[n - 1].header);
    }
  }
}
