/** The model text written back (Model/Model.py, `to_text`): the text
    written for plain blocks splits back into the blocks' lines, and
    reads back as the same blocks. */
module ModelTextWrite {
  import opened Wrappers
  import opened Text
  import opened ModelText

  lemma {:induction false} JoinAppend(a: seq<string>, b: seq<string>, sep: string)
    requires |a| > 0 && |b| > 0
    ensures JoinWith(a + b, sep) == JoinWith(a, sep) + sep + JoinWith(b, sep)
    decreases |a|
  {
    if |a| == 1 {
      JoinCons(a[0], b, sep);
      assert a + b == [a[0]] + b;
    } else {
      assert a + b == [a[0]] + (a[1..] + b);
      JoinCons(a[0], a[1..] + b, sep);
      JoinAppend(a[1..], b, sep);
      JoinCons(a[0], a[1..], sep);
      assert a == [a[0]] + a[1..];
    }
  }

  /** A plain block's text is its lines joined by newlines. */
  lemma BlockTextLines(b: Block)
    requires b.header != Description
    ensures BlockText(b) == JoinWith(BlockLines(b), "\n")
  {
    if |b.body| > 0 {
      JoinCons(HeaderLine(b.header), b.body, "\n");
    }
  }

  /** Joining block texts is joining all their lines. */
  lemma {:induction false} TextsJoin(bs: seq<Block>)
    requires forall k :: 0 <= k < |bs| ==> bs[k].header != Description
    ensures JoinWith(BlockTexts(bs), "\n") == JoinWith(ToLines(bs), "\n")
    decreases |bs|
  {
    if |bs| > 0 {
      BlockTextLines(bs[0]);
      TextsCons(bs);
      if |bs| == 1 {
        assert BlockLines(bs[0]) + [] == BlockLines(bs[0]);
      } else {
        TextsJoin(bs[1..]);
        JoinStep(BlockText(bs[0]), BlockTexts(bs[1..]), BlockLines(bs[0]), ToLines(bs[1..]));
      }
    }
  }

  lemma TextsCons(bs: seq<Block>)
    requires |bs| > 0
    ensures BlockTexts(bs) == [BlockText(bs[0])] + BlockTexts(bs[1..])
    ensures ToLines(bs) == BlockLines(bs[0]) + ToLines(bs[1..])
  {
    MappedCons(bs, BlockTexts(bs), BlockTexts(bs[1..]), BlockText);
  }

  /** A list mapped element by element is the first image, then the
      tail's images. */
  lemma MappedCons<T, U>(xs: seq<T>, ys: seq<U>, zs: seq<U>, f: T -> U)
    requires |xs| > 0 && |ys| == |xs| && |zs| == |xs| - 1
    requires forall k :: 0 <= k < |xs| ==> ys[k] == f(xs[k])
    requires forall k :: 0 <= k < |xs| - 1 ==> zs[k] == f(xs[1..][k])
    ensures ys == [f(xs[0])] + zs
  {
  }

  /** One text joined in front of others is its lines joined in front of
      theirs. */
  lemma JoinStep(t: string, ts: seq<string>, l: seq<string>, ls: seq<string>)
    requires |ts| > 0 && |l| > 0 && |ls| > 0
    requires t == JoinWith(l, "\n") && JoinWith(ts, "\n") == JoinWith(ls, "\n")
    ensures JoinWith([t] + ts, "\n") == JoinWith(l + ls, "\n")
  {
    JoinCons(t, ts, "\n");
    JoinAppend(l, ls, "\n");
  }

  /** Splitting newline-joined lines that hold no newline gives them
      back. */
  lemma {:induction false} SplitJoin(ls: seq<string>)
    requires |ls| > 0 && forall k :: 0 <= k < |ls| ==> '\n' !in ls[k]
    ensures SplitOn(JoinWith(ls, "\n"), '\n') == ls
    decreases |ls|
  {
    if |ls| == 1 {
      SplitOnNone(ls[0], '\n');
    } else {
      SplitJoin(ls[1..]);
      assert JoinWith(ls, "\n") == ls[0] + (['\n'] + JoinWith(ls[1..], "\n"));
      SplitOnFirst(ls[0], '\n', JoinWith(ls[1..], "\n"));
      assert [ls[0]] + ls[1..] == ls;
    }
  }

  /** A join starts with its first part and ends with its last. */
  lemma {:induction false} JoinEnds(ls: seq<string>, sep: string)
    requires |ls| > 0 && forall k :: 0 <= k < |ls| ==> |ls[k]| > 0
    ensures var j := JoinWith(ls, sep);
            |j| > 0 && j[0] == ls[0][0] && j[|j| - 1] == ls[|ls| - 1][|ls[|ls| - 1]| - 1]
    decreases |ls|
  {
    if |ls| > 1 {
      JoinEnds(ls[1..], sep);
    }
  }

  /** Every line of plain blocks holds no newline; the first is a header
      line and the last ends in a non-space. */
  lemma {:induction false} ToLinesShape(bs: seq<Block>)
    requires forall k :: 0 <= k < |bs| ==> LineSafe(bs[k])
    ensures forall k :: 0 <= k < |ToLines(bs)| ==> '\n' !in ToLines(bs)[k] && |ToLines(bs)[k]| > 0
    ensures |bs| > 0 ==> ToLines(bs)[0][0] == '*' && !IsSpace(ToLines(bs)[0][0])
    ensures |bs| > 0 ==> Tidy(ToLines(bs)[|ToLines(bs)| - 1])
    decreases |bs|
  {
    if |bs| > 0 {
      ToLinesShape(bs[1..]);
      var b := bs[0];
      assert '\n' !in HeaderLine(b.header);
      assert Tidy(HeaderLine(b.header));
    }
  }

  /** Writing no blocks gives a text that reads as no blocks. */
  lemma EmptyText()
    ensures FromText(FileLines(ToText([]))) == []
  {
    EmptyWritten();
    BlankRead();
  }

  lemma EmptyWritten()
    ensures FileLines(ToText([])) == [""]
  {
    assert ToText([]) == "\n";
    FileLinesNewline("");
  }

  lemma BlankRead()
    ensures FromText([""]) == []
  {
    BlankStep();
    RunCons(Start, "", []);
    assert [""] + [] == [""];
  }

  /** A blank line before any header changes nothing. */
  lemma BlankStep()
    ensures Step(Start, "") == Start
  {
    assert Find("", DescOpen) == ContainsFrom("", DescOpen, 0) == false;
    assert |Strip("")| == 0;
  }

  /** A text ending in a newline has the lines of the text before it. */
  lemma FileLinesNewline(t: string)
    ensures FileLines(t + "\n") == SplitOn(t, '\n')
  {
    assert (t + "\n")[..|t|] == t;
  }

  /** Lines that start and end in a non-space join to a text `strip()`
      leaves alone. */
  lemma JoinStripped(ls: seq<string>, sep: string)
    requires |ls| > 0 && forall k :: 0 <= k < |ls| ==> |ls[k]| > 0
    requires !IsSpace(ls[0][0]) && Tidy(ls[|ls| - 1])
    ensures Strip(JoinWith(ls, sep)) == JoinWith(ls, sep)
  {
    JoinEnds(ls, sep);
    StripIdentity(JoinWith(ls, sep));
  }

  /** Lines that start with a non-space, end tidily and hold no newline
      come back from their written text. */
  lemma LinesText(ls: seq<string>)
    requires |ls| > 0 && forall k :: 0 <= k < |ls| ==> '\n' !in ls[k] && |ls[k]| > 0
    requires !IsSpace(ls[0][0]) && Tidy(ls[|ls| - 1])
    ensures FileLines(Strip(JoinWith(ls, "\n")) + "\n") == ls
  {
    JoinStripped(ls, "\n");
    FileLinesNewline(JoinWith(ls, "\n"));
    SplitJoin(ls);
  }

  /** The lines of the text written for plain blocks are the blocks'
      lines. */
  lemma TextLines(bs: seq<Block>)
    requires |bs| > 0 && forall k :: 0 <= k < |bs| ==> Writable(bs[k])
    ensures FileLines(ToText(bs)) == ToLines(bs)
  {
    TextsJoin(bs);
    SafeLinesRead(bs);
  }

  /** Blocks whose texts join like their lines read back as their lines. */
  lemma SafeLinesRead(bs: seq<Block>)
    requires |bs| > 0 && forall k :: 0 <= k < |bs| ==> LineSafe(bs[k])
    requires JoinWith(BlockTexts(bs), "\n") == JoinWith(ToLines(bs), "\n")
    ensures FileLines(Strip(JoinWith(BlockTexts(bs), "\n")) + "\n") == ToLines(bs)
  {
    ToLinesReadable(bs);
    JoinedRead(bs);
  }

  lemma JoinedRead(bs: seq<Block>)
    requires Readable(ToLines(bs))
    requires JoinWith(BlockTexts(bs), "\n") == JoinWith(ToLines(bs), "\n")
    ensures FileLines(Strip(JoinWith(BlockTexts(bs), "\n")) + "\n") == ToLines(bs)
  {
    JoinedLinesText(BlockTexts(bs), ToLines(bs));
  }

  /** Lines that read back from their own newline-joined text: non-empty,
      free of newlines, the first starting with no space and the last
      tidy. */
  ghost predicate Readable(ls: seq<string>) {
    && |ls| > 0 && (forall k :: 0 <= k < |ls| ==> '\n' !in ls[k] && |ls[k]| > 0)
    && !IsSpace(ls[0][0]) && Tidy(ls[|ls| - 1])
  }

  lemma ToLinesReadable(bs: seq<Block>)
    requires |bs| > 0 && forall k :: 0 <= k < |bs| ==> LineSafe(bs[k])
    ensures Readable(ToLines(bs))
  {
    ToLinesShape(bs);
  }

  /** Texts that join to the same string as `ls` read back as `ls`. */
  lemma JoinedLinesText(texts: seq<string>, ls: seq<string>)
    requires JoinWith(texts, "\n") == JoinWith(ls, "\n") && Readable(ls)
    ensures FileLines(Strip(JoinWith(texts, "\n")) + "\n") == ls
  {
    LinesText(ls);
  }

  /** Reading back the text written for plain blocks gives the blocks. */
  lemma TextRoundTrip(bs: seq<Block>)
    requires PlainBlocks(bs)
    ensures FromText(FileLines(ToText(bs))) == bs
  {
    if |bs| == 0 {
      EmptyText();
    } else {
      TextLines(bs);
      LinesRoundTrip(bs);
    }
  }
}
