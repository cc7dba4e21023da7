/** Per-floor beam and column layouts (layout/beam_layouts.py,
    layout/column_layouts.py).  The two parsers differ only in the header
    text ("FLOOR BEAM LAYOUT", "COLUMN LAYOUT"), the label of the member
    count and the member line parser, so one model takes those as
    parameters.  A layout block is framed by its header lines; members
    are numbered by one counter over the whole block; members met before
    the first header join the first layout; the layouts form an indexed
    collection.  `remap_elsets` rebinds every member's elset. */
module FloorLayouts {
  import opened Wrappers
  import opened Text
  import opened Store
  import opened Framing
  import opened Rebind

  /** A beam or a column: its elset and the rest of its fields (end nodes,
      group, type, trailing text), which the layout code never reads. */
  datatype Member<E, D> = Member(elset: Entity<E>, rest: D)

  /** A layout's declared member count and its members; the layout index
      is the entity index. */
  datatype FloorData<M> = FloorData(total: int, members: seq<Entity<M>>)

  type Floor<M> = Entity<FloorData<M>>

  // ---------------------------------------------------------------
  // Header lines
  // ---------------------------------------------------------------

  /** The header parse: `parts = line.split(",")`, the layout number is
      `int(parts[0].split("#")[1])`, the member count
      `int(parts[1].split("=")[1])`; a missing field raises IndexError and
      a malformed number ValueError, in that order of evaluation. */
  function FloorHeader(line: string): (r: Result<(int, int)>)
    ensures r.Err? ==> r.error in {IndexError, ValueError}
  {
    var parts := SplitOn(line, ',');
    var numbered := SplitOn(parts[0], '#');
    if |numbered| < 2 then Err(IndexError)
    else
      match ParseInt(numbered[1])
      case Err(e) => Err(e)
      case Ok(i) =>
        if |parts| < 2 then Err(IndexError)
        else
          var counted := SplitOn(parts[1], '=');
          if |counted| < 2 then Err(IndexError)
          else
            match ParseInt(counted[1])
            case Err(e) => Err(e)
            case Ok(t) => Ok((i, t))
  }

  /** A header line is only read when it has a '#', a ',' and an '='; a
      line without '#' raises IndexError before any number is read. */
  lemma FloorHeaderSeparators(line: string)
    ensures FloorHeader(line).Ok? ==> '#' in line && ',' in line && '=' in line
    ensures '#' !in line ==> FloorHeader(line) == Err(IndexError)
  {
    var parts := SplitOn(line, ',');
    var numbered := SplitOn(parts[0], '#');
    if |numbered| >= 2 {
      SplitOnFound(parts[0], '#');
      FieldIn(line, ',', 0, '#');
    }
    if FloorHeader(line).Ok? {
      SplitOnFound(line, ',');
      SplitOnFound(parts[1], '=');
      FieldIn(line, ',', 1, '=');
    }
  }

  /** A character of a field is a character of the text. */
  lemma {:induction false} FieldIn(s: string, sep: char, k: nat, c: char)
    requires k < |SplitOn(s, sep)| && c in SplitOn(s, sep)[k]
    ensures c in s
    decreases |s|
  {
    if |s| > 0 {
      var rest := SplitOn(s[1..], sep);
      if s[0] == sep {
        if k > 0 {
          FieldIn(s[1..], sep, k - 1, c);
        }
      } else if k == 0 {
        if c != s[0] {
          assert c in rest[0];
          FieldIn(s[1..], sep, 0, c);
        }
      } else {
        FieldIn(s[1..], sep, k, c);
      }
    }
  }

  /** The shape "a#b,c=d" of a header line. */
  function HeaderFields(a: string, b: string, c: string, d: string): string {
    a + (['#'] + (b + ([','] + (c + (['='] + d)))))
  }

  /** The header line `format_line` writes,
      "  <header> #<index>, <label> = <total>". */
  function HeaderLine(header: string, countLabel: string, index: int, total: int): string {
    "  " + HeaderFields(header + " ", IntToString(index), " " + countLabel + " ", " " + IntToString(total))
  }

  /** A written header line is read back as the layout's index and total,
      provided the header text and label do not contain the separators. */
  lemma HeaderRoundTrip(header: string, countLabel: string, index: int, total: int)
    requires |header| > 0 && !IsSpace(header[0])
    requires '#' !in header && ',' !in header && ',' !in countLabel && '=' !in countLabel
    ensures FloorHeader(Strip(HeaderLine(header, countLabel, index, total))) == Ok((index, total))
  {
    StripHeaderLine(header, countLabel, index, total);
    WrittenFieldsRead(header, countLabel, index, total);
  }

  lemma WrittenFieldsRead(header: string, countLabel: string, index: int, total: int)
    requires '#' !in header && ',' !in header && ',' !in countLabel && '=' !in countLabel
    ensures FloorHeader(HeaderFields(header + " ", IntToString(index), " " + countLabel + " ", " " + IntToString(total)))
            == Ok((index, total))
  {
    Separators(header, countLabel, index, total);
    ParseIntToString(index);
    ParseIntPadded(" ", total);
    FieldsRead(header + " ", IntToString(index), " " + countLabel + " ", " " + IntToString(total), index, total);
  }

  /** "a#b,c=d" is read as the numbers b and d denote. */
  lemma FieldsRead(a: string, b: string, c: string, d: string, index: int, total: int)
    requires '#' !in a && ',' !in a && ',' !in b && '#' !in b && ',' !in c && '=' !in c && ',' !in d && '=' !in d
    requires ParseInt(b) == Ok(index) && ParseInt(d) == Ok(total)
    ensures FloorHeader(HeaderFields(a, b, c, d)) == Ok((index, total))
  {
    ReadHeader(a, b, c, d);
  }

  /** A written header line is recognised as a header line. */
  lemma HeaderRecognised(header: string, countLabel: string, index: int, total: int)
    requires |header| > 0 && !IsSpace(header[0])
    ensures FloorKind(header, HeaderLine(header, countLabel, index, total)) == Head
  {
    StripHeaderLine(header, countLabel, index, total);
    FieldsStart(header, IntToString(index), " " + countLabel + " ", " " + IntToString(total));
  }

  /** "h a#b,c=d" starts with h and is not blank. */
  lemma FieldsStart(h: string, b: string, c: string, d: string)
    requires |h| > 0
    ensures var x := HeaderFields(h + " ", b, c, d);
            |x| > 0 && StartsWith(x, h)
  {
    var rest := ['#'] + (b + ([','] + (c + (['='] + d))));
    assert HeaderFields(h + " ", b, c, d) == h + (" " + rest);
    PrefixStarts(h, " " + rest);
  }

  lemma PrefixStarts<T>(p: seq<T>, rest: seq<T>)
    ensures |p| <= |p + rest| && (p + rest)[..|p|] == p
  {
  }

  /** Stripping a written header line removes only its indentation. */
  lemma StripHeaderLine(header: string, countLabel: string, index: int, total: int)
    requires |header| > 0 && !IsSpace(header[0])
    ensures Strip(HeaderLine(header, countLabel, index, total)) ==
              HeaderFields(header + " ", IntToString(index), " " + countLabel + " ", " " + IntToString(total))
  {
    var d := " " + IntToString(total);
    var x := HeaderFields(header + " ", IntToString(index), " " + countLabel + " ", d);
    assert x[0] == header[0];
    assert x[|x| - 1] == d[|d| - 1];
    StripPadded("  ", x);
  }

  lemma Separators(header: string, countLabel: string, index: int, total: int)
    requires '#' !in header && ',' !in header && ',' !in countLabel && '=' !in countLabel
    ensures '#' !in header + " " && ',' !in header + " "
    ensures ',' !in " " + countLabel + " " && '=' !in " " + countLabel + " "
    ensures ',' !in IntToString(index) && '#' !in IntToString(index)
    ensures ',' !in " " + IntToString(total) && '=' !in " " + IntToString(total)
  {
    IntDigits(index);
    IntDigits(total);
  }

  /** The fields the header parse reads from "a#b,c=d" are b and d. */
  lemma ReadHeader(a: string, b: string, c: string, d: string)
    requires '#' !in a && ',' !in a && ',' !in b && '#' !in b && ',' !in c && '=' !in c && ',' !in d && '=' !in d
    ensures FloorHeader(HeaderFields(a, b, c, d)) ==
              (match ParseInt(b)
               case Err(e) => Err(e)
               case Ok(i) => (match ParseInt(d)
                              case Err(e) => Err(e)
                              case Ok(t) => Ok((i, t))))
  {
    var first, second := a + (['#'] + b), c + (['='] + d);
    assert HeaderFields(a, b, c, d) == first + ([','] + second);
    SplitPair(first, ',', second);
    SplitPair(a, '#', b);
    SplitPair(c, '=', d);
  }

  /** The text of an integer holds only a sign and digits. */
  lemma IntDigits(i: int)
    ensures ',' !in IntToString(i) && '#' !in IntToString(i) && '=' !in IntToString(i)
    ensures '=' !in " " + IntToString(i) && ',' !in " " + IntToString(i)
  {
    var s := IntToString(i);
    if i < 0 {
      assert s == "-" + NatToString(-i);
      assert AllDigits(NatToString(-i));
    } else {
      assert AllDigits(s);
    }
  }

  // ---------------------------------------------------------------
  // from_model
  // ---------------------------------------------------------------

  /** How a raw line is read: blank lines are skipped, a stripped line
      starting with the header text is a header, one whose first character
      is a digit is a member, anything else is skipped. */
  function FloorKind(header: string, raw: string): LineClass {
    var s := Strip(raw);
    if |s| == 0 then Skip
    else if StartsWith(s, header) then Head
    else if IsDigit(s[0]) then Item
    else Skip
  }

  function FloorClassifier(header: string): string -> LineClass {
    raw => FloorKind(header, raw)
  }

  /** Members parsed in order and numbered by the shared counter from
      `next`; the first line that fails decides the error. */
  function ParseMembers<M>(lines: seq<string>, parseItem: string -> Result<M>, next: int): (r: Result<seq<Entity<M>>>)
    ensures r.Ok? <==> forall k :: 0 <= k < |lines| ==> parseItem(lines[k]).Ok?
    ensures r.Ok? ==> |r.value| == |lines| &&
                      forall k :: 0 <= k < |lines| ==> r.value[k] == Entity(next + k, parseItem(lines[k]).value)
    ensures r.Err? ==> exists k :: 0 <= k < |lines| && parseItem(lines[k]) == Err(r.error) &&
                                   forall j :: 0 <= j < k ==> parseItem(lines[j]).Ok?
  {
    match MapAll(lines, parseItem)
    case Err(e) => Err(e)
    case Ok(ms) => Ok(seq(|ms|, k requires 0 <= k < |ms| => Entity(next + k, ms[k])))
  }

  /** `ms` are the `lines` parsed in order and numbered from `next`. */
  ghost predicate Numbered<M>(lines: seq<string>, ms: seq<Entity<M>>, parseItem: string -> Result<M>, next: int) {
    && |ms| == |lines|
    && forall n :: 0 <= n < |lines| ==> parseItem(lines[n]).Ok? && ms[n] == Entity(next + n, parseItem(lines[n]).value)
  }

  /** Numbering runs on from one list of lines into the next. */
  lemma NumberedConcat<M>(a: seq<string>, b: seq<string>, ma: seq<Entity<M>>, mb: seq<Entity<M>>,
                          parseItem: string -> Result<M>, next: int)
    requires Numbered(a, ma, parseItem, next) && Numbered(b, mb, parseItem, next + |a|)
    ensures Numbered(a + b, ma + mb, parseItem, next)
  {
    forall n | 0 <= n < |a + b|
      ensures parseItem((a + b)[n]).Ok? && (ma + mb)[n] == Entity(next + n, parseItem((a + b)[n]).value)
    {
      if n >= |a| {
        assert (a + b)[n] == b[n - |a|] && (ma + mb)[n] == mb[n - |a|];
      }
    }
  }

  /** The members of a list of layouts, layout by layout. */
  function AllMembers<M>(ls: seq<Floor<M>>): seq<Entity<M>> {
    if |ls| == 0 then [] else ls[0].data.members + AllMembers(ls[1..])
  }

  lemma AllMembersCons<M>(l: Floor<M>, rest: seq<Floor<M>>)
    ensures AllMembers([l] + rest) == l.data.members + AllMembers(rest)
  {
    assert ([l] + rest)[1..] == rest;
  }

  /** A header line as the parse reads it: stripped, then split. */
  function HeadLine(s: string): Result<(int, int)> {
    FloorHeader(Strip(s))
  }

  /** One framed group as a layout: its header read by `parseHead`
      (`HeadLine` in the model), then its members numbered from `next`. */
  function ParseFloor<M>(f: Frame<string>, parseHead: string -> Result<(int, int)>, parseItem: string -> Result<M>,
                         next: int): (r: Result<Floor<M>>)
    ensures r.Ok? ==> parseHead(f.head) == Ok((r.value.index, r.value.data.total))
    ensures r.Ok? ==> Numbered(f.body, r.value.data.members, parseItem, next)
  {
    match parseHead(f.head)
    case Err(e) => Err(e)
    case Ok((i, t)) =>
      match ParseMembers(f.body, parseItem, next)
      case Err(e) => Err(e)
      case Ok(ms) => Ok(Entity(i, FloorData(t, ms)))
  }

  /** The layouts of the framed groups, in order: each header parsed, then
      its members numbered on from `next`. */
  function ParseFloors<M>(fs: seq<Frame<string>>, parseHead: string -> Result<(int, int)>, parseItem: string -> Result<M>,
                          next: int): (r: Result<seq<Floor<M>>>)
    ensures r.Ok? ==> |r.value| == |fs|
    decreases |fs|
  {
    if |fs| == 0 then Ok([])
    else
      match ParseFloor(fs[0], parseHead, parseItem, next)
      case Err(e) => Err(e)
      case Ok(l) =>
        match ParseFloors(fs[1..], parseHead, parseItem, next + |l.data.members|)
        case Err(e) => Err(e)
        case Ok(rest) => Ok([l] + rest)
  }

  /** Layout k carries the number and the member count its header line
      gives. */
  lemma {:induction false} ParseFloorsHeads<M>(fs: seq<Frame<string>>, parseHead: string -> Result<(int, int)>,
                                               parseItem: string -> Result<M>, next: int, k: nat)
    requires ParseFloors(fs, parseHead, parseItem, next).Ok? && k < |fs|
    ensures var l := ParseFloors(fs, parseHead, parseItem, next).value[k];
            parseHead(fs[k].head) == Ok((l.index, l.data.total))
    decreases k
  {
    assert ParseFloor(fs[0], parseHead, parseItem, next).Ok?;
    var l := ParseFloor(fs[0], parseHead, parseItem, next).value;
    assert ParseFloors(fs[1..], parseHead, parseItem, next + |l.data.members|).Ok?;
    var rest := ParseFloors(fs[1..], parseHead, parseItem, next + |l.data.members|).value;
    assert ParseFloors(fs, parseHead, parseItem, next).value == [l] + rest;
    if k > 0 {
      ParseFloorsHeads(fs[1..], parseHead, parseItem, next + |l.data.members|, k - 1);
      assert fs[1..][k - 1] == fs[k];
    }
  }

  /** The layouts' members are the groups' member lines, parsed in order
      and numbered on from `next`. */
  lemma {:induction false} ParseFloorsMembers<M>(fs: seq<Frame<string>>, parseHead: string -> Result<(int, int)>,
                                                 parseItem: string -> Result<M>, next: int)
    requires ParseFloors(fs, parseHead, parseItem, next).Ok?
    ensures Numbered(Bodies(fs), AllMembers(ParseFloors(fs, parseHead, parseItem, next).value), parseItem, next)
    decreases |fs|
  {
    if |fs| > 0 {
      assert ParseFloor(fs[0], parseHead, parseItem, next).Ok?;
      var l := ParseFloor(fs[0], parseHead, parseItem, next).value;
      assert ParseFloors(fs[1..], parseHead, parseItem, next + |l.data.members|).Ok?;
      var rest := ParseFloors(fs[1..], parseHead, parseItem, next + |l.data.members|).value;
      assert ParseFloors(fs, parseHead, parseItem, next).value == [l] + rest;
      ParseFloorsMembers(fs[1..], parseHead, parseItem, next + |l.data.members|);
      AllMembersCons(l, rest);
      BodiesCons(fs[0], fs[1..]);
      assert [fs[0]] + fs[1..] == fs;
      NumberedConcat(fs[0].body, Bodies(fs[1..]), l.data.members, AllMembers(rest), parseItem, next);
    } else {
      assert Bodies(fs) == [];
    }
  }

  /** Members met before the first header go in front of the first
      layout's own members; with no layout they are lost. */
  function JoinLead<M>(lead: seq<Entity<M>>, ls: seq<Floor<M>>): (r: seq<Floor<M>>)
    ensures |r| == |ls|
    ensures forall k :: 0 <= k < |ls| ==> r[k].index == ls[k].index && r[k].data.total == ls[k].data.total
    ensures |ls| > 0 ==> AllMembers(r) == lead + AllMembers(ls)
  {
    if |ls| == 0 then []
    else
      var first := Entity(ls[0].index, FloorData(ls[0].data.total, lead + ls[0].data.members));
      var r := [first] + ls[1..];
      assert r[1..] == ls[1..];
      r
  }

  /** `from_model`: ValueError when the block is absent; otherwise the
      member lines before the first header are parsed first (numbered
      from 1), then every layout in order, and the layouts, with the early
      members joined to the first one, form the collection. */
  function FloorParse<M>(block: Option<seq<string>>, header: string, parseItem: string -> Result<M>): (r: Result<Coll<FloorData<M>>>)
    ensures block.None? ==> r == Err(ValueError)
    ensures r.Ok? ==> Consistent(r.value)
  {
    match block
    case None => Err(ValueError)
    case Some(lines) =>
      var fr := FrameAll(lines, FloorClassifier(header));
      match ParseMembers(fr.lead, parseItem, 1)
      case Err(e) => Err(e)
      case Ok(lead) =>
        match ParseFloors(fr.frames, HeadLine, parseItem, 1 + |lead|)
        case Err(e) => Err(e)
        case Ok(ls) => Ok(FromSeq(JoinLead(lead, ls)))
  }

  /** What a successful parse holds: one layout per header line, in order,
      numbered and counted as its header says; and, when there is a
      header, all member lines of the block, in order, as the members of
      the layouts, numbered 1, 2, ... across the whole block. */
  lemma FloorParseShape<M>(lines: seq<string>, header: string, parseItem: string -> Result<M>)
    requires FloorParse(Some(lines), header, parseItem).Ok?
    ensures var ls, heads := FloorParse(Some(lines), header, parseItem).value.objects,
                             Select(lines, FloorClassifier(header), Head);
            |ls| == |heads| &&
            forall k :: 0 <= k < |ls| ==> FloorHeader(Strip(heads[k])) == Ok((ls[k].index, ls[k].data.total))
    ensures var ls, items := FloorParse(Some(lines), header, parseItem).value.objects,
                             Select(lines, FloorClassifier(header), Item);
            |ls| > 0 ==>
              |AllMembers(ls)| == |items| &&
              forall n :: 0 <= n < |items| ==> parseItem(items[n]).Ok? &&
                                               AllMembers(ls)[n] == Entity(1 + n, parseItem(items[n]).value)
  {
    var ls, heads := FloorParse(Some(lines), header, parseItem).value.objects,
                     Select(lines, FloorClassifier(header), Head);
    forall k | 0 <= k < |ls|
      ensures k < |heads| && FloorHeader(Strip(heads[k])) == Ok((ls[k].index, ls[k].data.total))
    {
      FloorParseHeadAt(lines, header, parseItem, k);
    }
    FloorParseHeadCount(lines, header, parseItem);
    FloorParseMembers(lines, header, parseItem);
  }

  lemma FloorParseHeadCount<M>(lines: seq<string>, header: string, parseItem: string -> Result<M>)
    requires FloorParse(Some(lines), header, parseItem).Ok?
    ensures |FloorParse(Some(lines), header, parseItem).value.objects| == |Select(lines, FloorClassifier(header), Head)|
  {
    var cls := FloorClassifier(header);
    var fr := FrameAll(lines, cls);
    var lead := ParseMembers(fr.lead, parseItem, 1).value;
    assert FloorParse(Some(lines), header, parseItem).value.objects ==
           JoinLead(lead, ParseFloors(fr.frames, HeadLine, parseItem, 1 + |lead|).value);
    FrameFromHeads(lines, cls, Framed([], []));
    assert Heads<string>([]) == [];
  }

  lemma FloorParseHeadAt<M>(lines: seq<string>, header: string, parseItem: string -> Result<M>, k: nat)
    requires FloorParse(Some(lines), header, parseItem).Ok?
    requires k < |FloorParse(Some(lines), header, parseItem).value.objects|
    ensures var l, heads := FloorParse(Some(lines), header, parseItem).value.objects[k],
                            Select(lines, FloorClassifier(header), Head);
            k < |heads| && FloorHeader(Strip(heads[k])) == Ok((l.index, l.data.total))
  {
    var cls := FloorClassifier(header);
    var fr := FrameAll(lines, cls);
    var lead := ParseMembers(fr.lead, parseItem, 1).value;
    var ls := ParseFloors(fr.frames, HeadLine, parseItem, 1 + |lead|).value;
    assert FloorParse(Some(lines), header, parseItem).value.objects == JoinLead(lead, ls);
    FrameFromHeads(lines, cls, Framed([], []));
    assert Heads<string>([]) == [];
    ParseFloorsHeads(fr.frames, HeadLine, parseItem, 1 + |lead|, k);
  }

  /** With a header, the member lines of the whole block, in order, are
      the members of the layouts, numbered from 1. */
  lemma FloorParseMembers<M>(lines: seq<string>, header: string, parseItem: string -> Result<M>)
    requires FloorParse(Some(lines), header, parseItem).Ok?
    ensures var ls, items := FloorParse(Some(lines), header, parseItem).value.objects,
                             Select(lines, FloorClassifier(header), Item);
            |ls| > 0 ==> Numbered(items, AllMembers(ls), parseItem, 1)
  {
    var cls := FloorClassifier(header);
    var fr := FrameAll(lines, cls);
    var lead := ParseMembers(fr.lead, parseItem, 1).value;
    var ls := ParseFloors(fr.frames, HeadLine, parseItem, 1 + |lead|).value;
    ParseFloorsMembers(fr.frames, HeadLine, parseItem, 1 + |lead|);
    assert FloorParse(Some(lines), header, parseItem).value.objects == JoinLead(lead, ls);
    FrameFromItems(lines, cls, Framed([], []));
    assert Bodies<string>([]) == [];
    assert fr.lead + Bodies(fr.frames) == Select(lines, cls, Item);
    if |ls| > 0 {
      NumberedConcat(fr.lead, Bodies(fr.frames), lead, AllMembers(ls), parseItem, 1);
    }
  }

  /** A block without a header line yields no layouts, though its member
      lines are still parsed (and may raise). */
  lemma FloorParseNoHeader<M>(lines: seq<string>, header: string, parseItem: string -> Result<M>)
    requires forall k :: 0 <= k < |lines| ==> FloorKind(header, lines[k]) != Head
    requires FloorParse(Some(lines), header, parseItem).Ok?
    ensures FloorParse(Some(lines), header, parseItem).value.objects == []
  {
    var cls := FloorClassifier(header);
    NoHeadsNoFrames(lines, cls);
    FrameFromHeads(lines, cls, Framed([], []));
  }

  // ---------------------------------------------------------------
  // remap_elsets
  // ---------------------------------------------------------------

  function RebindMember<E, D>(m: Entity<Member<E, D>>, reorder: map<int, int>, elsets: Coll<E>): (r: Result<Entity<Member<E, D>>>)
    ensures r.Err? <==> RebindElset(m.data.elset, reorder, elsets).Err?
    ensures r.Ok? ==> r.value == Entity(m.index, Member(RebindElset(m.data.elset, reorder, elsets).value, m.data.rest))
  {
    match RebindElset(m.data.elset, reorder, elsets)
    case Err(e) => Err(e)
    case Ok(e) => Ok(Entity(m.index, Member(e, m.data.rest)))
  }

  function RemapFloor<E, D>(l: Floor<Member<E, D>>, reorder: map<int, int>, elsets: Coll<E>): (r: Result<Floor<Member<E, D>>>)
    ensures r.Ok? <==> forall j :: 0 <= j < |l.data.members| ==> RebindMember(l.data.members[j], reorder, elsets).Ok?
    ensures r.Err? ==> r.error == KeyError
    ensures r.Ok? ==> r.value.index == l.index && r.value.data.total == l.data.total &&
                      |r.value.data.members| == |l.data.members| &&
                      forall j :: 0 <= j < |l.data.members| ==>
                        r.value.data.members[j] == RebindMember(l.data.members[j], reorder, elsets).value
  {
    match MapAll(l.data.members, m => RebindMember(m, reorder, elsets))
    case Err(e) => Err(e)
    case Ok(ms) => Ok(Entity(l.index, FloorData(l.data.total, ms)))
  }

  /** `remap_elsets`: every member of every layout has its elset rebound;
      KeyError when some member's elset index is unmapped or maps to an
      absent merged elset; otherwise layouts, member indices and all other
      fields are unchanged.  The layout dictionary is rebuilt from the
      list, which the in-place update leaves equal. */
  function RemapElsets<E, D>(c: Coll<FloorData<Member<E, D>>>, reorder: map<int, int>, elsets: Coll<E>)
    : (r: Result<Coll<FloorData<Member<E, D>>>>)
    ensures r.Ok? <==> forall k, j :: 0 <= k < |c.objects| && 0 <= j < |c.objects[k].data.members| ==>
                          RebindElset(c.objects[k].data.members[j].data.elset, reorder, elsets).Ok?
    ensures r.Err? ==> r.error == KeyError
    ensures r.Ok? ==> Consistent(r.value) && |r.value.objects| == |c.objects| &&
                      forall k :: 0 <= k < |c.objects| ==> RemapFloor(c.objects[k], reorder, elsets) == Ok(r.value.objects[k])
  {
    match MapAll(c.objects, l => RemapFloor(l, reorder, elsets))
    case Err(e) => Err(e)
    case Ok(ls) => Ok(FromSeq(ls))
  }

  /** After a successful `remap_elsets` over a consistent merged
      collection, every member refers to a merged elset carrying the
      mapped index of its old elset, and keeps its index and other fields. */
  lemma RemapElsetsRebinds<E, D>(c: Coll<FloorData<Member<E, D>>>, reorder: map<int, int>, elsets: Coll<E>, k: nat, j: nat)
    requires Consistent(elsets) && RemapElsets(c, reorder, elsets).Ok?
    requires k < |c.objects| && j < |c.objects[k].data.members|
    ensures var before, after := c.objects[k].data.members[j], RemapElsets(c, reorder, elsets).value.objects[k].data.members[j];
            && before.data.elset.index in reorder
            && after.index == before.index && after.data.rest == before.data.rest
            && after.data.elset in elsets.objects && after.data.elset.index == reorder[before.data.elset.index]
  {
    var before := c.objects[k].data.members[j];
    assert RebindElset(before.data.elset, reorder, elsets).Ok?;
    RebindElsetMapped(before.data.elset, reorder, elsets);
  }
}
