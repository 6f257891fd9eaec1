/** The message pattern of the chat-log parser and `re.findall` with it.

    The pattern reads, from some position of the text: a timestamp written as one or two
    digits, a date separator (`/`, `.` or `-`), one or two digits, a separator, two to four
    digits, an optional comma, one space, one or two digits, a colon, two digits, an optional
    space and an optional `AM` or `PM`; then ` - `; then the sender, one or more characters
    other than `:` (newlines included); then `: `; then the message, one or more characters
    other than a newline. Its three groups are the timestamp text, the sender and the message.

    The pattern is the sequence of its elements (`Pattern`), read by `Reader.Run`; the one
    place the engine backtracks, the optional space and meridiem before ` - `, is read by
    looking at the four shapes that can precede ` - `. */
module ChatPattern {
  import opened Text
  import opened Wrappers
  import opened Reader

  /** The elements of the timestamp group. */
  const StampElements: seq<Token> := [Digits(1, 2), DateSep, Digits(1, 2), DateSep, Digits(2, 4),
    OptComma, Lit(" "), Digits(1, 2), Lit(":"), Digits(2, 2), Meridiem]

  /** The elements after the timestamp: the sender group and the message group. */
  const LineElements: seq<Token> := [Lit(" - "), Sender, Lit(": "), Body]

  /** The message pattern, element by element. Pieces 0 to 10 form the timestamp group,
      piece 12 the sender group and piece 14 the message group. */
  const Pattern: seq<Token> := [Digits(1, 2), DateSep, Digits(1, 2), DateSep, Digits(2, 4),
    OptComma, Lit(" "), Digits(1, 2), Lit(":"), Digits(2, 2), Meridiem, Lit(" - "), Sender, Lit(": "), Body]

  // ---------------------------------------------------------------------------
  // The three groups of a match

  /** How the date of a matched timestamp was written. */
  datatype DatePart = DatePart(day: string, sep1: char, month: string, sep2: char, year: string)

  /** How the time of a matched timestamp was written: the comma after the date, the hour,
      the minutes, the space before a meridiem and the meridiem (or ""). */
  datatype ClockPart = ClockPart(comma: bool, hour: string, minute: string, space: bool, meridiem: string)

  /** How a matched timestamp was written, piece by piece. */
  datatype Layout = Layout(date: DatePart, clock: ClockPart)

  predicate ValidDatePart(d: DatePart) {
    && 1 <= |d.day| <= 2 && AllDigits(d.day) && IsDateSep(d.sep1)
    && 1 <= |d.month| <= 2 && AllDigits(d.month) && IsDateSep(d.sep2)
    && 2 <= |d.year| <= 4 && AllDigits(d.year)
  }

  predicate ValidClockPart(c: ClockPart) {
    && 1 <= |c.hour| <= 2 && AllDigits(c.hour)
    && |c.minute| == 2 && AllDigits(c.minute)
    && (c.meridiem == "" || IsMeridiem(c.meridiem))
  }

  /** The pieces a timestamp of the pattern can have. */
  predicate ValidLayout(l: Layout) {
    ValidDatePart(l.date) && ValidClockPart(l.clock)
  }

  function CommaText(comma: bool): string { if comma then "," else "" }

  /** What follows the minutes inside the timestamp group. */
  function TailText(space: bool, meridiem: string): string { (if space then " " else "") + meridiem }

  /** The pieces the timestamp elements match in a timestamp written with layout `l`. */
  function StampPieces(l: Layout): (ps: seq<string>)
    ensures |ps| == |StampElements|
  {
    var d, c := l.date, l.clock;
    [d.day, [d.sep1], d.month, [d.sep2], d.year, CommaText(c.comma), " ", c.hour, ":", c.minute,
     TailText(c.space, c.meridiem)]
  }

  /** The timestamp text a layout stands for (the first group of the pattern). */
  function LayoutText(l: Layout): string {
    var d, c := l.date, l.clock;
    d.day + [d.sep1] + d.month + [d.sep2] + d.year + CommaText(c.comma) + " " + c.hour + ":"
      + c.minute + TailText(c.space, c.meridiem)
  }

  /** The layout the pieces of a timestamp spell out. */
  function LayoutOf(qs: seq<string>): (l: Layout)
    requires FitsAll(StampElements, qs)
    ensures ValidLayout(l)
  {
    assert Fits(StampElements[0], qs[0]) && Fits(StampElements[1], qs[1]);
    assert Fits(StampElements[2], qs[2]) && Fits(StampElements[3], qs[3]);
    assert Fits(StampElements[4], qs[4]) && Fits(StampElements[7], qs[7]);
    assert Fits(StampElements[9], qs[9]) && Fits(StampElements[10], qs[10]);
    var m := qs[10];
    var space := m != [] && m[0] == ' ';
    Layout(DatePart(qs[0], qs[1][0], qs[2], qs[3][0], qs[4]),
           ClockPart(qs[5] == ",", qs[7], qs[9], space, if space then m[1..] else m))
  }

  /** One match of the pattern: the timestamp as written, the sender and the message. */
  datatype Line = Line(layout: Layout, user: string, message: string)

  predicate ValidLine(l: Line) {
    ValidLayout(l.layout) && IsSender(l.user) && IsMessageText(l.message)
  }

  /** The pieces the pattern's elements match in the text of a line. */
  function PiecesOf(l: Line): (ps: seq<string>)
    ensures |ps| == |Pattern|
  {
    StampPieces(l.layout) + [" - ", l.user, ": ", l.message]
  }

  /** The text a match covers: its timestamp, ` - `, the sender, `: ` and the message. */
  function LineText(l: Line): string {
    LayoutText(l.layout) + " - " + l.user + ": " + l.message
  }

  /** The line the pieces of a match spell out. */
  function LineOf(ps: seq<string>): (l: Line)
    requires FitsAll(Pattern, ps)
    ensures ValidLine(l)
  {
    assert Fits(Pattern[12], ps[12]) && Fits(Pattern[14], ps[14]);
    assert FitsAll(StampElements, ps[..11]) by {
      forall i | 0 <= i < 11
        ensures Fits(StampElements[i], ps[..11][i])
      {
        assert StampElements[i] == Pattern[i];
      }
    }
    Line(LayoutOf(ps[..11]), ps[12], ps[14])
  }

  // ---------------------------------------------------------------------------
  // Layouts and lines as pieces, and back

  /** A valid layout's pieces fit the timestamp elements and spell out the layout again. */
  lemma LayoutOfPieces(l: Layout)
    requires ValidLayout(l)
    ensures FitsAll(StampElements, StampPieces(l)) && LayoutOf(StampPieces(l)) == l
  {
    var ps := StampPieces(l);
    var c := l.clock;
    assert IsMeridiemPiece(ps[10]) by {
      if c.space && c.meridiem != "" {
        assert ps[10][1..] == c.meridiem;
      }
    }
    if c.space {
      assert ps[10][1..] == c.meridiem;
    }
  }

  /** Pieces that fit the timestamp elements are the pieces of the layout they spell out. */
  lemma PiecesOfLayout(qs: seq<string>)
    requires FitsAll(StampElements, qs)
    ensures StampPieces(LayoutOf(qs)) == qs
  {
    var ps := StampPieces(LayoutOf(qs));
    DatePieces(qs, LayoutOf(qs));
    ClockPieces(qs, LayoutOf(qs));
    assert ps == ps[..5] + ps[5..] && qs == qs[..5] + qs[5..];
  }

  /** The first five timestamp pieces are those of the date the layout records. */
  lemma DatePieces(qs: seq<string>, l: Layout)
    requires FitsAll(StampElements, qs) && l == LayoutOf(qs)
    ensures StampPieces(l)[..5] == qs[..5]
  {
    assert Fits(StampElements[1], qs[1]) && Fits(StampElements[3], qs[3]);
    assert [qs[1][0]] == qs[1] && [qs[3][0]] == qs[3];
  }

  /** The last six timestamp pieces are those of the clock the layout records. */
  lemma ClockPieces(qs: seq<string>, l: Layout)
    requires FitsAll(StampElements, qs) && l == LayoutOf(qs)
    ensures StampPieces(l)[5..] == qs[5..]
  {
    assert Fits(StampElements[5], qs[5]) && Fits(StampElements[6], qs[6]);
    assert Fits(StampElements[8], qs[8]);
    TailTextOf(qs[10]);
  }

  /** The piece after the minutes, split into its leading space and the rest, joins back. */
  lemma TailTextOf(m: string)
    ensures TailText(m != [] && m[0] == ' ', if m != [] && m[0] == ' ' then m[1..] else m) == m
  {
    if m != [] && m[0] == ' ' {
      assert " " + m[1..] == m;
    } else {
      assert "" + m == m;
    }
  }

  /** A valid line's pieces fit the pattern and spell out the line again. */
  lemma LineOfPieces(l: Line)
    requires ValidLine(l)
    ensures FitsAll(Pattern, PiecesOf(l)) && LineOf(PiecesOf(l)) == l
  {
    var ps := PiecesOf(l);
    LayoutOfPieces(l.layout);
    assert ps[..11] == StampPieces(l.layout);
    forall i | 0 <= i < |Pattern|
      ensures Fits(Pattern[i], ps[i])
    {
      if i < 11 {
        assert Pattern[i] == StampElements[i] && ps[i] == StampPieces(l.layout)[i];
      } else {
        assert Pattern[i] == LineElements[i - 11];
      }
    }
  }

  /** The pieces of a match are the pieces of the line they spell out. */
  lemma PiecesOfLine(ps: seq<string>)
    requires FitsAll(Pattern, ps)
    ensures PiecesOf(LineOf(ps)) == ps
  {
    var l := LineOf(ps);
    PiecesOfLayout(ps[..11]);
    assert Fits(Pattern[11], ps[11]) && Fits(Pattern[13], ps[13]);
    assert ps == ps[..11] + [ps[11], ps[12], ps[13], ps[14]];
  }

  // ---------------------------------------------------------------------------
  // Reading a written line back

  /** What follows each piece of a written timestamp, up to `rest`. */
  function StampAfter(l: Layout, rest: string): (after: seq<string>)
    ensures |after| == |StampElements|
  {
    var d, c := l.date, l.clock;
    var a9 := TailText(c.space, c.meridiem) + rest;
    var a7 := ":" + (c.minute + a9);
    var a5 := " " + (c.hour + a7);
    var a4 := CommaText(c.comma) + a5;
    var a2 := [d.sep2] + (d.year + a4);
    [[d.sep1] + (d.month + a2), d.month + a2, a2, d.year + a4, a4, a5, c.hour + a7, a7,
     c.minute + a9, a9, rest]
  }

  lemma StampAfterChains(l: Layout, rest: string)
    ensures forall i {:trigger StampPieces(l)[i]} :: 0 < i < 11 ==>
      StampAfter(l, rest)[i - 1] == StampPieces(l)[i] + StampAfter(l, rest)[i]
  {
    var ps, after := StampPieces(l), StampAfter(l, rest);
    forall i {:trigger ps[i]} | 0 < i < 11
      ensures after[i - 1] == ps[i] + after[i]
    {
      assert i == 1 || i == 2 || i == 3 || i == 4 || i == 5 || i == 6 || i == 7 || i == 8
        || i == 9 || i == 10;
    }
  }

  lemma StampAfterFollows(l: Layout, rest: string)
    requires ValidLayout(l) && |rest| >= 3 && rest[..3] == " - "
    ensures forall i :: 0 <= i < 11 ==> Follows(StampElements[i], StampPieces(l)[i], StampAfter(l, rest)[i])
  {
    var ps, after := StampPieces(l), StampAfter(l, rest);
    assert after[4][0] == ',' || after[4][0] == ' ';
    forall i | 0 <= i < 11
      ensures Follows(StampElements[i], ps[i], after[i])
    {
      assert i == 0 || i == 1 || i == 2 || i == 3 || i == 4 || i == 5 || i == 6 || i == 7
        || i == 8 || i == 9 || i == 10;
    }
  }

  /** A written timestamp followed by ` - ` reads back as its own pieces. */
  lemma StampRead(l: Layout, rest: string)
    requires ValidLayout(l) && |rest| >= 3 && rest[..3] == " - "
    ensures Run(StampElements, LayoutText(l) + rest) == Some((StampPieces(l), rest))
  {
    LayoutOfPieces(l);
    StampAfterChains(l, rest);
    StampAfterFollows(l, rest);
    RunSuffixes(StampElements, StampPieces(l), StampAfter(l, rest), rest);
    LayoutTextChain(l, rest);
  }

  /** A timestamp's text is its pieces written one after another. */
  lemma LayoutTextChain(l: Layout, rest: string)
    ensures Chain(StampPieces(l), rest) == LayoutText(l) + rest
  {
    var ps, after := StampPieces(l), StampAfter(l, rest);
    StampAfterChains(l, rest);
    SuffixTable(ps, after, rest, 0);
    assert Chain(ps, rest) == ps[0] + after[0];
    var d, c := l.date, l.clock;
    var x0, x1, x2, x3, x4 := d.day, [d.sep1], d.month, [d.sep2], d.year;
    var x5, x6, x7, x8, x9, x10 := CommaText(c.comma), " ", c.hour, ":", c.minute, TailText(c.space, c.meridiem);
    var s10 := x10 + rest;
    var s9 := x9 + s10;
    var s8 := x8 + s9;
    var s7 := x7 + s8;
    var s6 := x6 + s7;
    var s5 := x5 + s6;
    var s4 := x4 + s5;
    var s3 := x3 + s4;
    var s2 := x2 + s3;
    var s1 := x1 + s2;
    var p2 := x0 + x1;
    var p3 := p2 + x2;
    var p4 := p3 + x3;
    var p5 := p4 + x4;
    var p6 := p5 + x5;
    var p7 := p6 + x6;
    var p8 := p7 + x7;
    var p9 := p8 + x8;
    var p10 := p9 + x9;
    assert ps[0] + after[0] == x0 + s1;
    Assoc(x0, x1, s2);
    Assoc(p2, x2, s3);
    Assoc(p3, x3, s4);
    Assoc(p4, x4, s5);
    Assoc(p5, x5, s6);
    Assoc(p6, x6, s7);
    Assoc(p7, x7, s8);
    Assoc(p8, x8, s9);
    Assoc(p9, x9, s10);
    Assoc(p10, x10, rest);
  }

  /** What follows each of the pieces after the timestamp, up to `rest`. */
  function TailAfter(l: Line, rest: string): seq<string> {
    [l.user + (": " + (l.message + rest)), ": " + (l.message + rest), l.message + rest, rest]
  }

  lemma TailAfterChains(l: Line, rest: string)
    ensures forall i {:trigger [" - ", l.user, ": ", l.message][i]} :: 0 < i < 4 ==>
      TailAfter(l, rest)[i - 1] == [" - ", l.user, ": ", l.message][i] + TailAfter(l, rest)[i]
  {
    var lp, after := [" - ", l.user, ": ", l.message], TailAfter(l, rest);
    forall i {:trigger lp[i]} | 0 < i < 4
      ensures after[i - 1] == lp[i] + after[i]
    {
      assert i == 1 || i == 2 || i == 3;
    }
  }

  /** A line's text is its pieces written one after another. */
  lemma LineTextChain(l: Line, rest: string)
    ensures Chain(PiecesOf(l), rest) == LineText(l) + rest
  {
    var sp, lp := StampPieces(l.layout), [" - ", l.user, ": ", l.message];
    var after := TailAfter(l, rest);
    ChainAppend(sp, lp, rest);
    TailAfterChains(l, rest);
    SuffixTable(lp, after, rest, 0);
    assert Chain(lp, rest) == " - " + after[0];
    LayoutTextChain(l.layout, Chain(lp, rest));
    var x := LayoutText(l.layout);
    var s2 := l.message + rest;
    var s1 := ": " + s2;
    var s0 := l.user + s1;
    Assoc(x, " - ", s0);
    Assoc(x + " - ", l.user, s1);
    Assoc(x + " - " + l.user, ": ", s2);
    Assoc(x + " - " + l.user + ": ", l.message, rest);
  }

  /** Distinct valid layouts are written as distinct timestamps. */
  lemma LayoutTextInjective(l1: Layout, l2: Layout)
    requires ValidLayout(l1) && ValidLayout(l2) && LayoutText(l1) == LayoutText(l2)
    ensures l1 == l2
  {
    StampRead(l1, " - ");
    StampRead(l2, " - ");
    LayoutOfPieces(l1);
    LayoutOfPieces(l2);
  }

  /** After the timestamp and ` - `, a line's text is the sender, `: ` and the message, and
      the sender ends at the first colon: the split falls on the first `: ` after ` - `. */
  lemma SenderSplit(l: Line)
    requires ValidLine(l)
    ensures LineText(l)[|LayoutText(l.layout)| + 3..] == l.user + ": " + l.message
    ensures IndexOf(LineText(l)[|LayoutText(l.layout)| + 3..], ':') == |l.user|
  {
    SplitAtColon(LayoutText(l.layout), l.user, l.message);
  }

  lemma SplitAtColon(x: string, u: string, m: string)
    requires ':' !in u
    ensures (x + " - " + u + ": " + m)[|x| + 3..] == u + ": " + m
    ensures IndexOf((x + " - " + u + ": " + m)[|x| + 3..], ':') == |u|
  {
    assert (x + " - " + u + ": " + m)[|x| + 3..] == u + (": " + m);
    IndexOfAfter(u, ": " + m, ':');
  }

  /** The pattern is the timestamp elements followed by the line elements. */
  lemma PatternParts()
    ensures Pattern == StampElements + LineElements
  {
  }

  /** The sender and message written after the timestamp read back as their pieces. */
  lemma TailRead(l: Line, rest: string)
    requires ValidLine(l) && (rest == [] || rest[0] == '\n')
    ensures Run(LineElements, Chain([" - ", l.user, ": ", l.message], rest))
      == Some(([" - ", l.user, ": ", l.message], rest))
  {
    var lp, after := [" - ", l.user, ": ", l.message], TailAfter(l, rest);
    TailAfterChains(l, rest);
    forall i | 0 <= i < 4
      ensures Follows(LineElements[i], lp[i], after[i])
    {
      assert i == 0 || i == 1 || i == 2 || i == 3;
    }
    RunSuffixes(LineElements, lp, after, rest);
  }

  /** A written line followed by the end of the text or a newline reads back as its own
      pieces. */
  lemma LineRead(l: Line, rest: string)
    requires ValidLine(l) && (rest == [] || rest[0] == '\n')
    ensures Run(Pattern, LineText(l) + rest) == Some((PiecesOf(l), rest))
  {
    var sp := StampPieces(l.layout);
    var lp := [" - ", l.user, ": ", l.message];
    var after := Chain(lp, rest);
    assert after == " - " + Chain(lp[1..], rest);
    LineTextChain(l, rest);
    ChainAppend(sp, lp, rest);
    LayoutTextChain(l.layout, after);
    StampRead(l.layout, after);
    TailRead(l, rest);
    PatternParts();
    RunAppend(StampElements, LineElements, LineText(l) + rest);
  }

  // ---------------------------------------------------------------------------
  // Matching at a position, and re.findall

  /** One match of `re.findall`: where it starts and ends in the text, and its groups. */
  datatype Match = Match(start: nat, end: nat, line: Line) {
    /** The first group: the timestamp text as written. */
    function Stamp(): string { LayoutText(line.layout) }
  }

  /** What the pattern matches when tried at position `p` of `s` (`pattern.match(s, p)`):
      a well-formed line that ends where a newline or the end of the text follows. */
  function MatchAt(s: string, p: nat): (r: Option<Match>)
    requires p <= |s|
    ensures r.Some? ==> r.value.start == p < r.value.end <= |s| && ValidLine(r.value.line)
    ensures r.Some? ==> r.value.end == |s| || s[r.value.end] == '\n'
  {
    match Run(Pattern, s[p..])
    case None => None
    case Some((ps, rest)) =>
      var x := Chain(ps, []);
      ChainThen(ps, rest);
      SuffixSplit(s, p, x, rest);
      ChainLength(ps, 14, []);
      Some(Match(p, p + |x|, LineOf(ps)))
  }

  /** The match at `p` is made of the pieces the pattern reads from the text there. */
  lemma MatchAtRun(s: string, p: nat, ps: seq<string>, rest: string)
    requires p <= |s| && Run(Pattern, s[p..]) == Some((ps, rest))
    ensures MatchAt(s, p).Some? && MatchAt(s, p).value.start == p
    ensures MatchAt(s, p).value.end == p + |Chain(ps, [])| && MatchAt(s, p).value.line == LineOf(ps)
  {
  }

  /** A match covers exactly the text of its line. */
  lemma MatchAtText(s: string, p: nat)
    requires p <= |s| && MatchAt(s, p).Some?
    ensures s[p..MatchAt(s, p).value.end] == LineText(MatchAt(s, p).value.line)
  {
    var ps, rest := MatchAtPieces(s, p);
    MatchAtRun(s, p, ps, rest);
    RunText(s, p, ps, rest, MatchAt(s, p).value);
  }

  /** A match at `p` comes from a run of the pattern over the text from `p` on. */
  lemma MatchAtPieces(s: string, p: nat) returns (ps: seq<string>, rest: string)
    requires p <= |s| && MatchAt(s, p).Some?
    ensures Run(Pattern, s[p..]) == Some((ps, rest))
  {
    ps, rest := Run(Pattern, s[p..]).value.0, Run(Pattern, s[p..]).value.1;
  }

  /** The pieces the pattern reads from `p` on are written at `p` and spell out the text of
      the line they make. */
  lemma RunText(s: string, p: nat, ps: seq<string>, rest: string, m: Match)
    requires p <= |s| && s[p..] == Chain(ps, rest) && FitsAll(Pattern, ps)
    requires m.end == p + |Chain(ps, [])| && m.line == LineOf(ps)
    ensures m.end <= |s| && s[p..m.end] == LineText(m.line)
  {
    RunSlice(s, p, ps, rest);
    PiecesText(ps);
  }

  /** What the pattern reads from `p` on sits at `p`. */
  lemma RunSlice(s: string, p: nat, ps: seq<string>, rest: string)
    requires p <= |s| && s[p..] == Chain(ps, rest)
    ensures p + |Chain(ps, [])| <= |s| && s[p..p + |Chain(ps, [])|] == Chain(ps, [])
  {
    ChainThen(ps, rest);
    SuffixSplit(s, p, Chain(ps, []), rest);
  }

  /** The pieces of a match spell out the text of the line they make. */
  lemma PiecesText(ps: seq<string>)
    requires FitsAll(Pattern, ps)
    ensures Chain(ps, []) == LineText(LineOf(ps))
  {
    PiecesOfLine(ps);
    LineTextChain(LineOf(ps), []);
  }

  /** Where a well-formed line is written at `p` and followed by the end of the text or a
      newline, the pattern matches exactly that line there. */
  lemma MatchAtLine(s: string, p: nat, l: Line)
    requires ValidLine(l) && p + |LineText(l)| <= |s| && s[p..p + |LineText(l)|] == LineText(l)
    requires p + |LineText(l)| == |s| || s[p + |LineText(l)|] == '\n'
    ensures MatchAt(s, p) == Some(Match(p, p + |LineText(l)|, l))
  {
    var e := p + |LineText(l)|;
    LineAt(s, p, l, s[e..]);
    MatchAtRun(s, p, PiecesOf(l), s[e..]);
    LineWritten(l);
  }

  /** The pattern reads a written line back from the text. */
  lemma LineAt(s: string, p: nat, l: Line, rest: string)
    requires ValidLine(l) && p + |LineText(l)| <= |s| && s[p..p + |LineText(l)|] == LineText(l)
    requires p + |LineText(l)| == |s| || s[p + |LineText(l)|] == '\n'
    requires rest == s[p + |LineText(l)|..]
    ensures Run(Pattern, s[p..]) == Some((PiecesOf(l), rest))
  {
    SliceSplit(s, p, LineText(l));
    LineReadText(l, s[p..], rest);
  }

  lemma LineReadText(l: Line, t: string, rest: string)
    requires ValidLine(l) && (rest == [] || rest[0] == '\n') && t == LineText(l) + rest
    ensures Run(Pattern, t) == Some((PiecesOf(l), rest))
  {
    LineRead(l, rest);
  }

  /** Text found at `p` is followed by the rest of the text. */
  lemma SliceSplit(s: string, p: nat, x: string)
    requires p + |x| <= |s| && s[p..p + |x|] == x
    ensures s[p..] == x + s[p + |x|..]
  {
    assert s[p..] == s[p..p + |x|] + s[p + |x|..];
  }

  /** A valid line is spelled out by its pieces and spells them out again. */
  lemma LineWritten(l: Line)
    requires ValidLine(l)
    ensures LineOf(PiecesOf(l)) == l && Chain(PiecesOf(l), []) == LineText(l)
  {
    LineOfPieces(l);
    LineTextChain(l, []);
  }

  /** What a successful attempt at position `p` of `s` yields: a well-formed line starting
      at `p` and ending where a newline or the end of the text follows. */
  predicate Found(s: string, p: nat, m: Match) {
    m.start == p < m.end <= |s| && ValidLine(m.line) && (m.end == |s| || s[m.end] == '\n')
  }

  /** The pattern tried at every position of `s` from `p` on: entry `i` is the outcome at
      position `p + i`. */
  function Attempts(s: string, p: nat): (tab: seq<Option<Match>>)
    requires p <= |s|
    ensures |tab| == |s| - p
    ensures forall i :: 0 <= i < |tab| ==> tab[i] == MatchAt(s, p + i)
  {
    seq(|s| - p, i requires 0 <= i < |s| - p => MatchAt(s, p + i))
  }

  /** Every successful attempt in `tab` starts at its own position and ends after it,
      within the table. */
  predicate Progressive(tab: seq<Option<Match>>) {
    forall i :: 0 <= i < |tab| && tab[i].Some? ==> tab[i].value.start == i < tab[i].value.end <= |tab|
  }

  /** The walk of `re.findall` over the outcomes of the pattern: from position `p`, record
      a match and go on where it ends, or move one character forward. */
  function Scan(tab: seq<Option<Match>>, p: nat): (ms: seq<Match>)
    requires Progressive(tab) && p <= |tab|
    ensures forall k :: 0 <= k < |ms| ==> p <= ms[k].start < |tab| && tab[ms[k].start] == Some(ms[k])
    decreases |tab| - p
  {
    if p == |tab| then []
    else
      match tab[p]
      case Some(m) => [m] + Scan(tab, m.end)
      case None => Scan(tab, p + 1)
  }

  /** The matches come in text order and do not overlap. */
  lemma {:induction false} ScanOrdered(tab: seq<Option<Match>>, p: nat)
    requires Progressive(tab) && p <= |tab|
    ensures forall i, j :: 0 <= i < j < |Scan(tab, p)| ==> Scan(tab, p)[i].end <= Scan(tab, p)[j].start
    decreases |tab| - p
  {
    if p < |tab| {
      match tab[p]
      case Some(m) =>
        ScanOrdered(tab, m.end);
        var rest := Scan(tab, m.end);
        var ms := Scan(tab, p);
        assert ms == [m] + rest;
        forall i, j | 0 <= i < j < |ms|
          ensures ms[i].end <= ms[j].start
        {
          assert ms[j] == rest[j - 1];
          if i > 0 {
            assert ms[i] == rest[i - 1];
          }
        }
      case None =>
        ScanOrdered(tab, p + 1);
        assert Scan(tab, p) == Scan(tab, p + 1);
    }
  }

  /** Some match in `ms` covers position `q`. */
  ghost predicate Covered(ms: seq<Match>, q: nat) {
    exists k :: 0 <= k < |ms| && ms[k].start <= q < ms[k].end
  }

  /** The walk misses nothing: every position with a successful attempt lies inside one of
      the matches it records (it starts one, or an earlier match swallowed it). */
  lemma {:induction false} ScanCovers(tab: seq<Option<Match>>, p: nat, q: nat)
    requires Progressive(tab) && p <= q < |tab| && tab[q].Some?
    ensures Covered(Scan(tab, p), q)
    decreases |tab| - p
  {
    var ms := Scan(tab, p);
    match tab[p]
    case Some(m) =>
      assert ms == [m] + Scan(tab, m.end);
      if q < m.end {
        assert ms[0].start <= q < ms[0].end;
      } else {
        ScanCovers(tab, m.end, q);
        var rest := Scan(tab, m.end);
        var k :| 0 <= k < |rest| && rest[k].start <= q < rest[k].end;
        assert ms[k + 1] == rest[k];
      }
    case None =>
      assert q != p;
      ScanCovers(tab, p + 1, q);
  }

  /** `re.findall` with the message pattern over the whole text. */
  function FindAll(s: string): (ms: seq<Match>)
    ensures forall k :: 0 <= k < |ms| ==> Found(s, ms[k].start, ms[k])
  {
    var tab := Attempts(s, 0);
    Scan(tab, 0)
  }

  /** Each match is what the pattern yields when tried at its start. */
  lemma FindAllSound(s: string)
    ensures forall k :: 0 <= k < |FindAll(s)| ==>
      FindAll(s)[k].start < |s| && MatchAt(s, FindAll(s)[k].start) == Some(FindAll(s)[k])
  {
    var tab := Attempts(s, 0);
    var ms := Scan(tab, 0);
    assert FindAll(s) == ms;
    forall k | 0 <= k < |ms|
      ensures ms[k].start < |s| && MatchAt(s, ms[k].start) == Some(ms[k])
    {
      var i := ms[k].start;
      assert tab[i] == Some(ms[k]);
      assert tab[i] == MatchAt(s, i);
    }
  }

  /** The matches come in text order without overlapping. */
  lemma FindAllOrdered(s: string)
    ensures forall i, j :: 0 <= i < j < |FindAll(s)| ==> FindAll(s)[i].end <= FindAll(s)[j].start
  {
    ScanOrdered(Attempts(s, 0), 0);
  }

  /** `re.findall` misses nothing: every position at which the pattern would match lies
      inside one of the matches found. */
  lemma FindAllCovers(s: string, q: nat)
    requires q < |s| && MatchAt(s, q).Some?
    ensures Covered(FindAll(s), q)
  {
    ScanCovers(Attempts(s, 0), 0, q);
  }
}
