/** The timestamp conversion of the parser: `pd.to_datetime(..., format="%d/%m/%y, %H:%M",
    errors='coerce')` on the timestamp group of each match.

    The format is turned into a regular expression the way `strptime` does it: `%d` is one or
    two digits (or a space and a digit 1-9), `%m`, `%H` and `%M` one or two digits, `%y`
    exactly two digits, the space of the format one or more whitespace characters, and the
    other characters stand for themselves. The whole timestamp must be consumed. The fields
    are then range-checked (`%d` up to 31, `%m` 1 to 12, `%H` up to 23, `%M` up to 59), the
    two-digit year is expanded (00-68 to 2000-2068, 69-99 to 1969-1999) and the date must
    exist in the calendar. Any failure gives `NaT`, here `None`. */
module Timestamp {
  import opened Text
  import opened Wrappers
  import opened Reader
  import opened Calendar
  import opened ChatPattern

  /** A timestamp down to the minute, as `datetime` holds it. */
  datatype DateTime = DateTime(year: int, month: int, day: int, hour: int, minute: int)

  /** A date and time `datetime` can represent. */
  predicate ValidDateTime(t: DateTime) {
    1 <= t.year < 10000 && ValidDate(t.year, t.month, t.day) && 0 <= t.hour <= 23 && 0 <= t.minute <= 59
  }

  /** `%d/%m/%y, %H:%M` element by element. */
  const StampFormat: seq<Token> := [Day, Lit("/"), Digits(1, 2), Lit("/"), Digits(2, 2), Lit(","),
    Blank, Digits(1, 2), Lit(":"), Digits(1, 2)]

  /** The century rule of `%y`. */
  function ExpandYear(yy: nat): (y: nat)
    requires yy < 100
    ensures 1969 <= y <= 2068 && y % 100 == yy
  {
    if yy <= 68 then 2000 + yy else 1900 + yy
  }

  /** The value of a `%d` field. */
  function DayValue(d: string): (v: nat)
    requires IsDayField(d)
    ensures d[0] != ' ' ==> v == DigitsValue(d)
  {
    if d[0] == ' ' then DigitValue(d[1]) else DigitsValue(d)
  }

  lemma TwoDigits(s: string)
    requires 1 <= |s| <= 2 && AllDigits(s)
    ensures DigitsValue(s) < 100
  {
    DigitsBound(s);
    assert Pow10(|s|) <= 100 by {
      assert Pow10(2) == 100;
    }
  }

  /** The date and time that fields, as read, stand for, when they are all in range. */
  function FieldsTime(d: nat, m: nat, yy: nat, h: nat, mi: nat): (r: Option<DateTime>)
    requires yy < 100
    ensures r.Some? ==> ValidDateTime(r.value)
    ensures r.Some? <==> ValidDate(ExpandYear(yy), m, d) && h <= 23 && mi <= 59
    ensures r.Some? <==> ValidDateTime(DateTime(ExpandYear(yy), m, d, h, mi))
    ensures r.Some? ==>
      (1969 <= r.value.year <= 2068 && r.value.year % 100 == yy
       && r.value.month == m && r.value.day == d && r.value.hour == h && r.value.minute == mi)
  {
    var y := ExpandYear(yy);
    if 1 <= m <= 12 && ValidDate(y, m, d) && h <= 23 && mi <= 59 then Some(DateTime(y, m, d, h, mi))
    else None
  }

  /** `strptime(t, "%d/%m/%y, %H:%M")`, or `None` where it raises. */
  function ParseStamp(t: string): (r: Option<DateTime>)
    ensures r.Some? ==> ValidDateTime(r.value) && 1969 <= r.value.year <= 2068
  {
    match Run(StampFormat, t)
    case None => None
    case Some((qs, rest)) =>
      if rest != [] then None
      else
        assert Fits(StampFormat[0], qs[0]) && Fits(StampFormat[2], qs[2]) && Fits(StampFormat[4], qs[4]);
        assert Fits(StampFormat[7], qs[7]) && Fits(StampFormat[9], qs[9]);
        TwoDigits(qs[4]);
        FieldsTime(DayValue(qs[0]), DigitsValue(qs[2]), DigitsValue(qs[4]), DigitsValue(qs[7]), DigitsValue(qs[9]))
  }

  // ---------------------------------------------------------------------------
  // Which timestamps of the message pattern survive

  /** A timestamp written the one way the format accepts: `/` between the date fields, a
      two-digit year, the comma, and no meridiem. */
  predicate StrictLayout(l: Layout) {
    l.date.sep1 == '/' && l.date.sep2 == '/' && |l.date.year| == 2 && l.clock.comma
      && !l.clock.space && l.clock.meridiem == ""
  }

  /** The date and time a strictly written timestamp stands for, in range or not. */
  function LayoutTime(l: Layout): DateTime
    requires ValidLayout(l) && |l.date.year| == 2
  {
    var d, c := l.date, l.clock;
    TwoDigits(d.year);
    DateTime(ExpandYear(DigitsValue(d.year)), DigitsValue(d.month), DigitsValue(d.day),
      DigitsValue(c.hour), DigitsValue(c.minute))
  }

  /** The format's first `n` elements read the first `n` pieces of a matched timestamp when
      those pieces are written the way the format wants. */
  lemma FormatPrefix(l: Layout, n: nat)
    requires ValidLayout(l) && 0 < n <= 10
    requires n > 1 ==> l.date.sep1 == '/'
    requires n > 3 ==> l.date.sep2 == '/'
    requires n > 4 ==> |l.date.year| == 2
    requires n > 5 ==> l.clock.comma
    ensures Run(StampFormat, LayoutText(l)) ==
      match Run(StampFormat[n..], StampAfter(l, [])[n - 1])
      case None => None
      case Some((qs, r)) => Some((StampPieces(l)[..n] + qs, r))
  {
    var ps, after := StampPieces(l), StampAfter(l, []);
    StampAfterChains(l, []);
    LayoutTextChain(l, []);
    assert LayoutText(l) + [] == LayoutText(l);
    forall i | 0 <= i < n
      ensures Fits(StampFormat[i], ps[i]) && Follows(StampFormat[i], ps[i], after[i])
    {
      FormatPiece(l, i);
    }
    RunPrefix(StampFormat, ps, after, [], n);
  }

  /** Piece `i` of a matched timestamp fits element `i` of the format, and what follows it
      lets the element stop there, when the piece is written the way the format wants. */
  lemma FormatPiece(l: Layout, i: nat)
    requires ValidLayout(l) && i < 10
    requires i == 1 ==> l.date.sep1 == '/'
    requires i == 3 ==> l.date.sep2 == '/'
    requires i == 4 ==> |l.date.year| == 2
    requires i == 5 ==> l.clock.comma
    ensures Fits(StampFormat[i], StampPieces(l)[i])
    ensures Follows(StampFormat[i], StampPieces(l)[i], StampAfter(l, [])[i])
  {
    if i < 5 { DatePiece(l, i); } else { ClockPiece(l, i); }
  }

  lemma DatePiece(l: Layout, i: nat)
    requires ValidLayout(l) && i < 5
    requires i == 1 ==> l.date.sep1 == '/'
    requires i == 3 ==> l.date.sep2 == '/'
    requires i == 4 ==> |l.date.year| == 2
    ensures Fits(StampFormat[i], StampPieces(l)[i])
    ensures Follows(StampFormat[i], StampPieces(l)[i], StampAfter(l, [])[i])
  {
    var after := StampAfter(l, []);
    if i == 4 {
      assert after[4][0] == ',' || after[4][0] == ' ';
    } else {
      assert i == 0 || i == 1 || i == 2 || i == 3;
    }
  }

  lemma ClockPiece(l: Layout, i: nat)
    requires ValidLayout(l) && 5 <= i < 10
    requires i == 5 ==> l.clock.comma
    ensures Fits(StampFormat[i], StampPieces(l)[i])
    ensures Follows(StampFormat[i], StampPieces(l)[i], StampAfter(l, [])[i])
  {
    assert i == 5 || i == 6 || i == 7 || i == 8 || i == 9;
  }

  /** Which timestamps of the message pattern the conversion keeps, and what it makes of
      them: exactly those written strictly as `%d/%m/%y, %H:%M` that name an existing date
      and time, and then the date and time their digits name. */
  lemma ParseLayout(l: Layout)
    requires ValidLayout(l)
    ensures ParseStamp(LayoutText(l)) ==
      if StrictLayout(l) && ValidDateTime(LayoutTime(l)) then Some(LayoutTime(l)) else None
  {
    var d, c := l.date, l.clock;
    if d.sep1 == '/' && d.sep2 == '/' && |d.year| == 2 && c.comma {
      ParseCommaLayout(l);
    } else {
      FormatMismatch(l);
    }
  }

  /** A timestamp written with another separator, a longer year or without the comma does
      not fit the format at all. */
  lemma FormatMismatch(l: Layout)
    requires ValidLayout(l)
    requires !(l.date.sep1 == '/' && l.date.sep2 == '/' && |l.date.year| == 2 && l.clock.comma)
    ensures Run(StampFormat, LayoutText(l)) == None
  {
    var d, c := l.date, l.clock;
    if d.sep1 != '/' {
      FirstSepMismatch(l);
    } else if d.sep2 != '/' {
      SecondSepMismatch(l);
    } else if |d.year| > 2 {
      FormatPrefix(l, 4);
      LongYear(l);
    } else {
      CommaMismatch(l);
    }
  }

  lemma FirstSepMismatch(l: Layout)
    requires ValidLayout(l) && l.date.sep1 != '/'
    ensures Run(StampFormat, LayoutText(l)) == None
  {
    FormatPrefix(l, 1);
    assert StampFormat[1..][0] == Lit("/") && StampAfter(l, [])[0][0] == l.date.sep1;
  }

  lemma SecondSepMismatch(l: Layout)
    requires ValidLayout(l) && l.date.sep1 == '/' && l.date.sep2 != '/'
    ensures Run(StampFormat, LayoutText(l)) == None
  {
    FormatPrefix(l, 3);
    assert StampFormat[3..][0] == Lit("/") && StampAfter(l, [])[2][0] == l.date.sep2;
  }

  lemma CommaMismatch(l: Layout)
    requires ValidLayout(l) && l.date.sep1 == '/' && l.date.sep2 == '/' && |l.date.year| == 2
    requires !l.clock.comma
    ensures Run(StampFormat, LayoutText(l)) == None
  {
    FormatPrefix(l, 5);
    assert StampFormat[5..][0] == Lit(",") && StampAfter(l, [])[4][0] == ' ';
  }

  /** A timestamp that has the format's separators, year and comma is read to its end; it
      is kept when nothing follows the minutes and the fields are in range. */
  lemma ParseCommaLayout(l: Layout)
    requires ValidLayout(l) && l.date.sep1 == '/' && l.date.sep2 == '/' && |l.date.year| == 2
    requires l.clock.comma
    ensures ParseStamp(LayoutText(l)) ==
      if StrictLayout(l) && ValidDateTime(LayoutTime(l)) then Some(LayoutTime(l)) else None
  {
    var ps, after := StampPieces(l), StampAfter(l, []);
    FormatRead(l);
    if StrictLayout(l) {
      assert after[9] == [];
      StrictFields(l, ps[..10]);
      ParseStampRun(LayoutText(l), ps[..10]);
    } else {
      assert after[9] != [];
    }
  }

  /** The format reads all ten pieces of such a timestamp, leaving what follows the
      minutes. */
  lemma FormatRead(l: Layout)
    requires ValidLayout(l) && l.date.sep1 == '/' && l.date.sep2 == '/' && |l.date.year| == 2
    requires l.clock.comma
    ensures Run(StampFormat, LayoutText(l)) == Some((StampPieces(l)[..10], StampAfter(l, [])[9]))
  {
    FormatPrefix(l, 10);
    assert StampFormat[10..] == [];
    assert StampPieces(l)[..10] + [] == StampPieces(l)[..10];
  }

  /** The fields the format reads are the date and time fields of the layout. */
  lemma StrictFields(l: Layout, qs: seq<string>)
    requires qs == StampPieces(l)[..10]
    ensures qs[0] == l.date.day && qs[2] == l.date.month && qs[4] == l.date.year
    ensures qs[7] == l.clock.hour && qs[9] == l.clock.minute
  {
  }

  /** The conversion of a timestamp read to its end, from the fields read. */
  lemma ParseStampRun(t: string, qs: seq<string>)
    requires Run(StampFormat, t) == Some((qs, []))
    ensures Fits(Day, qs[0]) && AllDigits(qs[2]) && |qs[4]| == 2 && AllDigits(qs[4])
    ensures AllDigits(qs[7]) && AllDigits(qs[9]) && DigitsValue(qs[4]) < 100
    ensures ParseStamp(t) ==
      FieldsTime(DayValue(qs[0]), DigitsValue(qs[2]), DigitsValue(qs[4]), DigitsValue(qs[7]), DigitsValue(qs[9]))
  {
    assert Fits(StampFormat[0], qs[0]) && Fits(StampFormat[2], qs[2]) && Fits(StampFormat[4], qs[4]);
    assert Fits(StampFormat[7], qs[7]) && Fits(StampFormat[9], qs[9]);
    TwoDigits(qs[4]);
  }

  /** A four- or three-digit year: `%y` takes its first two digits and the comma finds a
      digit instead. */
  lemma LongYear(l: Layout)
    requires ValidLayout(l) && |l.date.year| > 2
    ensures Run(StampFormat[4..], StampAfter(l, [])[3]).None?
  {
    var y := l.date.year;
    var a4 := StampAfter(l, [])[4];
    var t := StampAfter(l, [])[3];
    assert t == y + a4;
    assert y == y[..2] + y[2..];
    assert t == y[..2] + (y[2..] + a4);
    DigitRunOf(y[..2], y[2..] + a4, 2);
    var ts := StampFormat[4..];
    assert ts[0] == Digits(2, 2) && ts[1..][0] == Lit(",");
    assert Step(ts[0], t) == Some((y[..2], y[2..] + a4));
    assert (y[2..] + a4)[0] == y[2];
    assert Step(ts[1..][0], y[2..] + a4).None?;
    RunStops(ts, t, y[..2], y[2..] + a4);
  }

  // ---------------------------------------------------------------------------
  // Examples

  /** `12/05/23, 14:30` as the message pattern reads it. */
  const May12: Layout := Layout(DatePart("12", '/', "05", '/', "23"), ClockPart(true, "14", "30", false, ""))

  /** `1/1/70, 0:00` as the message pattern reads it. */
  const NewYear70: Layout := Layout(DatePart("1", '/', "1", '/', "70"), ClockPart(true, "0", "00", false, ""))

  /** `30/02/23, 10:00` as the message pattern reads it. */
  const February30: Layout := Layout(DatePart("30", '/', "02", '/', "23"), ClockPart(true, "10", "00", false, ""))

  lemma TwoDigitValue(s: string)
    requires |s| == 2 && AllDigits(s)
    ensures DigitsValue(s) == 10 * DigitValue(s[0]) + DigitValue(s[1])
  {
    var h := s[..1];
    assert h[..0] == [] && h[0] == s[0];
    assert DigitsValue(h) == DigitValue(s[0]);
    assert s[..|s| - 1] == h;
  }

  lemma May12Written()
    ensures ValidLayout(May12) && LayoutText(May12) == "12/05/23, 14:30"
  {
  }

  lemma May12Fields()
    ensures ValidLayout(May12) && LayoutText(May12) == "12/05/23, 14:30"
    ensures LayoutTime(May12) == DateTime(2023, 5, 12, 14, 30)
  {
    May12Written();
    TwoDigitValue("12");
    TwoDigitValue("05");
    TwoDigitValue("23");
    TwoDigitValue("14");
    TwoDigitValue("30");
  }

  lemma NewYear70Fields()
    ensures ValidLayout(NewYear70) && LayoutText(NewYear70) == "1/1/70, 0:00"
    ensures LayoutTime(NewYear70) == DateTime(1970, 1, 1, 0, 0)
  {
    assert "1"[..0] == [] && "0"[..0] == [];
    TwoDigitValue("70");
    TwoDigitValue("00");
  }

  lemma February30Fields()
    ensures ValidLayout(February30) && LayoutText(February30) == "30/02/23, 10:00"
    ensures LayoutTime(February30).month == 2 && LayoutTime(February30).day == 30
  {
    TwoDigitValue("30");
    TwoDigitValue("02");
    TwoDigitValue("23");
  }

  /** The one layout the format accepts, with a two-digit year expanded into this century. */
  lemma AcceptsStrictStamp()
    ensures ParseStamp("12/05/23, 14:30") == Some(DateTime(2023, 5, 12, 14, 30))
  {
    May12Fields();
    ParseLayout(May12);
  }

  /** Two-digit years from 69 on belong to the twentieth century; one-digit fields are read. */
  lemma ExpandsLateYear()
    ensures ParseStamp("1/1/70, 0:00") == Some(DateTime(1970, 1, 1, 0, 0))
  {
    NewYear70Fields();
    ParseLayout(NewYear70);
  }

  /** A date that does not exist is dropped. */
  lemma RejectsMissingDate()
    ensures ParseStamp("30/02/23, 10:00") == None
  {
    February30Fields();
    ParseLayout(February30);
  }

  /** A twelve-hour timestamp is dropped rather than converted. */
  lemma RejectsMeridiem()
    ensures ParseStamp("12/05/23, 2:30 PM") == None
  {
    var l := Layout(DatePart("12", '/', "05", '/', "23"), ClockPart(true, "2", "30", true, "PM"));
    assert LayoutText(l) == "12/05/23, 2:30 PM";
    ParseLayout(l);
  }

  /** Dots between the date fields are dropped. */
  lemma RejectsDots()
    ensures ParseStamp("12.05.23, 14:30") == None
  {
    var l := Layout(DatePart("12", '.', "05", '.', "23"), ClockPart(true, "14", "30", false, ""));
    assert LayoutText(l) == "12.05.23, 14:30";
    ParseLayout(l);
  }

  /** Dashes between the date fields are dropped. */
  lemma RejectsDashes()
    ensures ParseStamp("12-05-23, 14:30") == None
  {
    var l := Layout(DatePart("12", '-', "05", '-', "23"), ClockPart(true, "14", "30", false, ""));
    assert LayoutText(l) == "12-05-23, 14:30";
    ParseLayout(l);
  }

  /** A four-digit year is dropped. */
  lemma RejectsLongYear()
    ensures ParseStamp("12/05/2023, 14:30") == None
  {
    var l := Layout(DatePart("12", '/', "05", '/', "2023"), ClockPart(true, "14", "30", false, ""));
    assert LayoutText(l) == "12/05/2023, 14:30";
    ParseLayout(l);
  }

  /** A timestamp without the comma is dropped. */
  lemma RejectsMissingComma()
    ensures ParseStamp("12/05/23 14:30") == None
  {
    var l := Layout(DatePart("12", '/', "05", '/', "23"), ClockPart(false, "14", "30", false, ""));
    assert LayoutText(l) == "12/05/23 14:30";
    ParseLayout(l);
  }
}
