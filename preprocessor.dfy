/** `preprocess`: from the text of a chat export to the table of its messages.

    The text is rejected when it is blank and when the message pattern finds nothing in it.
    Otherwise every match becomes a row of timestamp, sender and message; rows whose
    timestamp does not convert under `%d/%m/%y, %H:%M` are dropped, and the calendar fields
    are derived from the timestamp of each row that is kept. */
module Preprocessor {
  import opened Text
  import opened Wrappers
  import opened Reader
  import opened Calendar
  import opened ChatPattern
  import opened Timestamp

  /** The two `ValueError`s `preprocess` raises. */
  datatype PreprocessError = EmptyFile | NoMessages

  function ErrorText(e: PreprocessError): string {
    match e
    case EmptyFile => "The uploaded file is empty. Please upload a valid chat file."
    case NoMessages => "No valid messages were found in the file. Please check the format."
  }

  /** One row of the table: the converted timestamp, the sender, the message and the
      columns derived from the timestamp. */
  datatype Record = Record(
    messageDate: DateTime, user: string, message: string,
    onlyDate: string, year: int, month: string, monthNum: int, day: int, dayName: string,
    hour: int, minute: int, period: string)

  /** The `period_24hr` label of an hour: the hour and the next one, unpadded, joined by a
      dash. */
  function PeriodLabel(h: nat): string {
    NatToString(h) + "-" + NatToString(h + 1)
  }

  /** The row made from a converted timestamp, a sender and a message. */
  function RecordOf(t: DateTime, user: string, message: string): Record
    requires ValidDateTime(t)
  {
    Record(t, user, message,
      DateString(t.year, t.month, t.day), t.year, MonthName(t.month), t.month, t.day,
      DayName(Weekday(t.year, t.month, t.day)), t.hour, t.minute, PeriodLabel(t.hour))
  }

  /** What the derived columns of a row promise about each other and about its timestamp. */
  predicate WellFormed(r: Record) {
    && 1969 <= r.year <= 2068 && 1 <= r.monthNum <= 12 && ValidDate(r.year, r.monthNum, r.day)
    && 0 <= r.hour <= 23 && 0 <= r.minute <= 59
    && r.messageDate == DateTime(r.year, r.monthNum, r.day, r.hour, r.minute)
    && r.month == MonthName(r.monthNum)
    && r.onlyDate == DateString(r.year, r.monthNum, r.day)
    && r.dayName == DayName(Weekday(r.year, r.monthNum, r.day))
    && r.period == PeriodLabel(r.hour)
  }

  // ---------------------------------------------------------------------------
  // Conversion, dropping and derivation

  /** A row of the table as first built and converted: the timestamp after
      `pd.to_datetime` (`None` for `NaT`), the sender and the message. */
  datatype Row = Row(date: Option<DateTime>, user: string, message: string)

  /** The row a match gives once its timestamp is converted. */
  function Converted(m: Match): (r: Row)
    ensures r.date.Some? ==> ValidDateTime(r.date.value) && 1969 <= r.date.value.year <= 2068
    ensures r.user == m.line.user && r.message == m.line.message
  {
    Row(ParseStamp(m.Stamp()), m.line.user, m.line.message)
  }

  /** A converted timestamp is one the calendar columns can be derived from. */
  predicate Derivable(r: Row) {
    r.date.Some? ==> ValidDateTime(r.date.value) && 1969 <= r.date.value.year <= 2068
  }

  /** The table as first built from the matches, with the timestamps converted. */
  function Table(ms: seq<Match>): (rows: seq<Row>)
    ensures |rows| == |ms|
    ensures forall i :: 0 <= i < |ms| ==> rows[i] == Converted(ms[i]) && Derivable(rows[i])
  {
    seq(|ms|, i requires 0 <= i < |ms| => Converted(ms[i]))
  }

  /** `dropna(subset=['message_date'])`: the rows, in order, whose timestamp converted. */
  function DropNa(rows: seq<Row>): (out: seq<Row>)
    ensures |out| <= |rows|
    ensures forall k :: 0 <= k < |out| ==> out[k].date.Some?
    ensures (forall i :: 0 <= i < |rows| ==> Derivable(rows[i])) ==>
      forall k :: 0 <= k < |out| ==> Derivable(out[k])
    decreases |rows|
  {
    if rows == [] then []
    else
      var last := rows[|rows| - 1];
      DropNa(rows[..|rows| - 1]) + if last.date.Some? then [last] else []
  }

  /** The positions of the rows whose timestamp converted. */
  function Kept(rows: seq<Row>): seq<nat>
    decreases |rows|
  {
    if rows == [] then []
    else Kept(rows[..|rows| - 1]) + if rows[|rows| - 1].date.Some? then [|rows| - 1] else []
  }

  /** Row `k` after `dropna` is row `Kept(rows)[k]` before it; those positions increase, so
      the order of the rows is kept; every row whose timestamp converted is kept. */
  lemma {:induction false} KeptRows(rows: seq<Row>)
    ensures |Kept(rows)| == |DropNa(rows)|
    ensures forall k :: 0 <= k < |Kept(rows)| ==>
      Kept(rows)[k] < |rows| && DropNa(rows)[k] == rows[Kept(rows)[k]]
    ensures forall k, k' :: 0 <= k < k' < |Kept(rows)| ==> Kept(rows)[k] < Kept(rows)[k']
    ensures forall i :: 0 <= i < |rows| && rows[i].date.Some? ==> i in Kept(rows)
    decreases |rows|
  {
    if rows != [] {
      var init, last := rows[..|rows| - 1], rows[|rows| - 1];
      KeptRows(init);
      var ks, rs := Kept(init), DropNa(init);
      assert Kept(rows) == ks + if last.date.Some? then [|rows| - 1] else [];
      assert DropNa(rows) == rs + if last.date.Some? then [last] else [];
      forall k | 0 <= k < |Kept(rows)|
        ensures Kept(rows)[k] < |rows| && DropNa(rows)[k] == rows[Kept(rows)[k]]
      {
        if k < |ks| {
          assert Kept(rows)[k] == ks[k] && DropNa(rows)[k] == rs[k] && rows[ks[k]] == init[ks[k]];
        } else {
          assert Kept(rows)[k] == |rows| - 1 && DropNa(rows)[k] == last;
        }
      }
      forall k, k' | 0 <= k < k' < |Kept(rows)|
        ensures Kept(rows)[k] < Kept(rows)[k']
      {
        assert Kept(rows)[k] == ks[k];
        if k' < |ks| {
          assert Kept(rows)[k'] == ks[k'];
        } else {
          assert Kept(rows)[k'] == |rows| - 1;
        }
      }
      forall i | 0 <= i < |rows| && rows[i].date.Some?
        ensures i in Kept(rows)
      {
        if i < |rows| - 1 {
          assert rows[i] == init[i];
        }
      }
    }
  }

  /** The derived columns added to the rows that survived `dropna`: each row keeps its
      timestamp, sender and message, and gets the calendar fields of its timestamp. */
  function Derive(rows: seq<Row>): (out: seq<Record>)
    requires forall k :: 0 <= k < |rows| ==> rows[k].date.Some? && Derivable(rows[k])
    ensures |out| == |rows|
    ensures forall k :: 0 <= k < |rows| ==>
      (out[k].messageDate == rows[k].date.value && out[k].user == rows[k].user
       && out[k].message == rows[k].message && WellFormed(out[k]))
  {
    seq(|rows|, k requires 0 <= k < |rows| && rows[k].date.Some? && Derivable(rows[k]) =>
      RecordOf(rows[k].date.value, rows[k].user, rows[k].message))
  }

  /** The table built from the matches: converted, dropped and derived. */
  function Messages(ms: seq<Match>): (out: seq<Record>)
    ensures |out| == |Kept(Table(ms))| <= |ms|
  {
    KeptRows(Table(ms));
    Derive(DropNa(Table(ms)))
  }

  // ---------------------------------------------------------------------------
  // preprocess

  /** `preprocess(data)`: the table of the messages in `data`, or the error it raises. */
  function Preprocess(data: string): (r: Result<seq<Record>, PreprocessError>)
    ensures r == Err(EmptyFile) <==> Strip(data) == []
    ensures r == Err(NoMessages) <==> Strip(data) != [] && FindAll(data) == []
    ensures r.Ok? ==> |r.value| <= |FindAll(data)|
    ensures r.Ok? ==> forall k :: 0 <= k < |r.value| ==> WellFormed(r.value[k])
  {
    if Strip(data) == [] then Err(EmptyFile)
    else
      var ms := FindAll(data);
      if ms == [] then Err(NoMessages)
      else Ok(Messages(ms))
  }

  /** Blank or whitespace-only input is rejected, with no rows. */
  lemma BlankRejected(data: string)
    requires forall i :: 0 <= i < |data| ==> IsSpace(data[i])
    ensures Preprocess(data) == Err(EmptyFile)
  {
  }

  /** A row of the table and the match it comes from: the match is one of `re.findall`'s,
      its text is the row's timestamp, sender and message as written, the timestamp is
      written strictly as `%d/%m/%y, %H:%M`, and the row holds what that timestamp names. */
  predicate RowFromMatch(data: string, m: Match, r: Record) {
    && Found(data, m.start, m)
    && data[m.start..m.end] == LineText(m.line)
    && StrictLayout(m.line.layout)
    && ValidDateTime(LayoutTime(m.line.layout))
    && r.messageDate == LayoutTime(m.line.layout)
    && r.user == m.line.user && r.message == m.line.message
  }

  /** Each row of the table comes from a match of the text, and the rows keep the order of
      their matches. */
  lemma TableRows(data: string, ms: seq<Match>)
    requires ms == FindAll(data)
    ensures Strip(data) != [] && ms != [] ==> Preprocess(data) == Ok(Messages(ms))
    ensures forall k :: 0 <= k < |Messages(ms)| ==>
      (Kept(Table(ms))[k] < |ms| && RowFromMatch(data, ms[Kept(Table(ms))[k]], Messages(ms)[k]))
    ensures forall k, k' :: 0 <= k < k' < |Messages(ms)| ==>
      ms[Kept(Table(ms))[k]].end <= ms[Kept(Table(ms))[k']].start
  {
    var rows := Table(ms);
    var ks, out := Kept(rows), Messages(ms);
    KeptRows(rows);
    FindAllSound(data);
    FindAllOrdered(data);
    forall k | 0 <= k < |ks|
      ensures RowFromMatch(data, ms[ks[k]], out[k])
    {
      var m := ms[ks[k]];
      assert DropNa(rows)[k] == Converted(m);
      MatchAtText(data, m.start);
      ParseLayout(m.line.layout);
    }
  }

  /** Row `k` of the table comes from match `Kept(Table(ms))[k]`. */
  lemma MessageSource(data: string, ms: seq<Match>, k: nat)
    requires ms == FindAll(data) && k < |Messages(ms)|
    ensures Kept(Table(ms))[k] < |ms| && RowFromMatch(data, ms[Kept(Table(ms))[k]], Messages(ms)[k])
  {
    TableRows(data, ms);
  }

  /** A match is kept exactly when its timestamp is written strictly as `%d/%m/%y, %H:%M`
      and names an existing date and time. */
  lemma KeptExactly(ms: seq<Match>, i: nat)
    requires i < |ms| && ValidLayout(ms[i].line.layout)
    ensures i in Kept(Table(ms)) <==>
      StrictLayout(ms[i].line.layout) && ValidDateTime(LayoutTime(ms[i].line.layout))
  {
    var rows := Table(ms);
    KeptRows(rows);
    assert rows[i] == Converted(ms[i]);
    ParseLayout(ms[i].line.layout);
    if i in Kept(rows) {
      var k :| 0 <= k < |Kept(rows)| && Kept(rows)[k] == i;
    }
  }

  /** A sender never contains a colon and a message is never empty or spread over several
      lines; the sender is what lies between the ` - ` after the timestamp and the first
      colon. */
  lemma RowsSplitAtFirstColon(data: string, m: Match, r: Record)
    requires RowFromMatch(data, m, r)
    ensures IsSender(r.user) && IsMessageText(r.message)
    ensures LineText(m.line)[|m.Stamp()| + 3..] == r.user + ": " + r.message
    ensures IndexOf(LineText(m.line)[|m.Stamp()| + 3..], ':') == |r.user|
  {
    SenderSplit(m.line);
  }

  lemma RecordWellFormed(t: DateTime, user: string, message: string)
    requires ValidDateTime(t) && 1969 <= t.year <= 2068
    ensures WellFormed(RecordOf(t, user, message))
  {
  }

  // ---------------------------------------------------------------------------
  // The derived columns

  /** `only_date` reads back as the row's date, and sorting it as text sorts the rows'
      dates. */
  lemma OnlyDateFields(r: Record)
    requires WellFormed(r)
    ensures |r.onlyDate| == 10 && r.onlyDate[4] == '-' && r.onlyDate[7] == '-'
    ensures AllDigits(r.onlyDate[..4]) && DigitsValue(r.onlyDate[..4]) == r.year
    ensures AllDigits(r.onlyDate[5..7]) && DigitsValue(r.onlyDate[5..7]) == r.monthNum
    ensures AllDigits(r.onlyDate[8..]) && DigitsValue(r.onlyDate[8..]) == r.day
  {
    DateStringFields(r.year, r.monthNum, r.day);
  }

  lemma OnlyDateOrder(r1: Record, r2: Record)
    requires WellFormed(r1) && WellFormed(r2)
    ensures LexLess(r1.onlyDate, r2.onlyDate) <==>
      DateBefore(r1.year, r1.monthNum, r1.day, r2.year, r2.monthNum, r2.day)
    ensures r1.onlyDate == r2.onlyDate <==>
      r1.year == r2.year && r1.monthNum == r2.monthNum && r1.day == r2.day
  {
    DateStringOrder(r1.year, r1.monthNum, r1.day, r2.year, r2.monthNum, r2.day);
    DateStringInjective(r1.year, r1.monthNum, r1.day, r2.year, r2.monthNum, r2.day);
  }

  /** An hour's label is its number, a dash and the next number, with no zero in front. */
  lemma PeriodLabelParts(h: nat)
    ensures IndexOf(PeriodLabel(h), '-') == |NatToString(h)|
    ensures DigitsValue(PeriodLabel(h)[..|NatToString(h)|]) == h
    ensures DigitsValue(PeriodLabel(h)[|NatToString(h)| + 1..]) == h + 1
    ensures PeriodLabel(h)[0] == '0' <==> h == 0
  {
    var a, b := NatToString(h), NatToString(h + 1);
    assert PeriodLabel(h) == a + ("-" + b);
    assert PeriodLabel(h)[..|a|] == a && PeriodLabel(h)[|a| + 1..] == b;
    assert forall j :: 0 <= j < |a| ==> a[j] != '-' by {
      assert AllDigits(a);
    }
    IndexOfAfter(a, "-" + b, '-');
  }

  /** Different hours get different labels, so grouping by label groups by hour. */
  lemma PeriodLabelInjective(h1: nat, h2: nat)
    ensures PeriodLabel(h1) == PeriodLabel(h2) <==> h1 == h2
  {
    if PeriodLabel(h1) == PeriodLabel(h2) {
      PeriodLabelParts(h1);
      PeriodLabelParts(h2);
    }
  }

  /** The last hour of the day is labelled `23-24`. */
  lemma LastPeriod()
    ensures PeriodLabel(23) == "23-24"
  {
    assert NatToString(2) == "2" && NatToString(3) == "3" && NatToString(4) == "4";
    assert NatToString(23) == "23" && NatToString(24) == "24";
  }
}
