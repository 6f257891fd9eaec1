/** The queries the dashboard runs over the table `preprocess` builds: the user filter,
    the message, word, media and link counts, the busiest users, the most common words,
    the emoji counts, the timelines, the activity maps and heatmap, and the text handed to
    the word cloud.

    The URL finder, the emoji table and the stop-word set are parameters. */
module Helper {
  import opened Text
  import opened Wrappers
  import opened Frequency
  import opened Calendar
  import opened Preprocessor
  import opened Reader

  /** The entry of the user list that selects every row. */
  const Overall := "Overall"

  /** What the chat export writes in place of a photo, video or other attachment. */
  const MediaOmitted := "<Media omitted>"

  /** The sender name of system notices; the queries that build word lists skip it. */
  const GroupNotification := "group_notification"

  // ---------------------------------------------------------------------------
  // Columns and the user filter

  function UserColumn(df: seq<Record>): (c: seq<string>)
    ensures |c| == |df| && forall i :: 0 <= i < |df| ==> c[i] == df[i].user
  {
    seq(|df|, i requires 0 <= i < |df| => df[i].user)
  }

  function MessageColumn(df: seq<Record>): (c: seq<string>)
    ensures |c| == |df| && forall i :: 0 <= i < |df| ==> c[i] == df[i].message
  {
    seq(|df|, i requires 0 <= i < |df| => df[i].message)
  }

  /** The rows whose sender is exactly `u`, in order (`df[df['user'] == u]`). */
  function ByUser(u: string, df: seq<Record>): seq<Record> {
    Filter(df, (r: Record) => r.user == u)
  }

  /** The filter every query starts with: `"Overall"` keeps the table as it is, any other
      name keeps the rows of exactly that sender. */
  function FilterUser(selected: string, df: seq<Record>): (d: seq<Record>)
    ensures |d| <= |df|
    ensures selected != Overall ==> forall i :: 0 <= i < |d| ==> d[i].user == selected
  {
    if selected == Overall then df else ByUser(selected, df)
  }

  /** The user filter works row by row and in order: filtering a table made of two parts
      filters each part; a single row is kept when it is selected. */
  lemma FilterUserAppend(selected: string, a: seq<Record>, b: seq<Record>)
    ensures FilterUser(selected, a + b) == FilterUser(selected, a) + FilterUser(selected, b)
  {
    FilterAppend(a, b, (r: Record) => r.user == selected);
  }

  lemma FilterUserOne(selected: string, r: Record)
    ensures FilterUser(selected, [r]) == if selected == Overall || r.user == selected then [r] else []
  {
    FilterOne(r, (r: Record) => r.user == selected);
  }

  /** A sender's rows are as many as the sender's occurrences in the `user` column. */
  lemma {:induction false} ByUserCount(u: string, df: seq<Record>)
    ensures |ByUser(u, df)| == Count(UserColumn(df), u)
    decreases |df|
  {
    if df != [] {
      var init := df[..|df| - 1];
      ByUserCount(u, init);
      assert UserColumn(df)[..|df| - 1] == UserColumn(init);
    }
  }

  /** The number of rows of the senders `us`, taken one sender at a time. */
  function RowsOfUsers(us: seq<string>, df: seq<Record>): nat
    decreases |us|
  {
    if us == [] then 0 else RowsOfUsers(us[..|us| - 1], df) + |ByUser(us[|us| - 1], df)|
  }

  lemma {:induction false} RowsOfUsersCount(us: seq<string>, df: seq<Record>)
    ensures RowsOfUsers(us, df) == CountAll(us, UserColumn(df))
    decreases |us|
  {
    if us != [] {
      RowsOfUsersCount(us[..|us| - 1], df);
      ByUserCount(us[|us| - 1], df);
    }
  }

  /** The `"Overall"` message count is the sum of the message counts of the senders. */
  lemma OverallIsSumOfUsers(df: seq<Record>)
    ensures |FilterUser(Overall, df)| == RowsOfUsers(Distinct(UserColumn(df)), df)
  {
    RowsOfUsersCount(Distinct(UserColumn(df)), df);
    CountsAddUp(UserColumn(df));
  }

  // ---------------------------------------------------------------------------
  // fetch_stats

  /** The four numbers `fetch_stats` returns. */
  datatype Stats = Stats(messages: nat, words: nat, media: nat, links: nat)

  /** `[url for m in ms for url in findUrls(m)]`. */
  function LinksOf(ms: seq<string>, findUrls: string -> seq<string>): seq<string>
    decreases |ms|
  {
    if ms == [] then [] else findUrls(ms[0]) + LinksOf(ms[1..], findUrls)
  }

  function AddStats(a: Stats, b: Stats): Stats {
    Stats(a.messages + b.messages, a.words + b.words, a.media + b.media, a.links + b.links)
  }

  /** `fetch_stats(selected_user, df)`: rows, whitespace-separated tokens, rows whose message
      is exactly `<Media omitted>`, and the URLs the finder reports. */
  function FetchStats(selected: string, df: seq<Record>, findUrls: string -> seq<string>): (s: Stats)
    ensures s.media <= s.messages == |FilterUser(selected, df)|
  {
    var ms := MessageColumn(FilterUser(selected, df));
    Stats(|ms|, |WordsOf(ms)|, Count(ms, MediaOmitted), |LinksOf(ms, findUrls)|)
  }

  /** `<Media omitted>` is two tokens for `split()`. */
  lemma MediaIsTwoWords()
    ensures Split(MediaOmitted) == ["<Media", "omitted>"]
  {
    var a, b := "<Media", "omitted>";
    assert MediaOmitted == a + [' '] + b;
    PrintableWord(a);
    PrintableWord(b);
    SplitTwoWords(a, b);
  }

  /** A non-empty run of printable ASCII characters other than the space is one token. */
  lemma PrintableWord(w: string)
    requires |w| > 0 && forall i :: 0 <= i < |w| ==> '!' <= w[i] <= '~'
    ensures IsWord(w)
  {
  }

  /** Each media row adds its two tokens to the word count. */
  lemma {:induction false} MediaWords(ms: seq<string>)
    ensures 2 * Count(ms, MediaOmitted) <= |WordsOf(ms)|
    decreases |ms|
  {
    if ms != [] {
      MediaWords(ms[1..]);
      assert ms == [ms[0]] + ms[1..];
      CountAppend([ms[0]], ms[1..], MediaOmitted);
      assert Count([ms[0]], MediaOmitted) == if ms[0] == MediaOmitted then 1 else 0 by {
        assert [ms[0]][..0] == [];
      }
      MediaIsTwoWords();
    }
  }

  lemma {:induction false} LinksOfAppend(a: seq<string>, b: seq<string>, findUrls: string -> seq<string>)
    ensures LinksOf(a + b, findUrls) == LinksOf(a, findUrls) + LinksOf(b, findUrls)
    decreases |a|
  {
    if a == [] {
      assert a + b == b;
    } else {
      assert (a + b)[0] == a[0] && (a + b)[1..] == a[1..] + b;
      LinksOfAppend(a[1..], b, findUrls);
    }
  }

  lemma MessageColumnAppend(a: seq<Record>, b: seq<Record>)
    ensures MessageColumn(a + b) == MessageColumn(a) + MessageColumn(b)
  {
  }

  /** The statistics of a table made of two parts are the sums of the statistics of the
      parts, and the media rows account for two tokens each. */
  lemma FetchStatsAppend(selected: string, a: seq<Record>, b: seq<Record>, findUrls: string -> seq<string>)
    ensures FetchStats(selected, a + b, findUrls) ==
      AddStats(FetchStats(selected, a, findUrls), FetchStats(selected, b, findUrls))
    ensures 2 * FetchStats(selected, a, findUrls).media <= FetchStats(selected, a, findUrls).words
  {
    var fa, fb := FilterUser(selected, a), FilterUser(selected, b);
    FilterUserAppend(selected, a, b);
    var ma, mb := MessageColumn(fa), MessageColumn(fb);
    MessageColumnAppend(fa, fb);
    WordsOfAppend(ma, mb);
    CountAppend(ma, mb, MediaOmitted);
    LinksOfAppend(ma, mb, findUrls);
    MediaWords(ma);
  }

  /** A one-row table: a selected row is one message with its own tokens, media flag and
      links; any other row contributes nothing. With `FetchStatsAppend` this fixes the four
      numbers of every table. */
  lemma FetchStatsOne(selected: string, r: Record, findUrls: string -> seq<string>)
    ensures FetchStats(selected, [r], findUrls) ==
      if selected == Overall || r.user == selected then
        Stats(1, |Split(r.message)|, if r.message == MediaOmitted then 1 else 0, |findUrls(r.message)|)
      else Stats(0, 0, 0, 0)
  {
    FilterUserOne(selected, r);
    var ms := MessageColumn(FilterUser(selected, [r]));
    if selected == Overall || r.user == selected {
      assert ms == [r.message];
      assert ms[1..] == [] && ms[..0] == [];
      assert WordsOf(ms) == Split(r.message) + WordsOf([]);
      assert LinksOf(ms, findUrls) == findUrls(r.message) + LinksOf([], findUrls);
      assert Count(ms, MediaOmitted) == Count([], MediaOmitted) + if r.message == MediaOmitted then 1 else 0;
    }
  }

  // ---------------------------------------------------------------------------
  // most_busy_users

  /** One row of the share table: a sender and the percentage of all rows that are theirs. */
  datatype Share = Share(name: string, percent: real)

  /** The percentages of the counts `vc` in a table of `n` rows, in the order of `vc`. */
  function SharesOf(vc: seq<(string, nat)>, n: nat): (r: seq<Share>)
    requires n > 0
    ensures |r| == |vc|
    ensures forall i :: 0 <= i < |vc| ==> r[i] == Share(vc[i].0, (vc[i].1 as real / n as real) * 100.0)
    decreases |vc|
  {
    if vc == [] then []
    else
      var l := vc[|vc| - 1];
      SharesOf(vc[..|vc| - 1], n) + [Share(l.0, (l.1 as real / n as real) * 100.0)]
  }

  function SumPercent(r: seq<Share>): real
    decreases |r|
  {
    if r == [] then 0.0 else SumPercent(r[..|r| - 1]) + r[|r| - 1].percent
  }

  lemma {:induction false} SharesSum(vc: seq<(string, nat)>, n: nat)
    requires n > 0
    ensures SumPercent(SharesOf(vc, n)) == (SumCounts(vc) as real / n as real) * 100.0
    decreases |vc|
  {
    if vc != [] {
      var init, l := vc[..|vc| - 1], vc[|vc| - 1];
      SharesSum(init, n);
      assert SharesOf(vc, n)[..|vc| - 1] == SharesOf(init, n);
      PercentAdd(SumCounts(init) as real, l.1 as real, n as real);
    }
  }

  lemma PercentAdd(a: real, c: real, m: real)
    requires m > 0.0
    ensures (a / m) * 100.0 + (c / m) * 100.0 == ((a + c) / m) * 100.0
  {
  }

  /** `u` has a row in the share table `r`. */
  predicate HasShare(r: seq<Share>, u: string) {
    exists k :: 0 <= k < |r| && r[k].name == u
  }

  /** `most_busy_users(df)`: the five senders with most rows and their counts
      (`value_counts().head()`), and every sender's share of the rows in percent. */
  function MostBusyUsers(df: seq<Record>): (seq<(string, nat)>, seq<Share>) {
    (BusiestUsers(df), UserShares(df))
  }

  /** `df['user'].value_counts().head()`. */
  function BusiestUsers(df: seq<Record>): seq<(string, nat)> {
    MostCommon(UserColumn(df), Some(5))
  }

  /** `round(df['user'].value_counts() / df.shape[0] * 100, 2)`, without the rounding. */
  function UserShares(df: seq<Record>): seq<Share> {
    if df == [] then [] else SharesOf(MostCommon(UserColumn(df), None), |df|)
  }

  /** Five senders, or all of them when there are fewer, each with their exact number of
      rows, no sender twice, counts never increasing, and no sender left out who has more
      rows than one listed. */
  lemma BusiestUsersFacts(df: seq<Record>)
    ensures |BusiestUsers(df)| <= 5
    ensures |BusiestUsers(df)| == if 5 < |Distinct(UserColumn(df))| then 5 else |Distinct(UserColumn(df))|
    ensures forall i :: 0 <= i < |BusiestUsers(df)| ==>
      BusiestUsers(df)[i].1 == |ByUser(BusiestUsers(df)[i].0, df)| > 0
    ensures forall i, j :: 0 <= i < j < |BusiestUsers(df)| ==>
      BusiestUsers(df)[i].0 != BusiestUsers(df)[j].0 && BusiestUsers(df)[i].1 >= BusiestUsers(df)[j].1
    ensures forall u :: u in UserColumn(df) && (u, |ByUser(u, df)|) !in BusiestUsers(df) ==>
      forall i :: 0 <= i < |BusiestUsers(df)| ==> BusiestUsers(df)[i].1 >= |ByUser(u, df)|
  {
    BusiestRanks(df, BusiestUsers(df));
    BusiestCounts(df, BusiestUsers(df));
    BusiestCut(df, BusiestUsers(df));
  }

  lemma BusiestRanks(df: seq<Record>, top: seq<(string, nat)>)
    requires top == MostCommon(UserColumn(df), Some(5))
    ensures |top| == if 5 < |Distinct(UserColumn(df))| then 5 else |Distinct(UserColumn(df))|
    ensures forall i :: 0 <= i < |top| ==> top[i].0 in UserColumn(df) && top[i].1 == Count(UserColumn(df), top[i].0)
    ensures forall i, j :: 0 <= i < j < |top| ==> top[i].0 != top[j].0 && top[i].1 >= top[j].1
  {
    MostCommonFacts(UserColumn(df), Some(5));
  }

  lemma BusiestCounts(df: seq<Record>, top: seq<(string, nat)>)
    requires forall i :: 0 <= i < |top| ==> top[i].0 in UserColumn(df) && top[i].1 == Count(UserColumn(df), top[i].0)
    ensures forall i :: 0 <= i < |top| ==> top[i].1 == |ByUser(top[i].0, df)| > 0
  {
    forall i | 0 <= i < |top|
      ensures top[i].1 == |ByUser(top[i].0, df)| > 0
    {
      ByUserCount(top[i].0, df);
    }
  }

  lemma BusiestCut(df: seq<Record>, top: seq<(string, nat)>)
    requires top == MostCommon(UserColumn(df), Some(5))
    ensures forall u :: u in UserColumn(df) && (u, |ByUser(u, df)|) !in top ==>
      forall i :: 0 <= i < |top| ==> top[i].1 >= |ByUser(u, df)|
  {
    MostCommonCut(UserColumn(df), Some(5));
    forall u | u in UserColumn(df) && (u, |ByUser(u, df)|) !in top
      ensures forall i :: 0 <= i < |top| ==> top[i].1 >= |ByUser(u, df)|
    {
      ByUserCount(u, df);
    }
  }

  /** One share per sender, each the sender's count over the number of rows times one
      hundred, adding up to one hundred. */
  lemma UserSharesFacts(df: seq<Record>)
    ensures |UserShares(df)| == |Distinct(UserColumn(df))|
    ensures forall i :: 0 <= i < |UserShares(df)| ==>
      UserShares(df)[i].percent == (|ByUser(UserShares(df)[i].name, df)| as real / |df| as real) * 100.0
    ensures forall i, j :: 0 <= i < j < |UserShares(df)| ==> UserShares(df)[i].name != UserShares(df)[j].name
    ensures forall i :: 0 <= i < |df| ==> HasShare(UserShares(df), df[i].user)
    ensures df != [] ==> SumPercent(UserShares(df)) == 100.0
  {
    var users := UserColumn(df);
    var vc := MostCommon(users, None);
    MostCommonFacts(users, None);
    MostCommonAll(users);
    if df != [] {
      assert UserShares(df) == SharesOf(vc, |df|);
      SharesPercent(df, vc);
      SharesCover(df, users, vc);
      SharesTotal(vc, |df|);
    }
  }

  lemma SharesPercent(df: seq<Record>, vc: seq<(string, nat)>)
    requires df != []
    requires forall i :: 0 <= i < |vc| ==> vc[i].1 == Count(UserColumn(df), vc[i].0)
    ensures forall i :: 0 <= i < |vc| ==>
      SharesOf(vc, |df|)[i].percent == (|ByUser(SharesOf(vc, |df|)[i].name, df)| as real / |df| as real) * 100.0
  {
    forall i | 0 <= i < |vc|
      ensures SharesOf(vc, |df|)[i].percent == (|ByUser(vc[i].0, df)| as real / |df| as real) * 100.0
    {
      ByUserCount(vc[i].0, df);
    }
  }

  lemma SharesCover(df: seq<Record>, users: seq<string>, vc: seq<(string, nat)>)
    requires df != [] && users == UserColumn(df)
    requires forall x :: x in users ==> (x, Count(users, x)) in vc
    ensures forall i :: 0 <= i < |df| ==> HasShare(SharesOf(vc, |df|), df[i].user)
  {
    var sh := SharesOf(vc, |df|);
    forall i | 0 <= i < |df|
      ensures HasShare(sh, df[i].user)
    {
      assert users[i] in users;
      var k :| 0 <= k < |vc| && vc[k] == (users[i], Count(users, users[i]));
      assert sh[k].name == df[i].user;
    }
  }

  lemma SharesTotal(vc: seq<(string, nat)>, n: nat)
    requires n > 0 && SumCounts(vc) == n
    ensures SumPercent(SharesOf(vc, n)) == 100.0
  {
    SharesSum(vc, n);
    WholeShare(n as real);
  }

  lemma WholeShare(m: real)
    requires m > 0.0
    ensures (m / m) * 100.0 == 100.0
  {
  }

  // ---------------------------------------------------------------------------
  // most_common_words and the word cloud

  /** A row the word queries read: neither a system notice nor a media placeholder. */
  predicate Eligible(r: Record) {
    r.user != GroupNotification && r.message != MediaOmitted
  }

  /** The selected rows that are neither notices nor media placeholders. */
  function WordRows(selected: string, df: seq<Record>): seq<Record> {
    Filter(FilterUser(selected, df), Eligible)
  }

  /** The tokens of a message that the word queries keep: `msg.lower().split()` without the
      stop words, in order. */
  function CleanWords(m: string, stop: set<string>): seq<string> {
    Filter(Split(Lower(m)), (w: string) => w !in stop)
  }

  /** The cleaned tokens of the messages `ms`, message after message. */
  function CandidateWords(ms: seq<string>, stop: set<string>): seq<string>
    decreases |ms|
  {
    if ms == [] then [] else CleanWords(ms[0], stop) + CandidateWords(ms[1..], stop)
  }

  /** The words `most_common_words` counts for the selected user. */
  function WordCandidates(selected: string, df: seq<Record>, stop: set<string>): seq<string> {
    CandidateWords(MessageColumn(WordRows(selected, df)), stop)
  }

  /** `most_common_words(selected_user, df)`: `Counter(words).most_common(20)`. */
  function MostCommonWords(selected: string, df: seq<Record>, stop: set<string>): seq<(string, nat)> {
    MostCommon(WordCandidates(selected, df, stop), Some(20))
  }

  /** A kept token is a `split()` token of the lowered message, has no upper-case letter and
      is not a stop word. */
  lemma CleanWordsFacts(m: string, stop: set<string>)
    ensures forall k :: 0 <= k < |CleanWords(m, stop)| ==>
      (IsWord(CleanWords(m, stop)[k]) && CleanWords(m, stop)[k] !in stop
       && Lower(CleanWords(m, stop)[k]) == CleanWords(m, stop)[k])
  {
    var lm := Lower(m);
    var ws := Split(lm);
    var kept := CleanWords(m, stop);
    FilterWithin(ws, (w: string) => w !in stop);
    SplitChars(lm);
    forall k | 0 <= k < |kept|
      ensures IsWord(kept[k]) && Lower(kept[k]) == kept[k]
    {
      var i :| 0 <= i < |ws| && ws[i] == kept[k];
      forall c | c in kept[k]
        ensures !IsUpperAscii(c)
      {
        var j :| 0 <= j < |kept[k]| && kept[k][j] == c;
        assert ws[i][j] in lm;
      }
      LowerOfLower(kept[k]);
    }
  }

  lemma {:induction false} CandidateWordsFacts(ms: seq<string>, stop: set<string>)
    ensures forall k :: 0 <= k < |CandidateWords(ms, stop)| ==>
      (IsWord(CandidateWords(ms, stop)[k]) && CandidateWords(ms, stop)[k] !in stop
       && Lower(CandidateWords(ms, stop)[k]) == CandidateWords(ms, stop)[k])
    decreases |ms|
  {
    if ms != [] {
      CleanWordsFacts(ms[0], stop);
      CandidateWordsFacts(ms[1..], stop);
    }
  }

  lemma {:induction false} CandidateWordsAppend(a: seq<string>, b: seq<string>, stop: set<string>)
    ensures CandidateWords(a + b, stop) == CandidateWords(a, stop) + CandidateWords(b, stop)
    decreases |a|
  {
    if a == [] {
      assert a + b == b;
    } else {
      assert (a + b)[0] == a[0] && (a + b)[1..] == a[1..] + b;
      CandidateWordsAppend(a[1..], b, stop);
    }
  }

  /** What `most_common_words` returns: twenty entries, or every candidate word when there
      are fewer, each a lower-case token that is not a stop word, with its exact count among
      the candidate words, no word twice, counts never increasing, equal counts in the order
      the words are first met, and no word left out that occurs more often than one listed. */
  lemma MostCommonWordsFacts(selected: string, df: seq<Record>, stop: set<string>)
    ensures |MostCommonWords(selected, df, stop)| <= 20
    ensures |MostCommonWords(selected, df, stop)| ==
      if 20 < |Distinct(WordCandidates(selected, df, stop))| then 20
      else |Distinct(WordCandidates(selected, df, stop))|
    ensures forall i :: 0 <= i < |MostCommonWords(selected, df, stop)| ==>
      (MostCommonWords(selected, df, stop)[i].0 in WordCandidates(selected, df, stop)
       && IsWord(MostCommonWords(selected, df, stop)[i].0)
       && MostCommonWords(selected, df, stop)[i].0 !in stop
       && Lower(MostCommonWords(selected, df, stop)[i].0) == MostCommonWords(selected, df, stop)[i].0
       && MostCommonWords(selected, df, stop)[i].1 ==
            Count(WordCandidates(selected, df, stop), MostCommonWords(selected, df, stop)[i].0) > 0)
    ensures forall i, j :: 0 <= i < j < |MostCommonWords(selected, df, stop)| ==>
      (MostCommonWords(selected, df, stop)[i].0 != MostCommonWords(selected, df, stop)[j].0
       && MostCommonWords(selected, df, stop)[i].1 >= MostCommonWords(selected, df, stop)[j].1
       && (MostCommonWords(selected, df, stop)[i].1 == MostCommonWords(selected, df, stop)[j].1 ==>
             FirstIndex(WordCandidates(selected, df, stop), MostCommonWords(selected, df, stop)[i].0)
             < FirstIndex(WordCandidates(selected, df, stop), MostCommonWords(selected, df, stop)[j].0)))
    ensures forall w :: (w in WordCandidates(selected, df, stop)
      && (w, Count(WordCandidates(selected, df, stop), w)) !in MostCommonWords(selected, df, stop)) ==>
      forall i :: 0 <= i < |MostCommonWords(selected, df, stop)| ==>
        MostCommonWords(selected, df, stop)[i].1 >= Count(WordCandidates(selected, df, stop), w)
  {
    var ws := WordCandidates(selected, df, stop);
    CandidateWordsFacts(MessageColumn(WordRows(selected, df)), stop);
    assert forall w :: w in ws ==> IsWord(w) && w !in stop && Lower(w) == w;
    TopWords(ws, stop, MostCommonWords(selected, df, stop));
  }

  lemma TopWords(ws: seq<string>, stop: set<string>, r: seq<(string, nat)>)
    requires forall w :: w in ws ==> IsWord(w) && w !in stop && Lower(w) == w
    requires r == MostCommon(ws, Some(20))
    ensures |r| <= 20
    ensures |r| == if 20 < |Distinct(ws)| then 20 else |Distinct(ws)|
    ensures forall i :: 0 <= i < |r| ==>
      r[i].0 in ws && IsWord(r[i].0) && r[i].0 !in stop && Lower(r[i].0) == r[i].0 && r[i].1 == Count(ws, r[i].0) > 0
    ensures forall i, j :: 0 <= i < j < |r| ==>
      r[i].0 != r[j].0 && r[i].1 >= r[j].1 && (r[i].1 == r[j].1 ==> FirstIndex(ws, r[i].0) < FirstIndex(ws, r[j].0))
    ensures forall w :: w in ws && (w, Count(ws, w)) !in r ==> forall i :: 0 <= i < |r| ==> r[i].1 >= Count(ws, w)
  {
    MostCommonFacts(ws, Some(20));
    MostCommonCut(ws, Some(20));
  }

  /** Notices and media placeholders never reach the word counts: adding such a row to the
      table changes neither the candidate words nor the word cloud. */
  lemma NoticesIgnored(selected: string, df: seq<Record>, r: Record, stop: set<string>)
    requires !Eligible(r)
    ensures WordCandidates(selected, df + [r], stop) == WordCandidates(selected, df, stop)
    ensures WordRows(selected, df + [r]) == WordRows(selected, df)
  {
    NoticeRowsIgnored(selected, df, r);
  }

  /** Adding a notice or a media placeholder leaves the rows the word queries read as they were. */
  lemma NoticeRowsIgnored(selected: string, df: seq<Record>, r: Record)
    requires !Eligible(r)
    ensures WordRows(selected, df + [r]) == WordRows(selected, df)
  {
    var f := FilterUser(selected, df);
    FilterUserAppend(selected, df, [r]);
    FilterUserOne(selected, r);
    FilterAppend(f, FilterUser(selected, [r]), Eligible);
    FilterOne(r, Eligible);
    assert Filter(FilterUser(selected, [r]), Eligible) == [];
    assert Filter(f, Eligible) + [] == Filter(f, Eligible);
  }

  /** `temp['message'].apply(...)`: each message replaced by its kept tokens joined by
      single spaces. */
  function CleanedMessages(ms: seq<string>, stop: set<string>): seq<string>
    decreases |ms|
  {
    if ms == [] then [] else [Join(CleanWords(ms[0], stop), " ")] + CleanedMessages(ms[1..], stop)
  }

  /** The text `create_wordcloud` hands to `WordCloud.generate`:
      `temp['message'].str.cat(sep=" ")`. */
  function WordCloudText(selected: string, df: seq<Record>, stop: set<string>): string {
    Join(CleanedMessages(MessageColumn(WordRows(selected, df)), stop), " ")
  }

  /** The cleaned messages hold, in order, exactly the candidate words. */
  lemma {:induction false} CleanedMessagesWords(ms: seq<string>, stop: set<string>)
    ensures WordsOf(CleanedMessages(ms, stop)) == CandidateWords(ms, stop)
    decreases |ms|
  {
    if ms != [] {
      var ws := CleanWords(ms[0], stop);
      CleanWordsFacts(ms[0], stop);
      SplitJoinWords(ws);
      CleanedMessagesWords(ms[1..], stop);
    }
  }

  /** The word cloud is drawn from the same words `most_common_words` counts: split on
      whitespace, the cloud text gives back the candidate words in order. */
  lemma WordCloudWords(selected: string, df: seq<Record>, stop: set<string>)
    ensures Split(WordCloudText(selected, df, stop)) == WordCandidates(selected, df, stop)
  {
    var ms := MessageColumn(WordRows(selected, df));
    SplitJoin(CleanedMessages(ms, stop));
    CleanedMessagesWords(ms, stop);
  }

  // ---------------------------------------------------------------------------
  // emoji_helper

  /** `[c for m in ms for c in m if c in emoji.EMOJI_DATA]`, with the emoji table given as
      a predicate on characters. */
  function EmojisOf(ms: seq<string>, isEmoji: char -> bool): seq<char>
    decreases |ms|
  {
    if ms == [] then [] else Filter(ms[0], isEmoji) + EmojisOf(ms[1..], isEmoji)
  }

  /** `emoji_helper(selected_user, df)`: `Counter(emojis).most_common()`. */
  function EmojiHelper(selected: string, df: seq<Record>, isEmoji: char -> bool): seq<(char, nat)> {
    MostCommon(EmojisOf(MessageColumn(FilterUser(selected, df)), isEmoji), None)
  }

  lemma {:induction false} EmojisOfFacts(ms: seq<string>, isEmoji: char -> bool)
    ensures forall k :: 0 <= k < |EmojisOf(ms, isEmoji)| ==> isEmoji(EmojisOf(ms, isEmoji)[k])
    decreases |ms|
  {
    if ms != [] {
      EmojisOfFacts(ms[1..], isEmoji);
    }
  }

  lemma {:induction false} EmojisOfAppend(a: seq<string>, b: seq<string>, isEmoji: char -> bool)
    ensures EmojisOf(a + b, isEmoji) == EmojisOf(a, isEmoji) + EmojisOf(b, isEmoji)
    decreases |a|
  {
    if a == [] {
      assert a + b == b;
    } else {
      assert (a + b)[0] == a[0] && (a + b)[1..] == a[1..] + b;
      EmojisOfAppend(a[1..], b, isEmoji);
    }
  }

  /** The emojis of one message are its characters that are emojis, in order. */
  lemma EmojisOfOne(m: string, isEmoji: char -> bool)
    ensures EmojisOf([m], isEmoji) == Filter(m, isEmoji)
  {
    assert [m][1..] == [];
  }

  /** What `emoji_helper` returns: every emoji occurring in the selected messages once, with
      its exact number of occurrences, counts never increasing, equal counts in the order the
      emojis are first met, and counts adding up to the number of emoji occurrences. */
  lemma EmojiHelperFacts(selected: string, df: seq<Record>, isEmoji: char -> bool)
    ensures forall i :: 0 <= i < |EmojiHelper(selected, df, isEmoji)| ==>
      EmojiHelper(selected, df, isEmoji)[i].0 in EmojisOf(MessageColumn(FilterUser(selected, df)), isEmoji)
      && isEmoji(EmojiHelper(selected, df, isEmoji)[i].0)
      && EmojiHelper(selected, df, isEmoji)[i].1 ==
           Count(EmojisOf(MessageColumn(FilterUser(selected, df)), isEmoji), EmojiHelper(selected, df, isEmoji)[i].0) > 0
    ensures forall i, j :: 0 <= i < j < |EmojiHelper(selected, df, isEmoji)| ==>
      EmojiHelper(selected, df, isEmoji)[i].0 != EmojiHelper(selected, df, isEmoji)[j].0
      && EmojiHelper(selected, df, isEmoji)[i].1 >= EmojiHelper(selected, df, isEmoji)[j].1
      && (EmojiHelper(selected, df, isEmoji)[i].1 == EmojiHelper(selected, df, isEmoji)[j].1 ==>
            FirstIndex(EmojisOf(MessageColumn(FilterUser(selected, df)), isEmoji), EmojiHelper(selected, df, isEmoji)[i].0)
            < FirstIndex(EmojisOf(MessageColumn(FilterUser(selected, df)), isEmoji), EmojiHelper(selected, df, isEmoji)[j].0))
    ensures forall e :: e in EmojisOf(MessageColumn(FilterUser(selected, df)), isEmoji) ==>
      (e, Count(EmojisOf(MessageColumn(FilterUser(selected, df)), isEmoji), e)) in EmojiHelper(selected, df, isEmoji)
    ensures SumCounts(EmojiHelper(selected, df, isEmoji)) == |EmojisOf(MessageColumn(FilterUser(selected, df)), isEmoji)|
  {
    var es := EmojisOf(MessageColumn(FilterUser(selected, df)), isEmoji);
    EmojisOfFacts(MessageColumn(FilterUser(selected, df)), isEmoji);
    EmojiTable(es, EmojiHelper(selected, df, isEmoji), isEmoji);
  }

  /** The emoji count table of a sequence of emoji. */
  lemma EmojiTable(es: seq<char>, r: seq<(char, nat)>, isEmoji: char -> bool)
    requires forall i :: 0 <= i < |es| ==> isEmoji(es[i])
    requires r == MostCommon(es, None)
    ensures forall i :: 0 <= i < |r| ==> r[i].0 in es && isEmoji(r[i].0) && r[i].1 == Count(es, r[i].0) > 0
    ensures forall i, j :: 0 <= i < j < |r| ==>
      r[i].0 != r[j].0 && r[i].1 >= r[j].1 && (r[i].1 == r[j].1 ==> FirstIndex(es, r[i].0) < FirstIndex(es, r[j].0))
    ensures forall e :: e in es ==> (e, Count(es, e)) in r
    ensures SumCounts(r) == |es|
  {
    MostCommonTable(es, r);
    MostCommonFacts(es, None);
  }

  // ---------------------------------------------------------------------------
  // monthly_timeline and daily_timeline

  /** The grouping key of `monthly_timeline`: `['year', 'month_num', 'month']`. */
  datatype MonthKey = MonthKey(year: int, monthNum: int, month: string)

  /** The order `groupby` sorts the keys in: by year, then month number, then month name. */
  predicate MonthBefore(a: MonthKey, b: MonthKey) {
    a.year < b.year || (a.year == b.year && (a.monthNum < b.monthNum || (a.monthNum == b.monthNum && LexLess(a.month, b.month))))
  }

  function MonthKeys(d: seq<Record>): (ks: seq<MonthKey>)
    ensures |ks| == |d| && forall i :: 0 <= i < |d| ==> ks[i] == MonthKey(d[i].year, d[i].monthNum, d[i].month)
  {
    seq(|d|, i requires 0 <= i < |d| => MonthKey(d[i].year, d[i].monthNum, d[i].month))
  }

  /** One row of the monthly timeline: the key, its number of messages and the label
      `month + "-" + str(year)`. */
  datatype MonthEntry = MonthEntry(year: int, monthNum: int, month: string, message: nat, time: string)

  function MonthLabel(month: string, year: int): string {
    month + "-" + IntToString(year)
  }

  function MonthEntries(g: seq<(MonthKey, nat)>): (t: seq<MonthEntry>)
    ensures |t| == |g|
    ensures forall i :: 0 <= i < |g| ==>
      t[i] == MonthEntry(g[i].0.year, g[i].0.monthNum, g[i].0.month, g[i].1, MonthLabel(g[i].0.month, g[i].0.year))
  {
    seq(|g|, i requires 0 <= i < |g| =>
      MonthEntry(g[i].0.year, g[i].0.monthNum, g[i].0.month, g[i].1, MonthLabel(g[i].0.month, g[i].0.year)))
  }

  /** `monthly_timeline(selected_user, df)`. */
  function MonthlyTimeline(selected: string, df: seq<Record>): seq<MonthEntry> {
    MonthEntries(Grouped(MonthKeys(FilterUser(selected, df)), MonthBefore))
  }

  function SumMessages(t: seq<MonthEntry>): nat
    decreases |t|
  {
    if t == [] then 0 else SumMessages(t[..|t| - 1]) + t[|t| - 1].message
  }

  lemma {:induction false} SumMessagesEntries(g: seq<(MonthKey, nat)>)
    ensures SumMessages(MonthEntries(g)) == SumCounts(g)
    decreases |g|
  {
    if g != [] {
      assert MonthEntries(g)[..|g| - 1] == MonthEntries(g[..|g| - 1]);
      SumMessagesEntries(g[..|g| - 1]);
    }
  }

  /** The month order is a strict total order. */
  lemma MonthBeforeStrict(ks: seq<MonthKey>)
    ensures StrictTotalOn(MonthBefore, ks)
  {
    forall a, b | MonthBefore(a, b)
      ensures !MonthBefore(b, a)
    {
      if a.year == b.year && a.monthNum == b.monthNum && LexLess(b.month, a.month) {
        LexLessTransitive(a.month, b.month, a.month);
        LexLessIrreflexive(a.month);
      }
    }
    forall a, b, c | MonthBefore(a, b) && MonthBefore(b, c)
      ensures MonthBefore(a, c)
    {
      if a.year == b.year == c.year && a.monthNum == b.monthNum == c.monthNum {
        LexLessTransitive(a.month, b.month, c.month);
      }
    }
    forall a, b | a != b
      ensures MonthBefore(a, b) || MonthBefore(b, a)
    {
      LexLessTotal(a.month, b.month);
    }
  }

  /** The timeline has an entry for the month of year `y`, number `mn` and name `m`. */
  predicate HasMonth(t: seq<MonthEntry>, y: int, mn: int, m: string) {
    exists k :: 0 <= k < |t| && t[k].year == y && t[k].monthNum == mn && t[k].month == m
  }

  /** What `monthly_timeline` returns: every month that has a selected message, once, in
      increasing order, with its exact number of messages and its label; the numbers add
      up to the number of selected messages. */
  lemma MonthlyTimelineFacts(selected: string, df: seq<Record>)
    ensures |MonthlyTimeline(selected, df)| == |Distinct(MonthKeys(FilterUser(selected, df)))|
    ensures forall i :: 0 <= i < |MonthlyTimeline(selected, df)| ==>
      MonthlyTimeline(selected, df)[i].message == Count(MonthKeys(FilterUser(selected, df)),
        MonthKey(MonthlyTimeline(selected, df)[i].year, MonthlyTimeline(selected, df)[i].monthNum, MonthlyTimeline(selected, df)[i].month)) > 0
      && MonthlyTimeline(selected, df)[i].time == MonthLabel(MonthlyTimeline(selected, df)[i].month, MonthlyTimeline(selected, df)[i].year)
    ensures forall i, j :: 0 <= i < j < |MonthlyTimeline(selected, df)| ==>
      MonthBefore(MonthKey(MonthlyTimeline(selected, df)[i].year, MonthlyTimeline(selected, df)[i].monthNum, MonthlyTimeline(selected, df)[i].month),
                  MonthKey(MonthlyTimeline(selected, df)[j].year, MonthlyTimeline(selected, df)[j].monthNum, MonthlyTimeline(selected, df)[j].month))
    ensures forall i :: 0 <= i < |FilterUser(selected, df)| ==>
      HasMonth(MonthlyTimeline(selected, df), FilterUser(selected, df)[i].year, FilterUser(selected, df)[i].monthNum, FilterUser(selected, df)[i].month)
    ensures SumMessages(MonthlyTimeline(selected, df)) == |FilterUser(selected, df)|
  {
    var d := FilterUser(selected, df);
    var ks := MonthKeys(d);
    TimelineEntries(ks, Grouped(ks, MonthBefore), MonthlyTimeline(selected, df));
    TimelineCover(d, ks, Grouped(ks, MonthBefore), MonthlyTimeline(selected, df));
  }

  /** The entries of a timeline built from the month keys `ks`: one per distinct key, with
      its count and label, in increasing month order. */
  lemma TimelineEntries(ks: seq<MonthKey>, g: seq<(MonthKey, nat)>, t: seq<MonthEntry>)
    requires g == Grouped(ks, MonthBefore) && t == MonthEntries(g)
    ensures |t| == |Distinct(ks)|
    ensures forall i :: 0 <= i < |t| ==>
      t[i].message == Count(ks, MonthKey(t[i].year, t[i].monthNum, t[i].month)) > 0
      && t[i].time == MonthLabel(t[i].month, t[i].year)
    ensures forall i, j :: 0 <= i < j < |t| ==>
      MonthBefore(MonthKey(t[i].year, t[i].monthNum, t[i].month), MonthKey(t[j].year, t[j].monthNum, t[j].month))
  {
    GroupedMonths(ks, g);
    EntryCounts(ks, g, t);
  }

  /** A timeline built from the month keys of `d` lists the month of every row of `d`, and
      its numbers add up to the number of rows. */
  lemma TimelineCover(d: seq<Record>, ks: seq<MonthKey>, g: seq<(MonthKey, nat)>, t: seq<MonthEntry>)
    requires ks == MonthKeys(d) && g == Grouped(ks, MonthBefore) && t == MonthEntries(g)
    ensures forall i :: 0 <= i < |d| ==> HasMonth(t, d[i].year, d[i].monthNum, d[i].month)
    ensures SumMessages(t) == |d|
  {
    GroupedMonths(ks, g);
    SumMessagesEntries(g);
    EntryCover(ks, g, t);
  }

  lemma GroupedMonths(ks: seq<MonthKey>, g: seq<(MonthKey, nat)>)
    requires g == Grouped(ks, MonthBefore)
    ensures |g| == |Distinct(ks)|
    ensures forall i :: 0 <= i < |g| ==> g[i].0 in ks && g[i].1 == Count(ks, g[i].0)
    ensures forall i, j :: 0 <= i < j < |g| ==> MonthBefore(g[i].0, g[j].0)
    ensures forall k :: k in ks ==> (k, Count(ks, k)) in g
    ensures SumCounts(g) == |ks|
  {
    MonthBeforeStrict(ks);
    GroupedFacts(ks, MonthBefore);
  }

  lemma EntryCounts(ks: seq<MonthKey>, g: seq<(MonthKey, nat)>, t: seq<MonthEntry>)
    requires t == MonthEntries(g)
    requires forall i :: 0 <= i < |g| ==> g[i].0 in ks && g[i].1 == Count(ks, g[i].0)
    ensures forall i :: 0 <= i < |t| ==>
      t[i].message == Count(ks, MonthKey(t[i].year, t[i].monthNum, t[i].month)) > 0
  {
    forall i | 0 <= i < |t|
      ensures t[i].message == Count(ks, MonthKey(t[i].year, t[i].monthNum, t[i].month)) > 0
    {
      assert MonthKey(t[i].year, t[i].monthNum, t[i].month) == g[i].0;
    }
  }

  lemma EntryCover(ks: seq<MonthKey>, g: seq<(MonthKey, nat)>, t: seq<MonthEntry>)
    requires forall k :: k in ks ==> (k, Count(ks, k)) in g
    requires t == MonthEntries(g)
    ensures forall i :: 0 <= i < |ks| ==> HasMonth(t, ks[i].year, ks[i].monthNum, ks[i].month)
  {
    forall i | 0 <= i < |ks|
      ensures HasMonth(t, ks[i].year, ks[i].monthNum, ks[i].month)
    {
      KeyListed(ks, g, t, ks[i]);
    }
  }

  lemma KeyListed(ks: seq<MonthKey>, g: seq<(MonthKey, nat)>, t: seq<MonthEntry>, key: MonthKey)
    requires key in ks && (key, Count(ks, key)) in g
    requires t == MonthEntries(g)
    ensures HasMonth(t, key.year, key.monthNum, key.month)
  {
    var k :| 0 <= k < |g| && g[k] == (key, Count(ks, key));
    assert t[k].year == key.year && t[k].monthNum == key.monthNum && t[k].month == key.month;
  }

  /** Every row of the table satisfies `WellFormed`, as every row `preprocess` returns
      does. */
  predicate AllWellFormed(df: seq<Record>) {
    forall i :: 0 <= i < |df| ==> WellFormed(df[i])
  }

  lemma FilterUserWellFormed(selected: string, df: seq<Record>)
    requires AllWellFormed(df)
    ensures AllWellFormed(FilterUser(selected, df))
  {
    FilterWithin(df, (r: Record) => r.user == selected);
  }

  /** A month label splits at its first dash into the month name and the year. */
  lemma MonthLabelParts(m: int, y: int)
    requires 1 <= m <= 12 && y >= 0
    ensures IndexOf(MonthLabel(MonthName(m), y), '-') == |MonthName(m)|
    ensures MonthLabel(MonthName(m), y)[..|MonthName(m)|] == MonthName(m)
    ensures MonthLabel(MonthName(m), y)[|MonthName(m)| + 1..] == IntToString(y)
  {
    var a, b := MonthName(m), IntToString(y);
    assert MonthLabel(a, y) == a + ("-" + b);
    assert '-' !in a;
    IndexOfAfter(a, "-" + b, '-');
  }

  /** Different months of well-formed rows get different labels. */
  lemma MonthLabelInjective(m1: int, y1: int, m2: int, y2: int)
    requires 1 <= m1 <= 12 && y1 >= 0 && 1 <= m2 <= 12 && y2 >= 0
    ensures MonthLabel(MonthName(m1), y1) == MonthLabel(MonthName(m2), y2) <==> m1 == m2 && y1 == y2
  {
    if MonthLabel(MonthName(m1), y1) == MonthLabel(MonthName(m2), y2) {
      MonthLabelParts(m1, y1);
      MonthLabelParts(m2, y2);
      MonthNameInjective(m1, m2);
    }
  }

  /** The month key of a row of a well-formed table has a real month whose name it
      carries. */
  lemma WellFormedMonthKey(d: seq<Record>, ks: seq<MonthKey>, key: MonthKey)
    requires AllWellFormed(d) && ks == MonthKeys(d) && key in ks
    ensures 1 <= key.monthNum <= 12 && key.month == MonthName(key.monthNum) && 1969 <= key.year <= 2068
  {
    var p :| 0 <= p < |ks| && ks[p] == key;
    assert WellFormed(d[p]);
  }

  /** On a table `preprocess` built, the monthly timeline runs chronologically, one entry
      per calendar month, each labelled with its month's name and year, and no two entries
      share a label. */
  lemma MonthlyTimelineChronological(selected: string, df: seq<Record>)
    requires AllWellFormed(df)
    ensures forall i :: 0 <= i < |MonthlyTimeline(selected, df)| ==>
      1 <= MonthlyTimeline(selected, df)[i].monthNum <= 12
      && MonthlyTimeline(selected, df)[i].month == MonthName(MonthlyTimeline(selected, df)[i].monthNum)
    ensures forall i, j :: 0 <= i < j < |MonthlyTimeline(selected, df)| ==>
      (MonthlyTimeline(selected, df)[i].year < MonthlyTimeline(selected, df)[j].year
       || (MonthlyTimeline(selected, df)[i].year == MonthlyTimeline(selected, df)[j].year
           && MonthlyTimeline(selected, df)[i].monthNum < MonthlyTimeline(selected, df)[j].monthNum))
      && MonthlyTimeline(selected, df)[i].time != MonthlyTimeline(selected, df)[j].time
  {
    var d := FilterUser(selected, df);
    FilterUserWellFormed(selected, df);
    ChronologicalEntries(d, MonthKeys(d), Grouped(MonthKeys(d), MonthBefore), MonthlyTimeline(selected, df));
  }

  lemma ChronologicalEntries(d: seq<Record>, ks: seq<MonthKey>, g: seq<(MonthKey, nat)>, t: seq<MonthEntry>)
    requires AllWellFormed(d) && ks == MonthKeys(d) && g == Grouped(ks, MonthBefore) && t == MonthEntries(g)
    ensures forall i :: 0 <= i < |t| ==> 1 <= t[i].monthNum <= 12 && t[i].month == MonthName(t[i].monthNum)
    ensures forall i, j :: 0 <= i < j < |t| ==>
      (t[i].year < t[j].year || (t[i].year == t[j].year && t[i].monthNum < t[j].monthNum)) && t[i].time != t[j].time
  {
    GroupedMonths(ks, g);
    forall i | 0 <= i < |t|
      ensures 1 <= t[i].monthNum <= 12 && t[i].month == MonthName(t[i].monthNum) && t[i].year >= 0
      ensures t[i].time == MonthLabel(t[i].month, t[i].year)
    {
      WellFormedMonthKey(d, ks, g[i].0);
    }
    forall i, j | 0 <= i < j < |t|
      ensures (t[i].year < t[j].year || (t[i].year == t[j].year && t[i].monthNum < t[j].monthNum))
      ensures t[i].time != t[j].time
    {
      assert MonthBefore(g[i].0, g[j].0);
      EntriesInOrder(t[i], t[j]);
    }
  }

  lemma EntriesInOrder(a: MonthEntry, b: MonthEntry)
    requires 1 <= a.monthNum <= 12 && a.month == MonthName(a.monthNum) && a.year >= 0
    requires 1 <= b.monthNum <= 12 && b.month == MonthName(b.monthNum) && b.year >= 0
    requires a.time == MonthLabel(a.month, a.year) && b.time == MonthLabel(b.month, b.year)
    requires MonthBefore(MonthKey(a.year, a.monthNum, a.month), MonthKey(b.year, b.monthNum, b.month))
    ensures a.year < b.year || (a.year == b.year && a.monthNum < b.monthNum)
    ensures a.time != b.time
  {
    LexLessIrreflexive(a.month);
    MonthLabelInjective(a.monthNum, a.year, b.monthNum, b.year);
  }

  function DateColumn(d: seq<Record>): (c: seq<string>)
    ensures |c| == |d| && forall i :: 0 <= i < |d| ==> c[i] == d[i].onlyDate
  {
    seq(|d|, i requires 0 <= i < |d| => d[i].onlyDate)
  }

  /** `daily_timeline(selected_user, df)`: `groupby('only_date').count()['message']`, the
      dates in the order Python sorts strings. */
  function DailyTimeline(selected: string, df: seq<Record>): seq<(string, nat)> {
    Grouped(DateColumn(FilterUser(selected, df)), LexLess)
  }

  /** The order of Python strings is a strict total order. */
  lemma LexLessStrict(xs: seq<string>)
    ensures StrictTotalOn(LexLess, xs)
  {
    forall a, b | a in xs && b in xs
      ensures LexLess(a, b) ==> !LexLess(b, a)
    {
      LexLessAsymmetric(a, b);
    }
    forall a, b, c | a in xs && b in xs && c in xs && LexLess(a, b) && LexLess(b, c)
      ensures LexLess(a, c)
    {
      LexLessTransitive(a, b, c);
    }
    forall a, b | a in xs && b in xs
      ensures a == b || LexLess(a, b) || LexLess(b, a)
    {
      LexLessTotal(a, b);
    }
  }

  /** What `daily_timeline` returns: every date that has a selected message, once, in
      increasing string order, with its exact number of messages; the numbers add up to the
      number of selected messages. */
  lemma DailyTimelineFacts(selected: string, df: seq<Record>)
    ensures |DailyTimeline(selected, df)| == |Distinct(DateColumn(FilterUser(selected, df)))|
    ensures forall i :: 0 <= i < |DailyTimeline(selected, df)| ==>
      DailyTimeline(selected, df)[i].0 in DateColumn(FilterUser(selected, df))
      && DailyTimeline(selected, df)[i].1 == Count(DateColumn(FilterUser(selected, df)), DailyTimeline(selected, df)[i].0)
    ensures forall i, j :: 0 <= i < j < |DailyTimeline(selected, df)| ==>
      LexLess(DailyTimeline(selected, df)[i].0, DailyTimeline(selected, df)[j].0)
    ensures forall k :: k in DateColumn(FilterUser(selected, df)) ==>
      (k, Count(DateColumn(FilterUser(selected, df)), k)) in DailyTimeline(selected, df)
    ensures SumCounts(DailyTimeline(selected, df)) == |FilterUser(selected, df)|
  {
    var ds := DateColumn(FilterUser(selected, df));
    LexLessStrict(ds);
    GroupedFacts(ds, LexLess);
  }

  /** On a table `preprocess` built, the daily timeline runs chronologically: every row of
      an earlier entry has an earlier date than every row of a later entry. */
  lemma DailyTimelineChronological(selected: string, df: seq<Record>)
    requires AllWellFormed(df)
    ensures forall i, j, p, q :: (0 <= i < j < |DailyTimeline(selected, df)|
      && 0 <= p < |FilterUser(selected, df)| && 0 <= q < |FilterUser(selected, df)|
      && FilterUser(selected, df)[p].onlyDate == DailyTimeline(selected, df)[i].0
      && FilterUser(selected, df)[q].onlyDate == DailyTimeline(selected, df)[j].0) ==>
      DateBefore(FilterUser(selected, df)[p].year, FilterUser(selected, df)[p].monthNum, FilterUser(selected, df)[p].day,
                 FilterUser(selected, df)[q].year, FilterUser(selected, df)[q].monthNum, FilterUser(selected, df)[q].day)
  {
    FilterUserWellFormed(selected, df);
    DailyTimelineFacts(selected, df);
    DatesInOrder(FilterUser(selected, df), DailyTimeline(selected, df));
  }

  lemma DatesInOrder(d: seq<Record>, dt: seq<(string, nat)>)
    requires AllWellFormed(d)
    requires forall i, j :: 0 <= i < j < |dt| ==> LexLess(dt[i].0, dt[j].0)
    ensures forall i, j, p, q :: (0 <= i < j < |dt| && 0 <= p < |d| && 0 <= q < |d|
      && d[p].onlyDate == dt[i].0 && d[q].onlyDate == dt[j].0) ==>
      DateBefore(d[p].year, d[p].monthNum, d[p].day, d[q].year, d[q].monthNum, d[q].day)
  {
    forall i, j, p, q | 0 <= i < j < |dt| && 0 <= p < |d| && 0 <= q < |d|
      && d[p].onlyDate == dt[i].0 && d[q].onlyDate == dt[j].0
      ensures DateBefore(d[p].year, d[p].monthNum, d[p].day, d[q].year, d[q].monthNum, d[q].day)
    {
      OnlyDateOrder(d[p], d[q]);
    }
  }

  // ---------------------------------------------------------------------------
  // week_activity_map and month_activity_map

  function DayNameColumn(d: seq<Record>): (c: seq<string>)
    ensures |c| == |d| && forall i :: 0 <= i < |d| ==> c[i] == d[i].dayName
  {
    seq(|d|, i requires 0 <= i < |d| => d[i].dayName)
  }

  function MonthColumn(d: seq<Record>): (c: seq<string>)
    ensures |c| == |d| && forall i :: 0 <= i < |d| ==> c[i] == d[i].month
  {
    seq(|d|, i requires 0 <= i < |d| => d[i].month)
  }

  /** `week_activity_map(selected_user, df)`: `df['day_name'].value_counts()` of the
      selected rows. */
  function WeekActivityMap(selected: string, df: seq<Record>): seq<(string, nat)> {
    DayCounts(FilterUser(selected, df))
  }

  function DayCounts(d: seq<Record>): seq<(string, nat)> {
    MostCommon(DayNameColumn(d), None)
  }

  /** `month_activity_map(selected_user, df)`: `df['month'].value_counts()` of the selected
      rows. */
  function MonthActivityMap(selected: string, df: seq<Record>): seq<(string, nat)> {
    MonthCounts(FilterUser(selected, df))
  }

  function MonthCounts(d: seq<Record>): seq<(string, nat)> {
    MostCommon(MonthColumn(d), None)
  }

  /** What `week_activity_map` returns for the selected rows `d`: every weekday that has a
      row, once, with its exact number of rows, counts never increasing and adding up to the
      number of rows. */
  lemma DayCountsFacts(d: seq<Record>)
    ensures forall i :: 0 <= i < |DayCounts(d)| ==> DayCounts(d)[i].1 == Count(DayNameColumn(d), DayCounts(d)[i].0) > 0
    ensures forall i, j :: 0 <= i < j < |DayCounts(d)| ==>
      DayCounts(d)[i].0 != DayCounts(d)[j].0 && DayCounts(d)[i].1 >= DayCounts(d)[j].1
    ensures forall x :: x in DayNameColumn(d) ==> (x, Count(DayNameColumn(d), x)) in DayCounts(d)
    ensures SumCounts(DayCounts(d)) == |d|
  {
    ValueCounts(DayNameColumn(d), DayCounts(d));
  }

  /** On rows `preprocess` built, only weekday names appear. */
  lemma DayCountsNames(d: seq<Record>)
    requires AllWellFormed(d)
    ensures forall i :: 0 <= i < |DayCounts(d)| ==> DayCounts(d)[i].0 in DayNames
  {
    WellFormedNames(d);
    ValueNames(DayNameColumn(d), DayCounts(d), DayNames);
  }

  /** What `month_activity_map` returns for the selected rows `d`: every month that has a
      row, once, with its exact number of rows, counts never increasing and adding up to the
      number of rows. */
  lemma MonthCountsFacts(d: seq<Record>)
    ensures forall i :: 0 <= i < |MonthCounts(d)| ==> MonthCounts(d)[i].1 == Count(MonthColumn(d), MonthCounts(d)[i].0) > 0
    ensures forall i, j :: 0 <= i < j < |MonthCounts(d)| ==>
      MonthCounts(d)[i].0 != MonthCounts(d)[j].0 && MonthCounts(d)[i].1 >= MonthCounts(d)[j].1
    ensures forall x :: x in MonthColumn(d) ==> (x, Count(MonthColumn(d), x)) in MonthCounts(d)
    ensures SumCounts(MonthCounts(d)) == |d|
  {
    ValueCounts(MonthColumn(d), MonthCounts(d));
  }

  /** On rows `preprocess` built, only month names appear. */
  lemma MonthCountsNames(d: seq<Record>)
    requires AllWellFormed(d)
    ensures forall i :: 0 <= i < |MonthCounts(d)| ==> MonthCounts(d)[i].0 in MonthNames
  {
    WellFormedNames(d);
    ValueNames(MonthColumn(d), MonthCounts(d), MonthNames);
  }

  /** `value_counts()` of a column, with the column's own values. */
  lemma ValueCounts(c: seq<string>, r: seq<(string, nat)>)
    requires r == MostCommon(c, None)
    ensures forall i :: 0 <= i < |r| ==> r[i].1 == Count(c, r[i].0) > 0
    ensures forall i, j :: 0 <= i < j < |r| ==> r[i].0 != r[j].0 && r[i].1 >= r[j].1
    ensures forall x :: x in c ==> (x, Count(c, x)) in r
    ensures SumCounts(r) == |c|
  {
    MostCommonTable(c, r);
  }

  lemma ValueNames(c: seq<string>, r: seq<(string, nat)>, names: seq<string>)
    requires r == MostCommon(c, None)
    requires forall i :: 0 <= i < |c| ==> c[i] in names
    ensures forall i :: 0 <= i < |r| ==> r[i].0 in names
  {
    MostCommonTable(c, r);
  }

  /** The weekday and month columns of rows `preprocess` built hold English names. */
  lemma WellFormedNames(d: seq<Record>)
    requires AllWellFormed(d)
    ensures forall i :: 0 <= i < |d| ==> d[i].dayName in DayNames && d[i].month in MonthNames
  {
    forall i | 0 <= i < |d|
      ensures d[i].dayName in DayNames && d[i].month in MonthNames
    {
      RowNames(d[i]);
    }
  }

  lemma RowNames(r: Record)
    requires WellFormed(r)
    ensures r.dayName in DayNames && r.month in MonthNames
  {
    var w := Weekday(r.year, r.monthNum, r.day);
    assert DayNames[w] in DayNames;
    assert MonthNames[r.monthNum - 1] in MonthNames;
  }

  // ---------------------------------------------------------------------------
  // activity_heatmap

  /** The pivot table: weekday names down, hour labels across, and at each crossing the
      number of rows with that weekday and hour (zero where there are none). */
  datatype Heatmap = Heatmap(days: seq<string>, periods: seq<string>, cells: seq<seq<nat>>)

  function PeriodColumn(d: seq<Record>): (c: seq<string>)
    ensures |c| == |d| && forall i :: 0 <= i < |d| ==> c[i] == d[i].period
  {
    seq(|d|, i requires 0 <= i < |d| => d[i].period)
  }

  /** The number of rows sent on weekday `day` within the hour labelled `period`. */
  function CellCount(d: seq<Record>, day: string, period: string): nat {
    |Filter(d, (r: Record) => r.dayName == day && r.period == period)|
  }

  /** The distinct values of a column in the order `pivot_table` sorts its labels. */
  function SortedLabels(c: seq<string>): seq<string> {
    SortBy(Distinct(c), LexLess)
  }

  /** One line of the pivot table: the counts of weekday `day` in the hours `periods`. */
  function CellRow(d: seq<Record>, day: string, periods: seq<string>): (row: seq<nat>)
    ensures |row| == |periods| && forall j :: 0 <= j < |periods| ==> row[j] == CellCount(d, day, periods[j])
  {
    seq(|periods|, j requires 0 <= j < |periods| => CellCount(d, day, periods[j]))
  }

  function HeatmapOf(d: seq<Record>): (h: Heatmap)
    ensures h.days == SortedLabels(DayNameColumn(d)) && h.periods == SortedLabels(PeriodColumn(d))
    ensures |h.cells| == |h.days| && forall i :: 0 <= i < |h.days| ==> h.cells[i] == CellRow(d, h.days[i], h.periods)
  {
    var days, periods := SortedLabels(DayNameColumn(d)), SortedLabels(PeriodColumn(d));
    Heatmap(days, periods, seq(|days|, i requires 0 <= i < |days| => CellRow(d, days[i], periods)))
  }

  /** `activity_heatmap(selected_user, df)`: an empty frame when no row is selected,
      otherwise the pivot table of the selected rows. */
  function ActivityHeatmap(selected: string, df: seq<Record>): Heatmap {
    var d := FilterUser(selected, df);
    if d == [] then Heatmap([], [], []) else HeatmapOf(d)
  }

  /** The sorted labels of a column: each value of the column once, in increasing order. */
  lemma SortedLabelsFacts(c: seq<string>)
    ensures forall x :: x in SortedLabels(c) <==> x in c
    ensures forall i, j :: 0 <= i < j < |SortedLabels(c)| ==> LexLess(SortedLabels(c)[i], SortedLabels(c)[j])
    ensures |SortedLabels(c)| == |Distinct(c)|
  {
    var ds := Distinct(c);
    var r := SortedLabels(c);
    assert |r| == |multiset(r)| == |multiset(ds)| == |ds|;
    forall x
      ensures x in r <==> x in c
    {
      assert x in r <==> x in multiset(r);
      assert x in ds <==> x in multiset(ds);
      if x in c {
        var k :| 0 <= k < |c| && c[k] == x;
      }
      if x in ds {
        var k :| 0 <= k < |ds| && ds[k] == x;
      }
    }
    LexLessStrict(ds);
    SortBySorted(ds, LexLess);
  }

  /** What `activity_heatmap` returns: nothing when no row is selected; otherwise every
      weekday and every hour that has a selected row, once each and in increasing order, and
      at each crossing the number of selected rows with that weekday and hour. */
  lemma ActivityHeatmapFacts(selected: string, df: seq<Record>)
    ensures FilterUser(selected, df) == [] ==> ActivityHeatmap(selected, df) == Heatmap([], [], [])
    ensures forall x :: x in ActivityHeatmap(selected, df).days <==> x in DayNameColumn(FilterUser(selected, df))
    ensures forall x :: x in ActivityHeatmap(selected, df).periods <==> x in PeriodColumn(FilterUser(selected, df))
    ensures forall i, j :: 0 <= i < j < |ActivityHeatmap(selected, df).days| ==>
      LexLess(ActivityHeatmap(selected, df).days[i], ActivityHeatmap(selected, df).days[j])
    ensures forall i, j :: 0 <= i < j < |ActivityHeatmap(selected, df).periods| ==>
      LexLess(ActivityHeatmap(selected, df).periods[i], ActivityHeatmap(selected, df).periods[j])
    ensures |ActivityHeatmap(selected, df).cells| == |ActivityHeatmap(selected, df).days|
    ensures forall i :: 0 <= i < |ActivityHeatmap(selected, df).days| ==>
      |ActivityHeatmap(selected, df).cells[i]| == |ActivityHeatmap(selected, df).periods|
      && forall j :: 0 <= j < |ActivityHeatmap(selected, df).periods| ==>
        ActivityHeatmap(selected, df).cells[i][j] ==
          CellCount(FilterUser(selected, df), ActivityHeatmap(selected, df).days[i], ActivityHeatmap(selected, df).periods[j])
  {
    var d := FilterUser(selected, df);
    if d != [] {
      SortedLabelsFacts(DayNameColumn(d));
      SortedLabelsFacts(PeriodColumn(d));
    }
  }
}
