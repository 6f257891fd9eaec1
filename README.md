# Chat-Analyzer core in Dafny

Chat-Analyzer turns a WhatsApp chat export into a table of messages. A dashboard then
queries that table. This project models two parts of it and proves their properties:

- **`preprocess`.** The text is rejected when it is blank, or when the message pattern
  finds nothing in it. Otherwise every match of the pattern becomes a row of timestamp,
  sender and message. Each timestamp is converted under `%d/%m/%y, %H:%M` with
  `errors='coerce'`. Rows whose timestamp does not convert are dropped. The calendar
  fields are then derived from each timestamp that remains: the `YYYY-MM-DD` date, year,
  month name and number, day, weekday name, hour, minute and the `h-(h+1)` hour label.
- **The dashboard queries.** Each one starts from the same user filter: `"Overall"` keeps
  every row, and any other name keeps exactly that sender's rows. The queries are:
  - the message, word, media and link counts;
  - the five busiest senders and every sender's share;
  - the twenty most common words;
  - the emoji counts;
  - the monthly and daily timelines;
  - the weekday and month activity maps;
  - the weekday × hour heatmap;
  - the text handed to the word cloud.

The modules follow the program:

- `Text`: `str` operations (`strip`, `split`, `" ".join`, `lower`, `str(n)`, zero padding,
  string order).
- `Calendar`: the Gregorian calendar, weekdays, month and day names, `%Y-%m-%d`.
- `Reader`: reads regular expressions made of a fixed sequence of elements.
- `ChatPattern`: the message pattern and `re.findall` with it.
- `Timestamp`: `strptime` with `%d/%m/%y, %H:%M` and its `%y` century rule.
- `Preprocessor`: `preprocess`.
- `Frequency`: `Counter.most_common`, `value_counts`, sorted `groupby` counts and filters.
- `Helper`: the queries.

Both pieces are pure (the in-place column assignments of `preprocess` are a map over the
rows), so the model is made of datatypes, functions and lemmas.

**Parameters.** The external helpers are parameters of the queries:

- the URL finder is `findUrls: string -> seq<string>`;
- the emoji table is `isEmoji: char -> bool`;
- the stop words are `stop: set<string>`.

**Behaviour of the code to be aware of:**

- Twelve-hour timestamps (`2:30 PM`) match the pattern but do not convert under the
  format `%d/%m/%y, %H:%M`. Such rows are dropped (`Timestamp.RejectsMeridiem`).
- Timestamps with `.` or `-` date separators, four-digit years, or a missing comma are
  dropped too.
- The code has no notification sender of its own: every row's sender is the text after
  `" - "` up to the first `:`, which must be followed by a space (preprocessor.py:20).
  The word queries exclude the name `group_notification` (helper.py:49, helper.py:60),
  so a contact literally called that is left out of them.
- Hour labels are unpadded (`"9-10"`), and hour 23 gives `"23-24"`.
- `<Media omitted>` counts as two words in `fetch_stats` (helper.py:33).
- The code has no check of its own for an empty word list. `WordCloud.generate`
  (helper.py:53), which is not modelled, raises on an empty text. The model builds the
  joined text only, so it has no error case there.
- `most_busy_users` takes no selected user and always counts the whole table
  (helper.py:39-43).

## Model

| member | source | states |
|---|---|---|
| Preprocessor.Preprocess | preprocessor.py:4-58 | blank input gives exactly the empty-file error; non-blank input without matches gives exactly the no-messages error; otherwise at most one row per match, every row well formed |
| Preprocessor.BlankRejected | preprocessor.py:16-17 | whitespace-only input is rejected with the empty-file error and no rows |
| Preprocessor.Converted | preprocessor.py:33 | a converted timestamp is a valid date and time in 1969..2068; sender and message are the match's groups |
| Preprocessor.DropNa | preprocessor.py:39 | `dropna` keeps at most the rows it is given and only rows whose timestamp converted; kept timestamps stay in range |
| Preprocessor.KeptRows | preprocessor.py:39 | row k after `dropna` is row `Kept[k]` before it; those positions strictly increase; every converted row is kept |
| Preprocessor.Derive | preprocessor.py:43-56 | each row keeps its timestamp, sender and message and its derived columns are well formed |
| Preprocessor.Messages | preprocessor.py:29-56 | the table has one row per kept match, at most one per match |
| Preprocessor.TableRows | preprocessor.py:20-39 | each row comes from a found match whose text is the row's timestamp, sender and message, strictly written and naming the row's date and time; rows keep the order of their matches without overlap |
| Preprocessor.MessageSource | preprocessor.py:23-39 | row k comes from its kept match as in `TableRows` |
| Preprocessor.KeptExactly | preprocessor.py:33-39 | a match is kept if and only if its timestamp is written strictly as `%d/%m/%y, %H:%M` and names an existing date and time |
| Preprocessor.RowsSplitAtFirstColon | preprocessor.py:20 | the sender is non-empty and has no colon; the message is non-empty and has no newline; they split at the first colon after ` - ` |
| Preprocessor.RecordWellFormed | preprocessor.py:43-56 | the row derived from a valid timestamp satisfies every column invariant |
| Preprocessor.OnlyDateFields | preprocessor.py:43 | `only_date` is ten characters, `YYYY-MM-DD`, and its fields read back as year, month and day |
| Preprocessor.OnlyDateOrder | preprocessor.py:43 | `only_date` strings compare as the dates do, and are equal exactly when the dates are |
| Preprocessor.PeriodLabelParts | preprocessor.py:56 | the label is `str(h)`, a dash and `str(h+1)`, with no leading zero unless h is 0 |
| Preprocessor.PeriodLabelInjective | preprocessor.py:56 | different hours have different labels and equal hours equal labels |
| Preprocessor.LastPeriod | preprocessor.py:56 | hour 23 is labelled `23-24` |
| ChatPattern.MatchAt | preprocessor.py:20 | a match at p starts at p, ends within the text before a newline or the end, and holds a well-formed line |
| ChatPattern.MatchAtText | preprocessor.py:20 | a match covers exactly the text of its timestamp, ` - `, sender, `: ` and message |
| ChatPattern.MatchAtLine | preprocessor.py:20 | a well-formed line written at p and followed by a newline or the end is exactly what the pattern matches there |
| ChatPattern.LineRead | preprocessor.py:20 | a written line followed by a newline or the end reads back as its own pieces |
| ChatPattern.StampRead | preprocessor.py:20 | a written timestamp followed by ` - ` reads back as its own pieces |
| ChatPattern.SenderSplit | preprocessor.py:20 | after the timestamp and ` - `, the text is sender, `: `, message, and the first colon ends the sender |
| ChatPattern.LayoutTextInjective | preprocessor.py:20 | distinct timestamp layouts are written as distinct texts |
| ChatPattern.LineOfPieces | preprocessor.py:20 | a valid line's pieces fit the pattern and spell the line again |
| ChatPattern.PiecesOfLine | preprocessor.py:20 | pieces that fit the pattern are the pieces of the line they spell |
| ChatPattern.LayoutOfPieces | preprocessor.py:20 | a valid layout's pieces fit the timestamp elements and spell the layout again |
| ChatPattern.PiecesOfLayout | preprocessor.py:20 | pieces that fit the timestamp elements are the pieces of the layout they spell |
| ChatPattern.FindAll | preprocessor.py:23 | every match `re.findall` returns is a well-formed line ending at a newline or the end of the text |
| ChatPattern.FindAllSound | preprocessor.py:23 | each match found is the pattern's match at its start |
| ChatPattern.FindAllOrdered | preprocessor.py:23 | matches are in text order and do not overlap |
| ChatPattern.FindAllCovers | preprocessor.py:23 | every position where the pattern would match lies inside a match found |
| ChatPattern.ScanOrdered | preprocessor.py:23 | the left-to-right walk records matches in order without overlap |
| ChatPattern.ScanCovers | preprocessor.py:23 | the walk misses no position where an attempt succeeds |
| Timestamp.ExpandYear | preprocessor.py:33 | `%y` maps 00-68 to 2000-2068 and 69-99 to 1969-1999, keeping the last two digits |
| Timestamp.FieldsTime | preprocessor.py:33 | fields give a time exactly when day, month and expanded year form a valid `datetime`; the time carries the fields as read, with a year in 1969..2068 whose last two digits are the `%y` field |
| Timestamp.ParseStamp | preprocessor.py:33 | a converted timestamp is a valid date and time in 1969..2068 |
| Timestamp.ParseLayout | preprocessor.py:33 | a matched timestamp converts exactly when written strictly as `%d/%m/%y, %H:%M` with valid fields, and then to its fields' date and time |
| Timestamp.FormatMismatch | preprocessor.py:33 | another separator, a longer year or a missing comma does not fit the format |
| Timestamp.ParseCommaLayout | preprocessor.py:33 | a timestamp with the format's separators, year and comma converts exactly when nothing follows the minutes and the fields are valid |
| Timestamp.LongYear | preprocessor.py:33 | with a year of more than two digits the format fails from `%y` on, because the comma finds a digit |
| Timestamp.AcceptsStrictStamp | preprocessor.py:33 | `12/05/23, 14:30` converts to 12 May 2023, 14:30 |
| Timestamp.ExpandsLateYear | preprocessor.py:33 | `1/1/70, 0:00` converts to 1 January 1970, 0:00 |
| Timestamp.RejectsMissingDate | preprocessor.py:33 | `30/02/23, 10:00` is dropped |
| Timestamp.RejectsMeridiem | preprocessor.py:33 | `12/05/23, 2:30 PM` is dropped |
| Timestamp.RejectsDots | preprocessor.py:33 | `12.05.23, 14:30` is dropped |
| Timestamp.RejectsDashes | preprocessor.py:33 | `12-05-23, 14:30` is dropped |
| Timestamp.RejectsLongYear | preprocessor.py:33 | `12/05/2023, 14:30` is dropped |
| Timestamp.RejectsMissingComma | preprocessor.py:33 | `12/05/23 14:30` is dropped |
| Calendar.DaysInMonth | preprocessor.py:33 | a month has 28 to 31 days, and 29 exactly for February of a leap year |
| Calendar.YearLength | preprocessor.py:47-51 | a year has 366 days when it is a leap year and 365 otherwise |
| Calendar.NextDayOrdinal | preprocessor.py:51 | the day after a valid date is valid and its ordinal is one larger |
| Calendar.WeekdayOfNextDay | preprocessor.py:51 | the weekday advances by one, modulo seven, from one day to the next |
| Calendar.Y2KWasSaturday | preprocessor.py:51 | 1 January 2000 is a Saturday |
| Calendar.MonthNameInjective | preprocessor.py:48 | distinct month numbers have distinct names |
| Calendar.DayNameInjective | preprocessor.py:51 | distinct weekdays have distinct names |
| Calendar.DateStringFields | preprocessor.py:43 | `%Y-%m-%d` reads back as four digits of year, two of month and two of day |
| Calendar.DateStringOrder | preprocessor.py:43 | `%Y-%m-%d` strings sort as the dates do |
| Calendar.DateStringInjective | preprocessor.py:43 | different dates have different `%Y-%m-%d` strings |
| Text.Strip | preprocessor.py:16 | `strip()` is empty exactly when every character is whitespace |
| Text.NatToString | preprocessor.py:56 | `str(n)` is the shortest decimal rendering of n |
| Text.ZeroPad | preprocessor.py:43 | the zero-padded rendering has the width's length, only digits, and value n |
| Text.ZeroPadOrder | preprocessor.py:43 | padded numbers of one width sort as the numbers do |
| Text.SplitJoin | helper.py:50-53 | splitting a space-joined text gives the tokens of each part, in order |
| Text.Lower | helper.py:61 | `lower()` keeps the length and whitespace, turns each upper-case ASCII letter into its lower-case letter (32 code points on), leaves no upper-case ASCII letter and changes nothing else |
| Text.LowerIdempotent | helper.py:61 | lowering twice is lowering once |
| Text.LexLessIsStrictTotalOrder | helper.py:84 | Python's string order is a strict total order |
| Frequency.CountsAddUp | helper.py:41 | the counts of the distinct values add up to the length |
| Frequency.DistinctOrder | helper.py:63 | distinct values are listed in order of first appearance |
| Frequency.MostCommonFacts | helper.py:63 | `most_common(n)`: min(n, distinct) entries, exact counts, no value twice, counts non-increasing, ties in first-appearance order, nothing left out that ranks ahead of an entry |
| Frequency.MostCommonCut | helper.py:63 | every value left out occurs at most as often as every value listed |
| Frequency.MostCommonAll | helper.py:70 | `most_common()` lists every value once with its count, and the counts add up to the length |
| Frequency.GroupedFacts | helper.py:76-84 | a sorted `groupby` count lists each distinct key once, in increasing order, with its exact count, adding up to the number of rows |
| Frequency.SortBySorted | helper.py:84 | sorting by a strict total order gives a sorted sequence |
| Helper.FilterUser | helper.py:29-30 | the filter keeps at most the rows it is given; a named user keeps only that sender's rows |
| Helper.FilterUserAppend | helper.py:29-30 | the filter works part by part, in order |
| Helper.FilterUserOne | helper.py:29-30 | a row is kept exactly when `Overall` is selected or it is the selected sender's |
| Helper.ByUserCount | helper.py:30 | a sender has as many rows as the `user` column has occurrences of them |
| Helper.OverallIsSumOfUsers | helper.py:29-32 | the `Overall` message count is the sum of the per-sender counts |
| Helper.FetchStats | helper.py:28-37 | media rows are at most the messages, which are the filtered rows |
| Helper.FetchStatsAppend | helper.py:28-37 | the statistics of two parts add up; each media row accounts for two words |
| Helper.FetchStatsOne | helper.py:28-37 | a selected row is one message with its own token count, media flag and link count; an unselected row adds nothing |
| Helper.MediaIsTwoWords | helper.py:33-34 | `<Media omitted>` splits into two tokens |
| Helper.MediaWords | helper.py:33-34 | words are at least twice the media rows |
| Helper.LinksOfAppend | helper.py:35 | the link list of two parts is the concatenation of their link lists |
| Helper.BusiestUsersFacts | helper.py:40 | exactly five senders, or all of them when fewer, each with their exact row count, distinct, counts non-increasing, and no sender left out has more rows than one listed |
| Helper.UserSharesFacts | helper.py:41-42 | one share per distinct sender, the sender's count over the rows times 100, every sender listed, summing to 100 |
| Helper.SharesOf | helper.py:41 | each share is count over total times 100, in the order of the counts |
| Helper.SharesTotal | helper.py:41 | shares of counts that add up to the total sum to 100 |
| Helper.CleanWordsFacts | helper.py:61 | a kept token is a `split()` token with no upper-case letter and not a stop word |
| Helper.CandidateWordsFacts | helper.py:61 | every candidate word is a lowered, non-stop-word token |
| Helper.CandidateWordsAppend | helper.py:61 | candidate words of two parts are concatenated |
| Helper.MostCommonWordsFacts | helper.py:56-63 | exactly 20 words, or every candidate word when fewer, lowered and not stop words, exact counts, distinct, counts non-increasing, equal counts in order of first occurrence, none left out that occurs more often than one listed |
| Helper.NoticesIgnored | helper.py:60-61 | a notice or media row changes neither the word rows nor the candidate words |
| Helper.CleanedMessagesWords | helper.py:50 | the cleaned messages hold exactly the candidate words, in order |
| Helper.WordCloudWords | helper.py:45-53 | the word-cloud text splits back into exactly the candidate words `most_common_words` counts |
| Helper.EmojisOfOne | helper.py:69 | the emojis of a message are its emoji characters, in order |
| Helper.EmojisOfAppend | helper.py:69 | the emojis of two parts are concatenated |
| Helper.EmojiHelperFacts | helper.py:65-70 | every entry is an emoji with its exact count, entries are distinct, counts non-increasing with equal counts in order of first occurrence, every emoji is listed, and counts sum to the number of emoji characters |
| Helper.MonthlyTimelineFacts | helper.py:72-78 | one entry per distinct (year, month number, month), in increasing order, with its exact count and the label `month-year`; every selected row's month is listed; counts sum to the rows |
| Helper.MonthlyTimelineChronological | helper.py:76-77 | on a table `preprocess` built, entries run by year and month and no two share a label |
| Helper.MonthLabelParts | helper.py:77 | the label splits at its first dash into the month name and the year |
| Helper.MonthLabelInjective | helper.py:77 | labels of different months differ |
| Helper.DailyTimelineFacts | helper.py:80-84 | one entry per distinct date, in increasing string order, with its exact count; every date is listed; counts sum to the rows |
| Helper.DailyTimelineChronological | helper.py:84 | on a table `preprocess` built, an earlier entry's rows have earlier dates than a later entry's |
| Helper.DayCountsFacts | helper.py:86-90 | one entry per distinct weekday name with its exact count, counts non-increasing, summing to the rows |
| Helper.DayCountsNames | helper.py:90 | on a table `preprocess` built, only English weekday names appear |
| Helper.MonthCountsFacts | helper.py:92-96 | one entry per distinct month name with its exact count, counts non-increasing, summing to the rows |
| Helper.MonthCountsNames | helper.py:96 | on a table `preprocess` built, only English month names appear |
| Helper.SortedLabelsFacts | helper.py:105 | sorted labels are the column's values, each once, in increasing order |
| Helper.ActivityHeatmapFacts | helper.py:98-105 | no selected rows give the empty frame; otherwise exactly the occurring weekdays and hours, sorted, and each cell is the count of selected rows with that weekday and hour (zero if none) |

## Left out

- The Streamlit dashboard (`app.py`): upload, layout, plotting and font handling. It only calls the two pieces modelled here.
- `WordCloud(...).generate` renders an image with a foreign library. Only the text it is given is modelled (`Helper.WordCloudText`).
- `URLExtract.find_urls` is a foreign heuristic. It is the parameter `findUrls`; the link count is the total length of its results.
- `emoji.EMOJI_DATA` is a foreign table. It is the predicate `isEmoji` on single characters, as the code tests one character at a time.
- Stop-word loading (the NLTK download and corpus, and `stop_hinglish.txt` with its fallback to the empty set) is network and file I/O. The stop words are the parameter `stop`.
- Helper.UserShares: `round(..., 2)` is not modelled. Shares are exact reals, because floating-point rounding is outside the model.
- Helper.ActivityHeatmap: `fillna(0)` makes the cells floats in pandas. The model counts with naturals.
- Frequency.MostCommon: for `value_counts` (`Helper.BusiestUsers`, `Helper.DayCounts`, `Helper.MonthCounts`) the model breaks ties in first-appearance order, as `Counter.most_common` does. pandas does not guarantee that order, so no lemma about those three states it.
- Text.Lower: only ASCII letters are lowered. Python's full Unicode case mapping is not modelled.
- Text.IsDigit: `\d` and the `strptime` digits are ASCII digits only. Python also accepts other Unicode decimal digits.
- The `try`/`except` around `pd.to_datetime` (preprocessor.py:32-36) cannot raise with `errors='coerce'`, so that error path is not modelled.
- A sender literally named `Overall` cannot be selected on their own, as in the code. This is not stated separately.
