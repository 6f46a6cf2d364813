/** The text layout of a converted timestamp: `strftime('%Y-%m-%d %H:%M:%S')`,
    the `str.split()` that cuts it into the Date and Time columns, and
    readers for the ISO 8601 extended calendar-date (`YYYY-MM-DD`) and
    time (`HH:MM:SS`) layouts that undo the formatting. */
module IsoFormat {
  import opened Wrappers
  import opened Decimal
  import opened Civil

  /** `%Y-%m-%d`. */
  function FormatDate(d: Date): string {
    Padded(d.year, 4) + "-" + Padded(d.month, 2) + "-" + Padded(d.day, 2)
  }

  /** `%H:%M:%S`. */
  function FormatTime(t: TimeOfDay): string {
    Padded(Hour(t), 2) + ":" + Padded(Minute(t), 2) + ":" + Padded(Second(t), 2)
  }

  /** `strftime('%Y-%m-%d %H:%M:%S')`. */
  function Strftime(dt: DateTime): string {
    FormatDate(dt.date) + " " + FormatTime(dt.time)
  }

  /** The ASCII characters Python's `str.isspace` accepts. */
  predicate IsSpace(c: char) {
    9 <= c as int <= 13 || 28 <= c as int <= 32
  }

  predicate NoSpace(s: string) {
    forall i :: 0 <= i < |s| ==> !IsSpace(s[i])
  }

  /** What `str.split()` yields: non-empty words without white space. */
  predicate AreWords(words: seq<string>) {
    forall i :: 0 <= i < |words| ==> words[i] != [] && NoSpace(words[i])
  }

  function Flush(done: seq<string>, word: string): seq<string> {
    if word == [] then done else done + [word]
  }

  /** `str.split()` continued on `s`, with the words `done` already cut and
      the characters of the current `word` already read. */
  function SplitFrom(s: string, done: seq<string>, word: string): (words: seq<string>)
    requires AreWords(done) && NoSpace(word)
    ensures AreWords(words)
    decreases |s|
  {
    if s == [] then Flush(done, word)
    else if IsSpace(s[0]) then SplitFrom(s[1..], Flush(done, word), [])
    else SplitFrom(s[1..], done, word + [s[0]])
  }

  /** `str.split()` with no separator: runs of white space separate words,
      and leading or trailing white space yields no empty word. */
  function Split(s: string): (words: seq<string>)
    ensures AreWords(words)
  {
    SplitFrom(s, [], [])
  }

  lemma {:induction false} SplitWithinWord(a: string, rest: string, done: seq<string>, word: string)
    requires AreWords(done) && NoSpace(word) && NoSpace(a)
    ensures SplitFrom(a + rest, done, word) == SplitFrom(rest, done, word + a)
    decreases |a|
  {
    if a == [] {
      assert a + rest == rest && word + a == word;
    } else {
      assert (a + rest)[0] == a[0] && (a + rest)[1..] == a[1..] + rest;
      assert word + [a[0]] + a[1..] == word + a;
      SplitWithinWord(a[1..], rest, done, word + [a[0]]);
    }
  }

  /** Two words joined by one space split back into those two words. */
  lemma SplitTwoWords(a: string, b: string)
    requires a != [] && b != [] && NoSpace(a) && NoSpace(b)
    ensures Split(a + " " + b) == [a, b]
  {
    var rest := " " + b;
    assert a + " " + b == a + rest;
    SplitWithinWord(a, rest, [], []);
    assert [] + a == a;
    assert IsSpace(rest[0]) && rest[1..] == b;
    assert Flush([], a) == [a];
    assert SplitFrom(rest, [], a) == SplitFrom(b, [a], []);
    assert b + [] == b && [] + b == b;
    SplitWithinWord(b, [], [a], []);
    assert Flush([a], b) == [a, b];
  }

  lemma Pow10Values()
    ensures Pow10(2) == 100 && Pow10(4) == 10000
  {
    assert Pow10(1) == 10;
    assert Pow10(3) == 1000;
  }

  /** The date text has the ISO 8601 extended layout `YYYY-MM-DD` for
      every year a `datetime` can hold. */
  lemma DateLayout(d: Date)
    requires ValidDate(d) && d.year <= 9999
    ensures |FormatDate(d)| == 10
    ensures FormatDate(d)[4] == '-' && FormatDate(d)[7] == '-'
    ensures forall i :: 0 <= i < 10 && i != 4 && i != 7 ==> IsDigit(FormatDate(d)[i])
    ensures FormatDate(d)[..4] == Padded(d.year, 4)
    ensures FormatDate(d)[5..7] == Padded(d.month, 2)
    ensures FormatDate(d)[8..] == Padded(d.day, 2)
  {
    Pow10Values();
    PaddedWidth(d.year, 4);
    PaddedWidth(d.month, 2);
    PaddedWidth(d.day, 2);
  }

  /** The time text has the ISO 8601 extended layout `HH:MM:SS`. */
  lemma TimeLayout(t: TimeOfDay)
    requires ValidTime(t)
    ensures |FormatTime(t)| == 8
    ensures FormatTime(t)[2] == ':' && FormatTime(t)[5] == ':'
    ensures forall i :: 0 <= i < 8 && i != 2 && i != 5 ==> IsDigit(FormatTime(t)[i])
    ensures FormatTime(t)[..2] == Padded(Hour(t), 2)
    ensures FormatTime(t)[3..5] == Padded(Minute(t), 2)
    ensures FormatTime(t)[6..] == Padded(Second(t), 2)
  {
    Pow10Values();
    ClockFields(t);
    PaddedWidth(Hour(t), 2);
    PaddedWidth(Minute(t), 2);
    PaddedWidth(Second(t), 2);
  }

  /** `strftime(...).split()` always yields exactly the date text and the
      time text, so the two-name unpacking never fails. */
  lemma SplitStrftime(dt: DateTime)
    requires ValidDateTime(dt) && dt.date.year <= 9999
    ensures Split(Strftime(dt)) == [FormatDate(dt.date), FormatTime(dt.time)]
  {
    DateLayout(dt.date);
    TimeLayout(dt.time);
    SplitTwoWords(FormatDate(dt.date), FormatTime(dt.time));
  }

  /** Reads an ISO 8601 extended calendar date `YYYY-MM-DD`. */
  function ParseDate(s: string): (r: Option<Date>)
    ensures r.Some? ==> ValidDate(r.value)
  {
    if |s| == 10 && s[4] == '-' && s[7] == '-' then
      match (Parse(s[..4]), Parse(s[5..7]), Parse(s[8..]))
      case (Some(y), Some(m), Some(d)) =>
        if ValidDate(Date(y, m, d)) then Some(Date(y, m, d)) else None
      case _ => None
    else None
  }

  /** Reads an ISO 8601 extended time of day `HH:MM:SS`. */
  function ParseTime(s: string): (r: Option<TimeOfDay>)
    ensures r.Some? ==> ValidTime(r.value)
  {
    if |s| == 8 && s[2] == ':' && s[5] == ':' then
      match (Parse(s[..2]), Parse(s[3..5]), Parse(s[6..]))
      case (Some(h), Some(m), Some(sec)) =>
        if h < 24 && m < 60 && sec < 60 then Some(ClockTime(h, m, sec)) else None
      case _ => None
    else None
  }

  lemma ParseFormatDate(d: Date)
    requires ValidDate(d) && d.year <= 9999
    ensures ParseDate(FormatDate(d)) == Some(d)
  {
    DateLayout(d);
    ParsePadded(d.year, 4);
    ParsePadded(d.month, 2);
    ParsePadded(d.day, 2);
  }

  lemma ParseFormatTime(t: TimeOfDay)
    requires ValidTime(t)
    ensures ParseTime(FormatTime(t)) == Some(t)
  {
    TimeLayout(t);
    ClockFields(t);
    ParsePadded(Hour(t), 2);
    ParsePadded(Minute(t), 2);
    ParsePadded(Second(t), 2);
  }

  /** The timestamp a Date and a Time column denote, by the POSIX formula. */
  function TimestampOfText(date: string, time: string): Option<int> {
    match (ParseDate(date), ParseTime(time))
    case (Some(d), Some(t)) => Some(PosixSeconds(DateTime(d, t)))
    case _ => None
  }

  /** The full round trip: a timestamp, converted by `utcfromtimestamp`,
      formatted and split into Date and Time, reads back as the same
      timestamp. */
  lemma TimestampTextRoundTrip(ts: nat)
    requires ts <= MaxTimestamp
    ensures ValidDateTime(UtcFromTimestamp(ts))
    ensures var dt := UtcFromTimestamp(ts);
            Split(Strftime(dt)) == [FormatDate(dt.date), FormatTime(dt.time)] &&
            |FormatDate(dt.date)| == 10 && |FormatTime(dt.time)| == 8 &&
            TimestampOfText(FormatDate(dt.date), FormatTime(dt.time)) == Some(ts)
  {
    var dt := UtcFromTimestamp(ts);
    UtcFromTimestampSpec(ts);
    SplitStrftime(dt);
    DateLayout(dt.date);
    TimeLayout(dt.time);
    ParseFormatDate(dt.date);
    ParseFormatTime(dt.time);
  }

  /** Midnight at the start of 1970-01-01 is written `1970-01-01` and
      `00:00:00`. */
  lemma EpochText()
    ensures FormatDate(Date(1970, 1, 1)) == "1970-01-01"
    ensures FormatTime(TimeOfDay(0)) == "00:00:00"
  {
    assert Digits(1) == "1";
    assert Digits(19) == "19";
    assert Digits(197) == "197";
    assert Digits(1970) == "1970";
    assert Padded(1970, 4) == "1970";
    assert Padded(1, 2) == "01";
    assert Padded(0, 2) == "00";
  }

  /** Timestamp 0 is printed as the words "1970-01-01" and "00:00:00". */
  lemma EpochSplit()
    ensures Split(Strftime(UtcFromTimestamp(0))) == ["1970-01-01", "00:00:00"]
  {
    var epoch := DateTime(Date(1970, 1, 1), TimeOfDay(0));
    SplitStrftime(epoch);
    EpochText();
    EpochStart();
  }
}
