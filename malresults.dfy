/** `parse_malresults`: one pass over the `<message>` elements of a mail
    log that derives a seven-column row per message, keeps three TLS
    counters and ends with three summary lines. The parsed XML tree, the
    CSV writer and the console are outside the model: messages arrive as
    values, rows leave as values. */
module MalResults {
  import opened Wrappers
  import opened EventLookup
  import Decimal
  import opened Civil
  import opened IsoFormat

  /** One `<message>` element: its `UID` attribute, and the events of its
      `<events>` child, `None` when there is no such child. */
  datatype Message = Message(uid: Option<string>, events: Option<seq<Event>>)

  /** One output row, its fields in column order. */
  datatype Row = Row(
    uid: Option<string>,
    date: string,
    time: string,
    toAddress: Option<string>,
    fromAddress: Option<string>,
    tlsDelivery: Option<string>,
    tlsReceived: Option<string>)

  /** The column names of the header row, in order. */
  const Header: seq<string> :=
    ["UID", "Date", "Time", "To Email Address", "From Email Address", "TLS Delivery", "TLS Received"]

  const Accept: Option<string> := Some("ACCEPT")
  const Orcpts: Option<string> := Some("ORCPTS")
  const Sender: Option<string> := Some("SENDER")
  const TlsDeliveryEvent: Option<string> := Some("TLS_DELIVERY")
  const TlsReceivedEvent: Option<string> := Some("TLS_RECEIVED")

  /** Placeholders for absent events, and the time used when there is no
      ACCEPT event. */
  const AddressMissing: string := "N/A"
  const DeliveryMissing: string := "Not available"
  const ReceivedMissing: string := "Not received with TLS"
  const AcceptFallback: string := "0"

  /** The exceptions that abort a run. */
  datatype Error =
    | NoEventsElement                    // iterating `message.find('events')` when it is `None`
    | AcceptTimeMissing                  // `int(None)`: an ACCEPT event without a `time`
    | TimestampNotInteger(text: string)  // `int(text)` raises `ValueError`
    | TimestampOutOfRange(seconds: nat)  // `utcfromtimestamp` past year 9999, whichever exception it raises
    | UnpackMismatch(count: nat)         // `date, time = ...split()` with other than two words

  /** The default limit on the number of digits `int()` converts from
      decimal text, in Python 3.11 and in 3.10.7, 3.9.14, 3.8.14, 3.7.14
      and the later releases of those lines. */
  const MaxStrDigits: nat := 4300

  /** `int(text)` on decimal text: a numeral longer than the digit limit
      raises `ValueError` like a non-numeral does, whatever its value, since
      leading zeros count towards the limit. */
  function IntOf(text: string): (r: Option<nat>)
    ensures r.Some? <==> text != [] && |text| <= MaxStrDigits && Decimal.AllDigits(text)
    ensures r.Some? ==> r.value == Decimal.Value(text)
  {
    if |text| > MaxStrDigits then None else Decimal.Parse(text)
  }

  /** `unix_timestamp_to_datetime(ts)`: `int(ts)` then `utcfromtimestamp`. */
  function UnixTimestampToDatetime(ts: Option<string>): (r: Result<DateTime, Error>)
    ensures ts.None? ==> r == Failure(AcceptTimeMissing)
    ensures ts.Some? && (|ts.value| > MaxStrDigits || Decimal.Parse(ts.value).None?) ==>
              r == Failure(TimestampNotInteger(ts.value))
    ensures ts.Some? && |ts.value| <= MaxStrDigits && Decimal.Parse(ts.value).Some? ==>
              var n := Decimal.Parse(ts.value).value;
              (n > MaxTimestamp ==> r == Failure(TimestampOutOfRange(n))) &&
              (n <= MaxTimestamp ==> r == Success(UtcFromTimestamp(n)))
  {
    match ts
    case None => Failure(AcceptTimeMissing)
    case Some(text) =>
      match IntOf(text)
      case None => Failure(TimestampNotInteger(text))
      case Some(n) =>
        if n <= MaxTimestamp then Success(UtcFromTimestamp(n)) else Failure(TimestampOutOfRange(n))
  }

  /** The body of the loop up to `writerow`: the lookups, the timestamp and
      the four looked-up fields of one message. */
  function DeriveRow(m: Message): (r: Result<Row, Error>)
    ensures m.events.None? ==> r == Failure(NoEventsElement)
    ensures r.Success? ==> r.value.uid == m.uid
  {
    match m.events
    case None => Failure(NoEventsElement)
    case Some(events) =>
      var texts, times := Texts(events), Times(events);
      match UnixTimestampToDatetime(Get(times, Accept, Some(AcceptFallback)))
      case Failure(e) => Failure(e)
      case Success(dt) =>
        var parts := Split(Strftime(dt));
        if |parts| != 2 then Failure(UnpackMismatch(|parts|))
        else
          Success(Row(
            m.uid, parts[0], parts[1],
            Get(texts, Orcpts, Some(AddressMissing)),
            Get(texts, Sender, Some(AddressMissing)),
            Get(texts, TlsDeliveryEvent, Some(DeliveryMissing)),
            Get(texts, TlsReceivedEvent, Some(ReceivedMissing))))
  }

  /** `v` is what a lookup of `name` with `default` must give: the text of
      the last event named `name`, or the default when there is none. */
  ghost predicate Resolves(events: seq<Event>, name: Option<string>, default: string, v: Option<string>) {
    (!Occurs(events, name) ==> v == Some(default)) &&
    (forall i :: IsLast(events, i, name) ==> v == events[i].text)
  }

  /** The `time` of the last ACCEPT event, or "0" when there is none. */
  ghost function AcceptTime(events: seq<Event>): (t: Option<string>)
    ensures !Occurs(events, Accept) ==> t == Some(AcceptFallback)
    ensures forall i :: IsLast(events, i, Accept) ==> t == events[i].time
  {
    if Occurs(events, Accept) then
      LastExists(events, Accept);
      var i :| IsLast(events, i, Accept);
      events[i].time
    else Some(AcceptFallback)
  }

  lemma LookupsResolve(events: seq<Event>)
    ensures Get(Times(events), Accept, Some(AcceptFallback)) == AcceptTime(events)
    ensures Resolves(events, Orcpts, AddressMissing, Get(Texts(events), Orcpts, Some(AddressMissing)))
    ensures Resolves(events, Sender, AddressMissing, Get(Texts(events), Sender, Some(AddressMissing)))
    ensures Resolves(events, TlsDeliveryEvent, DeliveryMissing, Get(Texts(events), TlsDeliveryEvent, Some(DeliveryMissing)))
    ensures Resolves(events, TlsReceivedEvent, ReceivedMissing, Get(Texts(events), TlsReceivedEvent, Some(ReceivedMissing)))
  {
    GetTime(events, Accept, Some(AcceptFallback));
    if Occurs(events, Accept) {
      LastExists(events, Accept);
    }
    GetText(events, Orcpts, Some(AddressMissing));
    GetText(events, Sender, Some(AddressMissing));
    GetText(events, TlsDeliveryEvent, Some(DeliveryMissing));
    GetText(events, TlsReceivedEvent, Some(ReceivedMissing));
  }

  /** How one message fails, in terms of its events alone: a message
      without `<events>` fails at once; otherwise the `time` of its last
      ACCEPT event (or "0" when there is none) is missing, is not a decimal
      numeral within the digit limit, or is past the last second of year 9999, and the row fails
      with that error. */
  lemma DeriveRowErrors(m: Message)
    ensures m.events.None? ==> DeriveRow(m) == Failure(NoEventsElement)
    ensures m.events.Some? ==>
      var t := AcceptTime(m.events.value);
      (t.None? ==> DeriveRow(m) == Failure(AcceptTimeMissing)) &&
      (t.Some? && IntOf(t.value).None? ==>
         DeriveRow(m) == Failure(TimestampNotInteger(t.value))) &&
      (t.Some? && IntOf(t.value).Some? && IntOf(t.value).value > MaxTimestamp ==>
         DeriveRow(m) == Failure(TimestampOutOfRange(IntOf(t.value).value)))
  {
    if m.events.Some? {
      LookupsResolve(m.events.value);
    }
  }

  /** The row of a message whose converted ACCEPT time is `dt`: its Date
      and Time are the two halves of `dt`'s text. */
  lemma DeriveRowShape(m: Message, dt: DateTime)
    requires m.events.Some? && ValidDateTime(dt) && dt.date.year <= 9999
    requires UnixTimestampToDatetime(Get(Times(m.events.value), Accept, Some(AcceptFallback))) == Success(dt)
    ensures var texts := Texts(m.events.value);
      DeriveRow(m) == Success(Row(
        m.uid, FormatDate(dt.date), FormatTime(dt.time),
        Get(texts, Orcpts, Some(AddressMissing)),
        Get(texts, Sender, Some(AddressMissing)),
        Get(texts, TlsDeliveryEvent, Some(DeliveryMissing)),
        Get(texts, TlsReceivedEvent, Some(ReceivedMissing))))
  {
    SplitStrftime(dt);
  }

  /** The row of a message whose ACCEPT time is a timestamp in range: it
      carries the message's UID, Date and Time texts of 10 and 8 characters
      that read back as that timestamp, and for each address or TLS column
      the text of the last event with that name, or the column's
      placeholder when no event has that name. */
  lemma DeriveRowSuccess(m: Message)
    ensures m.events.Some? ==>
      var events := m.events.value;
      var t := AcceptTime(events);
      (t.Some? && IntOf(t.value).Some? && IntOf(t.value).value <= MaxTimestamp ==>
         DeriveRow(m).Success? &&
         var row := DeriveRow(m).value;
         row.uid == m.uid &&
         |row.date| == 10 && |row.time| == 8 &&
         TimestampOfText(row.date, row.time) == Some(IntOf(t.value).value as int) &&
         Resolves(events, Orcpts, AddressMissing, row.toAddress) &&
         Resolves(events, Sender, AddressMissing, row.fromAddress) &&
         Resolves(events, TlsDeliveryEvent, DeliveryMissing, row.tlsDelivery) &&
         Resolves(events, TlsReceivedEvent, ReceivedMissing, row.tlsReceived))
  {
    if m.events.Some? {
      var events := m.events.value;
      LookupsResolve(events);
      var t := AcceptTime(events);
      if t.Some? && IntOf(t.value).Some? && IntOf(t.value).value <= MaxTimestamp {
        var ts := IntOf(t.value).value;
        var dt := UtcFromTimestamp(ts);
        var texts := Texts(events);
        assert DeriveRow(m) == Success(Row(
          m.uid, FormatDate(dt.date), FormatTime(dt.time),
          Get(texts, Orcpts, Some(AddressMissing)),
          Get(texts, Sender, Some(AddressMissing)),
          Get(texts, TlsDeliveryEvent, Some(DeliveryMissing)),
          Get(texts, TlsReceivedEvent, Some(ReceivedMissing)))) by {
          UtcFromTimestampSpec(ts);
          assert UnixTimestampToDatetime(Get(Times(events), Accept, Some(AcceptFallback))) == Success(dt);
          DeriveRowShape(m, dt);
        }
        assert |FormatDate(dt.date)| == 10 && |FormatTime(dt.time)| == 8 &&
               TimestampOfText(FormatDate(dt.date), FormatTime(dt.time)) == Some(ts) by {
          TimestampTextRoundTrip(ts);
        }
      }
    }
  }

  /** `date, time = ...split()` never raises: no message fails with
      `UnpackMismatch`. */
  lemma UnpackNeverFails(m: Message)
    ensures forall n :: DeriveRow(m) != Failure(UnpackMismatch(n))
  {
    if m.events.Some? {
      var t := Get(Times(m.events.value), Accept, Some(AcceptFallback));
      if t.Some? && IntOf(t.value).Some? && IntOf(t.value).value <= MaxTimestamp {
        var ts := IntOf(t.value).value;
        UtcFromTimestampSpec(ts);
        DeriveRowShape(m, UtcFromTimestamp(ts));
      }
    }
  }

  /** An event whose text is `None` is still found by the lookup: a last
      TLS_DELIVERY event without text gives the field `None`, which is not
      the placeholder, so the message counts as having TLS Delivery. */
  lemma NoTextCountsAsDelivered(m: Message, i: int)
    requires m.events.Some? && IsLast(m.events.value, i, TlsDeliveryEvent)
    requires m.events.value[i].text.None?
    requires DeriveRow(m).Success?
    ensures DeriveRow(m).value.tlsDelivery.None? && HasDelivery(DeriveRow(m).value)
  {
    GetText(m.events.value, TlsDeliveryEvent, Some(DeliveryMissing));
  }

  /** The digit limit counts leading zeros: a numeral padded past 4300
      digits denotes a small number, yet `int()` refuses it and the run
      aborts with `TimestampNotInteger`. */
  lemma OverlongNumeralRejected(n: nat, width: nat)
    requires width > MaxStrDigits
    ensures Decimal.Parse(Decimal.Padded(n, width)) == Some(n)
    ensures UnixTimestampToDatetime(Some(Decimal.Padded(n, width))) ==
            Failure(TimestampNotInteger(Decimal.Padded(n, width)))
  {
    Decimal.ParsePadded(n, width);
  }

  /** The fallback time "0" is the timestamp 0. */
  lemma FallbackIsEpoch()
    ensures UnixTimestampToDatetime(Some(AcceptFallback)) == Success(UtcFromTimestamp(0))
  {
    assert Decimal.Digits(0) == "0";
    Decimal.ParseDigits(0);
  }

  /** A message with no ACCEPT event is dated 1970-01-01 at 00:00:00. */
  lemma MissingAcceptIsEpoch(m: Message)
    requires m.events.Some? && !Occurs(m.events.value, Accept)
    ensures DeriveRow(m).Success?
    ensures DeriveRow(m).value.date == "1970-01-01" && DeriveRow(m).value.time == "00:00:00"
  {
    LookupsResolve(m.events.value);
    FallbackIsEpoch();
    EpochSplit();
  }

  /** A message whose `<events>` is empty gets every placeholder and is
      dated at the epoch. */
  lemma EmptyEventsRow(uid: Option<string>)
    ensures DeriveRow(Message(uid, Some([]))) ==
            Success(Row(uid, "1970-01-01", "00:00:00", Some(AddressMissing), Some(AddressMissing),
                        Some(DeliveryMissing), Some(ReceivedMissing)))
  {
    MissingAcceptIsEpoch(Message(uid, Some([])));
  }

  /** The three summary counters. */
  datatype Counts = Counts(tlsDelivery: nat, notAvailable: nat, tlsReceived: nat)

  predicate HasDelivery(row: Row) {
    row.tlsDelivery != Some(DeliveryMissing)
  }

  predicate HasReceipt(row: Row) {
    row.tlsReceived != Some(ReceivedMissing)
  }

  /** The counters after the rows `rows`, one function each: rows whose TLS
      Delivery is not the placeholder, rows whose TLS Delivery is, and rows
      whose TLS Received is not its placeholder. */
  function Delivered(rows: seq<Row>): nat {
    if rows == [] then 0
    else Delivered(rows[..|rows| - 1]) + if HasDelivery(rows[|rows| - 1]) then 1 else 0
  }

  function NotAvailable(rows: seq<Row>): nat {
    if rows == [] then 0
    else NotAvailable(rows[..|rows| - 1]) + if HasDelivery(rows[|rows| - 1]) then 0 else 1
  }

  function Received(rows: seq<Row>): nat {
    if rows == [] then 0
    else Received(rows[..|rows| - 1]) + if HasReceipt(rows[|rows| - 1]) then 1 else 0
  }

  function CountsOf(rows: seq<Row>): Counts {
    Counts(Delivered(rows), NotAvailable(rows), Received(rows))
  }

  /** Every row is counted exactly once as TLS Delivery available or not
      available, and at most once as received with TLS. */
  lemma {:induction false} CountsPartition(rows: seq<Row>)
    ensures Delivered(rows) + NotAvailable(rows) == |rows|
    ensures Received(rows) <= |rows|
  {
    if rows != [] {
      CountsPartition(rows[..|rows| - 1]);
    }
  }

  /** One more row moves exactly one of the first two counters, and the
      third exactly when the row's TLS Received is not its placeholder. */
  lemma CountsStep(rows: seq<Row>, row: Row)
    ensures Delivered(rows + [row]) == Delivered(rows) + if HasDelivery(row) then 1 else 0
    ensures NotAvailable(rows + [row]) == NotAvailable(rows) + if HasDelivery(row) then 0 else 1
    ensures Received(rows + [row]) == Received(rows) + if HasReceipt(row) then 1 else 0
  {
    assert (rows + [row])[..|rows|] == rows;
  }

  /** `rows` are the rows of the first `|rows|` messages, in order. */
  ghost predicate RowsOf(messages: seq<Message>, rows: seq<Row>) {
    |rows| <= |messages| &&
    forall k {:trigger DeriveRow(messages[k])} :: 0 <= k < |rows| ==> DeriveRow(messages[k]) == Success(rows[k])
  }

  lemma RowsOfStep(messages: seq<Message>, rows: seq<Row>, row: Row)
    requires RowsOf(messages, rows) && |rows| < |messages|
    requires DeriveRow(messages[|rows|]) == Success(row)
    ensures RowsOf(messages, rows + [row])
  {
  }

  /** A message with an empty `<events>` adds one to `not_available_count`
      and leaves the other two counters as they were. */
  lemma EmptyEventsCounted(rows: seq<Row>, uid: Option<string>, row: Row)
    requires DeriveRow(Message(uid, Some([]))) == Success(row)
    ensures Delivered(rows + [row]) == Delivered(rows)
    ensures NotAvailable(rows + [row]) == NotAvailable(rows) + 1
    ensures Received(rows + [row]) == Received(rows)
  {
    EmptyEventsRow(uid);
    CountsStep(rows, row);
  }

  /** The loop of `parse_malresults`: messages in document order, one row
      each, the counters updated per row. The rows are the rows of the
      first messages, in order; every message has a row exactly when the
      pass succeeds, and otherwise the first message without a row is the
      one whose error aborted the pass, the rows before it staying written.
      On success the counters are those of the rows, and the first two add
      up to the number of messages. */
  method ParseMalResults(messages: seq<Message>) returns (rows: seq<Row>, outcome: Result<Counts, Error>)
    ensures |rows| <= |messages|
    ensures forall k {:trigger DeriveRow(messages[k])} :: 0 <= k < |rows| ==> DeriveRow(messages[k]) == Success(rows[k])
    ensures outcome.Success? <==> |rows| == |messages|
    ensures outcome.Failure? ==> DeriveRow(messages[|rows|]) == Failure(outcome.error)
    ensures outcome.Success? ==> outcome.value == CountsOf(rows)
    ensures outcome.Success? ==> outcome.value.tlsDelivery + outcome.value.notAvailable == |messages|
    ensures outcome.Success? ==> outcome.value.tlsReceived <= |messages|
  {
    var tlsDeliveryCount, tlsReceivedCount, notAvailableCount := 0, 0, 0;
    rows := [];
    var i := 0;
    while i < |messages|
      invariant 0 <= i <= |messages| && |rows| == i
      invariant RowsOf(messages, rows)
      invariant tlsDeliveryCount == Delivered(rows)
      invariant notAvailableCount == NotAvailable(rows)
      invariant tlsReceivedCount == Received(rows)
      invariant tlsDeliveryCount + notAvailableCount == i
      invariant tlsReceivedCount <= i
    {
      var derived := DeriveRow(messages[i]);
      if derived.Failure? {
        outcome := Failure(derived.error);
        return;
      }
      var row := derived.value;
      if row.tlsDelivery != Some(DeliveryMissing) {
        tlsDeliveryCount := tlsDeliveryCount + 1;
      } else {
        notAvailableCount := notAvailableCount + 1;
      }
      if row.tlsReceived != Some(ReceivedMissing) {
        tlsReceivedCount := tlsReceivedCount + 1;
      }
      CountsStep(rows, row);
      RowsOfStep(messages, rows, row);
      rows := rows + [row];
      i := i + 1;
    }
    outcome := Success(Counts(tlsDeliveryCount, notAvailableCount, tlsReceivedCount));
  }

  /** The dict passed to `writer.writerow`, keyed by column name. */
  function RowDict(row: Row): map<string, Option<string>> {
    map[
      "UID" := row.uid,
      "Date" := Some(row.date),
      "Time" := Some(row.time),
      "To Email Address" := row.toAddress,
      "From Email Address" := row.fromAddress,
      "TLS Delivery" := row.tlsDelivery,
      "TLS Received" := row.tlsReceived]
  }

  /** How the CSV writer renders a field: `None` as the empty string. */
  function CellText(v: Option<string>): string {
    match v
    case None => ""
    case Some(s) => s
  }

  /** `DictWriter.writerow`: the dict's values in header order, a missing
      key written as the empty string. */
  function WriterCells(d: map<string, Option<string>>, fieldnames: seq<string>): (cells: seq<string>)
    ensures |cells| == |fieldnames|
  {
    seq(|fieldnames|, i requires 0 <= i < |fieldnames| => CellText(Get(d, fieldnames[i], None)))
  }

  /** The row dict has exactly the header's keys, so the writer accepts it,
      and its cells come out in the fixed column order. */
  lemma RowCellsInColumnOrder(row: Row)
    ensures forall k :: k in RowDict(row) <==> k in Header
    ensures WriterCells(RowDict(row), Header) ==
            [CellText(row.uid), row.date, row.time, CellText(row.toAddress), CellText(row.fromAddress),
             CellText(row.tlsDelivery), CellText(row.tlsReceived)]
  {
    var d := RowDict(row);
    var cells := WriterCells(d, Header);
    assert cells[0] == CellText(row.uid);
    assert cells[1] == row.date;
    assert cells[2] == row.time;
    assert cells[3] == CellText(row.toAddress);
    assert cells[4] == CellText(row.fromAddress);
    assert cells[5] == CellText(row.tlsDelivery);
    assert cells[6] == CellText(row.tlsReceived);
  }

  const DeliveryAvailableLabel: string := "Number of messages with TLS Delivery available: "
  const DeliveryMissingLabel: string := "Number of messages with TLS Delivery not available: "
  const ReceivedLabel: string := "Number of messages received with TLS: "

  /** The three lines printed after the pass: each is its label followed
      by the canonical numeral of its counter, as `str` writes it. */
  function Summary(c: Counts): (lines: seq<string>)
    ensures |lines| == 3
    ensures |lines[0]| > |DeliveryAvailableLabel| && |lines[1]| > |DeliveryMissingLabel| && |lines[2]| > |ReceivedLabel|
    ensures lines[0][..|DeliveryAvailableLabel|] == DeliveryAvailableLabel
    ensures Decimal.Parse(lines[0][|DeliveryAvailableLabel|..]) == Some(c.tlsDelivery)
    ensures Decimal.Canonical(lines[0][|DeliveryAvailableLabel|..])
    ensures lines[1][..|DeliveryMissingLabel|] == DeliveryMissingLabel
    ensures Decimal.Parse(lines[1][|DeliveryMissingLabel|..]) == Some(c.notAvailable)
    ensures Decimal.Canonical(lines[1][|DeliveryMissingLabel|..])
    ensures lines[2][..|ReceivedLabel|] == ReceivedLabel
    ensures Decimal.Parse(lines[2][|ReceivedLabel|..]) == Some(c.tlsReceived)
    ensures Decimal.Canonical(lines[2][|ReceivedLabel|..])
  {
    var l0 := DeliveryAvailableLabel + Decimal.Digits(c.tlsDelivery);
    var l1 := DeliveryMissingLabel + Decimal.Digits(c.notAvailable);
    var l2 := ReceivedLabel + Decimal.Digits(c.tlsReceived);
    Decimal.ParseDigits(c.tlsDelivery);
    Decimal.ParseDigits(c.notAvailable);
    Decimal.ParseDigits(c.tlsReceived);
    assert l0[|DeliveryAvailableLabel|..] == Decimal.Digits(c.tlsDelivery);
    assert l1[|DeliveryMissingLabel|..] == Decimal.Digits(c.notAvailable);
    assert l2[|ReceivedLabel|..] == Decimal.Digits(c.tlsReceived);
    [l0, l1, l2]
  }
}
