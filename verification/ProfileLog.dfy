/** The load profile of the DLMS server: the row file, the scan that turns a time range into a
    row window, and the read of one page. DLMS UA Blue Book Ed. 12 (IEC 62056-6-2), section 4.3.6. */
module ProfileLog {
  import opened Basics

  datatype Row = Row(time: int, value: int)

  /** What a read of the buffer asks for: everything, a time range, or rows by number. */
  datatype Query = All | Range(start: int, end: int) | Entry(first: nat, last: nat)

  predicate Sorted(rows: seq<Row>) {
    forall i, j :: 0 <= i <= j < |rows| ==> rows[i].time <= rows[j].time
  }

  // ---- The file as a value ----

  /** The rows before the first one later than `end`. */
  function UpTo(rows: seq<Row>, end: int): (n: nat)
    ensures n <= |rows|
  {
    if rows == [] || rows[0].time > end then 0 else 1 + UpTo(rows[1..], end)
  }

  /** How many of the rows lie before `start`. */
  function CountBefore(rows: seq<Row>, start: int): (n: nat)
    ensures n <= |rows|
  {
    if rows == [] then 0
    else CountBefore(rows[..|rows| - 1], start) + (if rows[|rows| - 1].time < start then 1 else 0)
  }

  /** At most `count` rows from row `index` on. */
  function Slice(rows: seq<Row>, index: nat, count: nat): (page: seq<Row>)
    ensures |page| <= count
  {
    if index >= |rows| then []
    else if index + count <= |rows| then rows[index..index + count] else rows[index..]
  }

  /** The row window of a query, in the 16-bit fields that hold it. */
  function Window(rows: seq<Row>, begin: nat, q: Query): (nat, nat) {
    match q
    case All => (begin, |rows| % 0x1_0000)
    case Range(start, end) =>
      var n := UpTo(rows, end);
      ((begin + CountBefore(rows[..n], start)) % 0x1_0000, n % 0x1_0000)
    case Entry(b, e) =>
      (b % 0x1_0000, if e % 0x1_0000 > |rows| then |rows| % 0x1_0000 else e % 0x1_0000)
  }

  /** The number of rows asked of the file for one page; the subtraction is unsigned. */
  function PageSize(begin: nat, end: nat, rowToPdu: nat): nat {
    var left := (end - begin) % 0x1_0000_0000;
    if left > rowToPdu then rowToPdu else left + 1
  }

  /** One row an hour, numbered from 1, the last at the start of the current hour. */
  function Hourly(now: int, rowCount: nat): (rows: seq<Row>)
    ensures |rows| == rowCount
  {
    seq(rowCount, i requires 0 <= i < rowCount => Row(now - now % 3600 - (rowCount - 1 - i) * 3600, i + 1))
  }

  // ---- The callbacks ----

  class LogFile {
    var rows: seq<Row>

    constructor ()
      ensures rows == []
    {
      rows := [];
    }

    /** Fills the file with one row an hour, the last at the start of the current hour. */
    method Init(now: int, rowCount: nat)
      modifies this
      ensures rows == Hourly(now, rowCount)
    {
      var tm := now - now % 3600 - (rowCount - 1) * 3600;
      rows := [];
      var pos := 0;
      while pos != rowCount
        invariant 0 <= pos <= rowCount && |rows| == pos
        invariant tm == now - now % 3600 - (rowCount - 1 - pos) * 3600
        invariant forall i :: 0 <= i < pos ==>
                    rows[i] == Row(now - now % 3600 - (rowCount - 1 - i) * 3600, i + 1)
      {
        rows := rows + [Row(tm, pos + 1)];
        tm := tm + 3600;
        pos := pos + 1;
      }
    }

    method DataCount() returns (n: nat)
      ensures n == |rows|
    {
      n := 0;
      for i := 0 to |rows|
        invariant n == i
      {
        n := n + 1;
      }
    }

    /** Appends a row; a register without a value is given the next row number. */
    method Capture(now: int, reading: Option<int>)
      modifies this
      ensures rows == old(rows) + [Row(now, if reading.Some? then reading.value else |old(rows)| + 1)]
      ensures rows == LogStep(old(rows), Captured(now, reading))
    {
      var cnt := DataCount();
      var value;
      match reading {
        case Some(v) => value := v;
        case None => value := cnt + 1;
      }
      rows := rows + [Row(now, value)];
    }

    method Clear()
      modifies this
      ensures rows == [] && forall now :: rows == LogStep(old(rows), Cleared(now))
    {
      rows := [];
    }

    /** Reads up to `count` rows from row `index` on. */
    method DataByEntry(index: nat, count: nat) returns (buffer: seq<Row>)
      ensures buffer == Slice(rows, index, count)
    {
      buffer := [];
      if count != 0 {
        var skip := index;
        var i := 0;
        while i < |rows|
          invariant 0 <= i <= |rows|
          invariant skip == if i < index then index - i else 0
          invariant buffer == if i < index then [] else rows[index..i]
          invariant i >= index ==> |buffer| < count
        {
          if skip > 0 {
            skip := skip - 1;
          } else {
            buffer := buffer + [rows[i]];
          }
          i := i + 1;
          if |buffer| == count {
            break;
          }
        }
      }
    }
  }

  class ValueEventArg {
    const attribute: nat
    const query: Query
    const rowToPdu: nat
    var rowBeginIndex: nat
    var rowEndIndex: nat

    constructor (attribute: nat, query: Query, rowToPdu: nat)
      ensures this.attribute == attribute && this.query == query && this.rowToPdu == rowToPdu
      ensures rowBeginIndex == 0 && rowEndIndex == 0
    {
      this.attribute, this.query, this.rowToPdu := attribute, query, rowToPdu;
      rowBeginIndex, rowEndIndex := 0, 0;
    }

    method SetRowBeginIndex(value: nat)
      modifies this`rowBeginIndex
      ensures rowBeginIndex == value % 0x1_0000
    {
      rowBeginIndex := value % 0x1_0000;
    }

    method SetRowEndIndex(value: nat)
      modifies this`rowEndIndex
      ensures rowEndIndex == value % 0x1_0000
    {
      rowEndIndex := value % 0x1_0000;
    }
  }

  /** A fresh log: numbered from 1, one hour apart, the last row at the start of the current hour. */
  lemma HourlyRows(now: int, rowCount: nat)
    ensures var rows := Hourly(now, rowCount);
      && (forall i :: 0 <= i < rowCount ==> rows[i].value == i + 1)
      && (forall i :: 0 <= i < rowCount - 1 ==> rows[i + 1].time == rows[i].time + 3600)
      && (rowCount > 0 ==> rows[rowCount - 1].time <= now < rows[rowCount - 1].time + 3600
                           && rows[rowCount - 1].time % 3600 == 0)
  {
  }

  lemma UpToRest(rows: seq<Row>, end: int, i: nat)
    requires i < |rows|
    ensures UpTo(rows[i..], end) == if rows[i].time > end then 0 else 1 + UpTo(rows[i + 1..], end)
  {
    assert rows[i..][1..] == rows[i + 1..];
  }

  lemma CountBeforeNext(rows: seq<Row>, start: int, i: nat)
    requires i < |rows|
    ensures CountBefore(rows[..i + 1], start)
         == CountBefore(rows[..i], start) + (if rows[i].time < start then 1 else 0)
  {
    assert rows[..i + 1][..i] == rows[..i];
  }

  lemma WrapNext(n: nat)
    ensures (n % 0x1_0000 + 1) % 0x1_0000 == (n + 1) % 0x1_0000
  {
  }

  /** Scans the file for a time range, moving both window fields of the request. */
  method DataByRange(file: LogFile, e: ValueEventArg, start: int, end: int)
    requires e.rowBeginIndex < 0x1_0000 && e.rowEndIndex == 0
    modifies e
    ensures (e.rowBeginIndex, e.rowEndIndex) == Window(file.rows, old(e.rowBeginIndex), Range(start, end))
  {
    hide UpTo, CountBefore;
    ghost var rows, n, b := file.rows, UpTo(file.rows, end), e.rowBeginIndex;
    var i := 0;
    assert rows[0..] == rows && CountBefore(rows[..0], start) == 0;
    while i < |file.rows|
      invariant 0 <= i <= |rows| && file.rows == rows
      invariant n == i + UpTo(rows[i..], end)
      invariant e.rowBeginIndex == (b + CountBefore(rows[..i], start)) % 0x1_0000
      invariant e.rowEndIndex == i % 0x1_0000
    {
      UpToRest(rows, end, i);
      CountBeforeNext(rows, start, i);
      WrapNext(b + CountBefore(rows[..i], start));
      WrapNext(i);
      var tm := file.rows[i].time;
      if tm > end {
        break;
      }
      if tm < start {
        e.SetRowBeginIndex(e.rowBeginIndex + 1);
      }
      e.SetRowEndIndex(e.rowEndIndex + 1);
      i := i + 1;
    }
    assert n == i;
  }

  class ProfileGeneric {
    var buffer: seq<Row>
    var entriesInUse: nat
  }

  /** The first read of a request: the window its selector asks for. */
  method OpenWindow(file: LogFile, e: ValueEventArg)
    requires e.rowBeginIndex < 0x1_0000 && e.rowEndIndex == 0
    modifies e
    ensures (e.rowBeginIndex, e.rowEndIndex) == Window(file.rows, old(e.rowBeginIndex), e.query)
    ensures e.rowBeginIndex < 0x1_0000 && e.rowEndIndex < 0x1_0000
    ensures e.query.All? && |file.rows| < 0x1_0000 ==>
              e.rowBeginIndex == old(e.rowBeginIndex) && e.rowEndIndex == |file.rows|
    ensures e.query.Entry? && e.query.first < 0x1_0000 && e.query.last < 0x1_0000 && |file.rows| < 0x1_0000 ==>
              && e.rowBeginIndex == e.query.first
              && e.rowEndIndex == if e.query.last <= |file.rows| then e.query.last else |file.rows|
  {
    hide UpTo, CountBefore;
    var cnt := file.DataCount();
    match e.query {
      case All =>
        e.SetRowEndIndex(cnt);
      case Range(start, end) =>
        DataByRange(file, e, start, end);
      case Entry(begin, end) =>
        e.SetRowBeginIndex(begin);
        e.SetRowEndIndex(end);
        if e.rowEndIndex > cnt {
          e.SetRowEndIndex(cnt);
        }
    }
  }

  /** The profile part of the server's read callback. */
  method PreRead(file: LogFile, e: ValueEventArg, p: ProfileGeneric)
    requires e.rowBeginIndex < 0x1_0000 && e.rowEndIndex < 0x1_0000
    modifies e, p
    ensures e.attribute == 7 ==> p.entriesInUse == |file.rows| && p.buffer == old(p.buffer)
    ensures e.attribute != 7 ==> p.entriesInUse == old(p.entriesInUse)
    ensures e.attribute != 2 ==> e.rowBeginIndex == old(e.rowBeginIndex) && e.rowEndIndex == old(e.rowEndIndex)
    ensures e.attribute == 2 ==>
              && (e.rowBeginIndex, e.rowEndIndex)
                 == (if old(e.rowEndIndex) == 0 then Window(file.rows, old(e.rowBeginIndex), e.query)
                     else old((e.rowBeginIndex, e.rowEndIndex)))
              && p.buffer == Slice(file.rows, e.rowBeginIndex, PageSize(e.rowBeginIndex, e.rowEndIndex, e.rowToPdu))
  {
    hide UpTo, CountBefore, Slice, Window;
    if e.attribute == 7 {
      p.entriesInUse := file.DataCount();
    } else if e.attribute == 2 {
      if e.rowEndIndex == 0 {
        OpenWindow(file, e);
      }
      var left := (e.rowEndIndex - e.rowBeginIndex) % 0x1_0000_0000;
      var count := left + 1;
      if left > e.rowToPdu {
        count := e.rowToPdu;
      }
      p.buffer := file.DataByEntry(e.rowBeginIndex, count);
    }
  }

  // ---- The log over time ----

  /** A capture, or the clear action. */
  datatype LogEvent = Captured(now: int, reading: Option<int>) | Cleared(now: int)

  function LogStep(rows: seq<Row>, e: LogEvent): seq<Row> {
    match e
    case Captured(now, reading) => rows + [Row(now, if reading.Some? then reading.value else |rows| + 1)]
    case Cleared(_) => []
  }

  function LogAfter(rows: seq<Row>, run: seq<LogEvent>): seq<Row> {
    if run == [] then rows else LogStep(LogAfter(rows, run[..|run| - 1]), run[|run| - 1])
  }

  /** Where the events since the last clear begin. */
  function SinceClear(run: seq<LogEvent>): (c: nat)
    ensures c <= |run|
  {
    if run == [] then 0 else if run[|run| - 1].Cleared? then |run| else SinceClear(run[..|run| - 1])
  }

  /** After every run the log holds what it held before, unless it was cleared, and then the captures
      since, each once and in order; a register without a value was given its row number. */
  lemma {:induction false} LogHoldsCaptures(rows: seq<Row>, run: seq<LogEvent>)
    ensures var c, log := SinceClear(run), LogAfter(rows, run);
      var kept := if c == 0 then rows else [];
      && |log| == |kept| + (|run| - c) && log[..|kept|] == kept
      && forall t :: c <= t < |run| ==>
           && run[t].Captured?
           && log[|kept| + (t - c)]
              == Row(run[t].now, if run[t].reading.Some? then run[t].reading.value else |kept| + (t - c) + 1)
  {
    if run != [] {
      var n := |run| - 1;
      LogHoldsCaptures(rows, run[..n]);
      assert forall t :: 0 <= t < n ==> run[..n][t] == run[t];
    }
  }

  predicate MonotoneClock(start: int, run: seq<LogEvent>) {
    && (forall t :: 0 <= t < |run| ==> start <= run[t].now)
    && (forall t, u :: 0 <= t <= u < |run| ==> run[t].now <= run[u].now)
  }

  predicate NotAfter(rows: seq<Row>, now: int) {
    forall i :: 0 <= i < |rows| ==> rows[i].time <= now
  }

  /** Under a clock that does not run backwards the log stays sorted, captures and clears alike. */
  lemma {:induction false} LogStaysSorted(rows: seq<Row>, start: int, run: seq<LogEvent>)
    requires Sorted(rows) && NotAfter(rows, start) && MonotoneClock(start, run)
    ensures Sorted(LogAfter(rows, run))
    ensures NotAfter(LogAfter(rows, run), if run == [] then start else run[|run| - 1].now)
  {
    if run != [] {
      LogStaysSorted(rows, start, run[..|run| - 1]);
    }
  }

  /** From the freshly filled file on, every run of captures and clears keeps the log sorted. */
  lemma InitializedLogStaysSorted(now: int, rowCount: nat, run: seq<LogEvent>)
    requires MonotoneClock(now, run)
    ensures Sorted(LogAfter(Hourly(now, rowCount), run))
  {
    LogStaysSorted(Hourly(now, rowCount), now, run);
  }

  // ---- The range scan on a sorted log ----

  predicate InRange(row: Row, start: int, end: int) {
    start <= row.time <= end
  }

  lemma {:induction false} UpToSplits(rows: seq<Row>, end: int)
    requires Sorted(rows)
    ensures forall i :: 0 <= i < |rows| ==> (i < UpTo(rows, end) <==> rows[i].time <= end)
    decreases |rows|
  {
    if rows != [] && rows[0].time <= end {
      UpToSplits(rows[1..], end);
      assert forall i :: 1 <= i < |rows| ==> rows[i] == rows[1..][i - 1];
    }
  }

  lemma {:induction false} CountBeforeSplits(rows: seq<Row>, start: int)
    requires Sorted(rows)
    ensures forall i :: 0 <= i < |rows| ==> (i < CountBefore(rows, start) <==> rows[i].time < start)
  {
    if rows != [] {
      CountBeforeSplits(rows[..|rows| - 1], start);
    }
  }

  /** The window is exactly the rows of the range. */
  predicate WindowExact(rows: seq<Row>, start: int, end: int) {
    var (b, e) := Window(rows, 0, Range(start, end));
    forall i :: 0 <= i < |rows| ==> (b <= i < e <==> InRange(rows[i], start, end))
  }

  /** On a sorted log the window of a first scan is exact, unless the rows up to the end of the
      range outgrow the 16-bit window fields while some of them lie in the range. */
  lemma RangeIsWindow(rows: seq<Row>, start: int, end: int)
    requires Sorted(rows)
    ensures WindowExact(rows, start, end)
       <==> UpTo(rows, end) < 0x1_0000 || CountBefore(rows[..UpTo(rows, end)], start) == UpTo(rows, end)
  {
    var n := UpTo(rows, end);
    var b := CountBefore(rows[..n], start);
    hide UpTo, CountBefore;
    UpToSplits(rows, end);
    CountBeforeSplits(rows[..n], start);
    assert forall i :: 0 <= i < |rows| ==> (InRange(rows[i], start, end) <==> b <= i < n);
    if n >= 0x1_0000 && b < n {
      assert InRange(rows[n - 1], start, end);
    }
  }

  /** An inverted range gives an empty window. */
  lemma InvertedRangeIsEmpty(rows: seq<Row>, start: int, end: int)
    requires Sorted(rows) && end < start
    ensures var (b, e) := Window(rows, 0, Range(start, end)); b == e
  {
    var n := UpTo(rows, end);
    hide UpTo, CountBefore;
    UpToSplits(rows, end);
    CountBeforeSplits(rows[..n], start);
    assert n == 0 || rows[..n][n - 1].time <= end;
  }

  // ---- One page of a window ----

  /** The window fields of any query stay within the file's rows and 16 bits. */
  lemma WindowBounds(rows: seq<Row>, q: Query)
    requires |rows| < 0x1_0000
    ensures Window(rows, 0, q).0 < 0x1_0000 && Window(rows, 0, q).1 <= |rows|
    ensures !q.Entry? ==> Window(rows, 0, q).0 <= Window(rows, 0, q).1
  {
  }

  lemma SliceLength(rows: seq<Row>, index: nat, count: nat)
    ensures |Slice(rows, index, count)|
         == if index >= |rows| then 0 else if index + count <= |rows| then count else |rows| - index
  {
  }

  lemma SliceIs(rows: seq<Row>, index: nat, count: nat)
    requires index + count <= |rows|
    ensures Slice(rows, index, count) == rows[index..index + count]
  {
  }

  lemma PageSizeCases(begin: nat, end: nat, rowToPdu: nat)
    requires begin < 0x1_0000 && end < 0x1_0000 && rowToPdu < 0x1_0000
    ensures PageSize(begin, end, rowToPdu)
         == if begin > end || end - begin > rowToPdu then rowToPdu else end - begin + 1
  {
  }

  /** One page of a window inside the file: a full page, or the rest of the window and the row
      after it when the file has one. */
  lemma PageContents(rows: seq<Row>, begin: nat, end: nat, rowToPdu: nat)
    requires begin <= end <= |rows| < 0x1_0000 && rowToPdu < 0x1_0000
    ensures Slice(rows, begin, PageSize(begin, end, rowToPdu))
         == if end - begin > rowToPdu then rows[begin..begin + rowToPdu]
            else if end < |rows| then rows[begin..end + 1] else rows[begin..end]
  {
    hide PageSize;
    PageSizeCases(begin, end, rowToPdu);
  }
}
