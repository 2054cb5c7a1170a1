/** Reads of the load profile by time range. */
module ProfileRange {
  import opened Basics
  import opened ProfileLog
  import opened ProfileRead
  import opened ProfileExact

  // ---- Time ranges, whatever they cover ----

  lemma {:induction false} WithinConcat(a: seq<Row>, b: seq<Row>, start: int, end: int)
    ensures Within(a + b, start, end) == Within(a, start, end) + Within(b, start, end)
    decreases |b|
  {
    if b == [] {
      assert a + b == a;
    } else {
      WithinConcat(a, b[..|b| - 1], start, end);
      assert (a + b)[..|a + b| - 1] == a + b[..|b| - 1];
    }
  }

  lemma {:induction false} WithinAll(rows: seq<Row>, start: int, end: int)
    requires forall i :: 0 <= i < |rows| ==> InRange(rows[i], start, end)
    ensures Within(rows, start, end) == rows
  {
    if rows != [] { WithinAll(rows[..|rows| - 1], start, end); }
  }

  lemma {:induction false} WithinNone(rows: seq<Row>, start: int, end: int)
    requires forall i :: 0 <= i < |rows| ==> !InRange(rows[i], start, end)
    ensures Within(rows, start, end) == []
  {
    if rows != [] { WithinNone(rows[..|rows| - 1], start, end); }
  }

  /** On a sorted log the rows of a range are those of its window. */
  lemma WithinIsWindow(rows: seq<Row>, start: int, end: int)
    requires Sorted(rows) && SmallLog(rows)
    ensures var (b, e) := Window(rows, 0, Range(start, end));
      b <= e <= |rows| && Within(rows, start, end) == rows[b..e]
  {
    hide Window, UpTo, CountBefore, Within, WindowExact, Sorted;
    RangeFits(rows, start, end);
    WindowBounds(rows, Range(start, end));
    var (b, e) := Window(rows, 0, Range(start, end));
    WithinParts(rows, b, e, start, end);
    OutsideWindow(rows, start, end);
    WithinNone(rows[..b], start, end);
    WithinAll(rows[b..e], start, end);
    WithinNone(rows[e..], start, end);
  }

  lemma RangeFits(rows: seq<Row>, start: int, end: int)
    requires Sorted(rows) && SmallLog(rows)
    ensures WindowExact(rows, start, end)
  {
    hide WindowExact, CountBefore;
    RangeIsWindow(rows, start, end);
  }

  lemma WithinParts(rows: seq<Row>, b: nat, e: nat, start: int, end: int)
    requires b <= e <= |rows|
    ensures Within(rows, start, end)
         == Within(rows[..b], start, end) + Within(rows[b..e], start, end) + Within(rows[e..], start, end)
  {
    hide Within;
    assert rows == rows[..b] + rows[b..e] + rows[e..];
    WithinConcat(rows[..b] + rows[b..e], rows[e..], start, end);
    WithinConcat(rows[..b], rows[b..e], start, end);
  }

  lemma OutsideWindow(rows: seq<Row>, start: int, end: int)
    requires WindowExact(rows, start, end) && SmallLog(rows)
    requires var (b, e) := Window(rows, 0, Range(start, end)); b <= e <= |rows|
    ensures var (b, e) := Window(rows, 0, Range(start, end));
      && (forall i :: 0 <= i < b ==> !InRange(rows[..b][i], start, end))
      && (forall i :: 0 <= i < e - b ==> InRange(rows[b..e][i], start, end))
      && (forall i :: 0 <= i < |rows| - e ==> !InRange(rows[e..][i], start, end))
  {
    hide Window, InRange;
    var (b, e) := Window(rows, 0, Range(start, end));
    assert forall i :: 0 <= i < b ==> rows[..b][i] == rows[i];
    assert forall i :: 0 <= i < e - b ==> rows[b..e][i] == rows[b + i];
    assert forall i :: 0 <= i < |rows| - e ==> rows[e..][i] == rows[e + i];
  }

  /** The right answer to a time range. */
  function RangeAnswer(rows: seq<Row>, start: int, end: int, link: Link): seq<bv8>
    requires SmallLog(rows)
  {
    WithinSize(rows, start, end);
    Head(|Within(rows, start, end)|) + EncodeRows(link, Within(rows, start, end))
  }

  /** Before the first row: the buffered row is filtered out again, and an empty array ends the read at once. */
  lemma RangeBeforeFirstRow(rows: seq<Row>, start: int, end: int, link: Link)
    requires link.Valid() && SmallLog(rows) && UpTo(rows, end) == 0
    ensures Ready(rows, Range(start, end), link)
    ensures var r := Responses(rows, Range(start, end), link, 0);
      r.final && r.Over() && r.sent == Head(0)
  {
    var q := Range(start, end);
    FreshFields(rows, q);
    EmptyWindow(rows, start, end);
    var buffer := Buffer(rows, q, link, Fresh(rows, q));
    EarlyBuffer(rows, q, link, start, end);
    hide Window, UpTo, Slice, PageSize, Head, Fields, Buffer;
    WithinNone(buffer, start, end);
    NoRows(link);
    var added := AddPage(rows, q, link, Fresh(rows, q));
    Regroup([], Head(0), []);
    assert Head(0) + [] == Head(0);
    assert added == Reader(0, 0, 0, 0, Head(0), [], false);
    assert Head(0)[..|Head(0)|] == Head(0);
  }

  lemma EmptyWindow(rows: seq<Row>, start: int, end: int)
    requires SmallLog(rows) && UpTo(rows, end) == 0
    ensures Window(rows, 0, Range(start, end)) == (0, 0)
  {
    assert rows[..0] == [];
  }

  lemma EarlyBuffer(rows: seq<Row>, q: Query, link: Link, start: int, end: int)
    requires link.Valid() && SmallLog(rows) && UpTo(rows, end) == 0 && q == Range(start, end)
    ensures forall i :: 0 <= i < |Buffer(rows, q, link, Fresh(rows, q))| ==>
      !InRange(Buffer(rows, q, link, Fresh(rows, q))[i], start, end)
  {
    FreshFields(rows, q);
    EmptyWindow(rows, start, end);
    hide Window, Fields;
    assert PageSize(0, 0, link.rowToPdu) == 1;
  }

  /** A window to the end of the file loses its last byte exactly when it is a single page that
      makes a plain response one byte too long. */
  lemma CutIs(rows: seq<Row>, q: Query, link: Link)
    requires Sound(rows, q, link) && Carries(rows, q, link)
    requires Window(rows, 0, q).0 <= Window(rows, 0, q).1 == |rows|
    ensures var (b, e) := Window(rows, 0, q);
      Cut(rows, q, link) <==> e - b <= link.rowToPdu && OneTooMany(link, |Answer(rows, q, link, e)|)
  {
    FirstPageOf(rows, q, link);
    FirstAnswer(rows, q, link);
    hide Window, NextBegin, Page, PageStart, Carried, Answer, OneTooMany;
    var (b, e) := Window(rows, 0, q);
    PageToEnd(e, b, link.rowToPdu);
    CarriedAll(Page(rows, q, link, 0));
  }

  lemma PageToEnd(n: nat, b: nat, rowToPdu: nat)
    requires b <= n
    ensures NextBegin(n, b, n, rowToPdu) == if n - b <= rowToPdu then n else b + rowToPdu
  {
  }

  /** The response to a time range has its last byte cut off. */
  predicate RangeCut(rows: seq<Row>, start: int, end: int, link: Link)
    requires SmallLog(rows)
  {
    |Within(rows, start, end)| <= link.rowToPdu && OneTooMany(link, |RangeAnswer(rows, start, end, link)|)
  }

  /** A time range is answered by exactly its rows if and only if no row of the log is later than
      the range and the last byte is not cut off, or every row is later. */
  lemma RangeExactIff(rows: seq<Row>, start: int, end: int, link: Link, k: nat)
    requires link.Valid() && SmallLog(rows) && Sorted(rows) && Visible(rows, link)
    requires UpTo(rows, end) > 0 ==>
               Carries(rows, Range(start, end), link) && PagesOverflow(rows, Range(start, end), link)
    requires Ready(rows, Range(start, end), link) && Responses(rows, Range(start, end), link, k).final
    ensures Responses(rows, Range(start, end), link, k).sent == RangeAnswer(rows, start, end, link)
       <==> UpTo(rows, end) == 0 || (UpTo(rows, end) == |rows| && !RangeCut(rows, start, end, link))
  {
    var q := Range(start, end);
    WithinIsWindow(rows, start, end);
    RangeWindowEnd(rows, start, end);
    hide Window, UpTo, Carries, PagesOverflow, Visible, Responses, Ready, Within, EncodeRows, Head, HeadOf;
    hide Cut, OneTooMany, Answer;
    var (b, e) := Window(rows, 0, q);
    if e == 0 {
      RangeBeforeFirstRow(rows, start, end, link);
      StaysFinal(rows, q, link, 0, k);
      NoRows(link);
      assert rows[b..e] == [];
      assert Head(0) + [] == Head(0);
    } else {
      RangeAnswerIs(rows, start, end, link);
      CarriesSound(rows, q, link);
      hide Sound;
      AnswerExactIff(rows, q, link, k);
      if e == |rows| { CutIs(rows, q, link); }
    }
  }

  lemma RangeWindowEnd(rows: seq<Row>, start: int, end: int)
    requires SmallLog(rows)
    ensures Window(rows, 0, Range(start, end)).1 == UpTo(rows, end)
  {
  }

  lemma RangeAnswerIs(rows: seq<Row>, start: int, end: int, link: Link)
    requires Sorted(rows) && SmallLog(rows)
    requires Window(rows, 0, Range(start, end)).0 <= Window(rows, 0, Range(start, end)).1
    ensures RangeAnswer(rows, start, end, link)
         == Answer(rows, Range(start, end), link, Window(rows, 0, Range(start, end)).1)
  {
    hide Window, Within, EncodeRows, Head, HeadOf, Sorted, Slice;
    WithinIsWindow(rows, start, end);
    var (b, e) := Window(rows, 0, Range(start, end));
    SliceIs(rows, b, e - b);
    HeadOfSmall(b, e);
  }

  lemma HeadOfSmall(b: nat, e: nat)
    requires b <= e < 0x1_0000
    ensures HeadOf(b, e) == Head(e - b)
  {
    hide Head;
    assert (e - b) % 0x1_0000_0000 == e - b;
  }
}
