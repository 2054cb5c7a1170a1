/** Reads of the load profile as it is set up: a date and time and an integer a row, whatever PDU
    size the client has asked for. */
module ProfileShipped {
  import opened ProfileLog
  import opened ProfileRead
  import opened ProfileExact
  import opened ProfileRange

  /** The bytes of so many rows, each a structure of two: an octet string of twelve bytes for the
      date and time and an integer of four, 2 + (2 + 12) + (1 + 4). */
  function RowsSize(n: nat): nat { 21 * n }

  /** The shipped profile; 12 + 2 bytes are reckoned for a row, two for a register of no fixed type. */
  predicate Shipped(rows: seq<Row>, link: Link) {
    && link.Valid() && SmallLog(rows) && link.rowToPdu == link.maxPdu / 14
    && forall i :: 0 <= i < |rows| ==> |link.encode(rows[i])| == RowsSize(1)
  }

  /** The bytes of an array announced with `count` rows, as far as it holds `n` of them. */
  function ArraySize(count: nat, n: nat): nat {
    1 + CountSize(count) + RowsSize(n)
  }

  // ---- Sizes ----

  lemma {:induction false} EncodedSize(rows: seq<Row>, link: Link)
    requires forall i :: 0 <= i < |rows| ==> |link.encode(rows[i])| == RowsSize(1)
    ensures |EncodeRows(link, rows)| == RowsSize(|rows|)
  {
    if rows != [] { EncodedSize(rows[..|rows| - 1], link); }
  }

  lemma SliceSize(rows: seq<Row>, link: Link, p: nat, n: nat)
    requires Shipped(rows, link) && (n == 0 || p + n <= |rows|)
    ensures |EncodeRows(link, Slice(rows, p, n))| == RowsSize(n)
  {
    EncodedSize(Slice(rows, p, n), link);
  }

  lemma HeadSize(rows: seq<Row>, q: Query)
    requires SmallLog(rows)
    ensures var (b, e) := Window(rows, 0, q);
      e <= |rows| && (b <= e ==> |HeadOf(b, e)| == ArraySize(e - b, 0))
  {
    WindowBounds(rows, q);
    hide Window, Head, CountSize;
    var (b, e) := Window(rows, 0, q);
    if b <= e { HeadOfSmall(b, e); }
  }

  lemma ArrayOf(head: seq<bv8>, rows: seq<bv8>, count: nat, n: nat)
    requires |head| == ArraySize(count, 0) && |rows| == RowsSize(n)
    ensures |head + rows| == ArraySize(count, n)
  {
    hide CountSize;
  }

  lemma AnswerSize(rows: seq<Row>, q: Query, link: Link, m: nat)
    requires Shipped(rows, link)
    requires var (b, e) := Window(rows, 0, q); b <= e && b <= m <= |rows|
    ensures var (b, e) := Window(rows, 0, q);
      |Answer(rows, q, link, m)| == ArraySize(e - b, m - b)
  {
    hide Window, EncodeRows, Slice, Shipped, HeadOf, ArraySize, RowsSize;
    ShippedVisible(rows, link);
    HeadSize(rows, q);
    var (b, e) := Window(rows, 0, q);
    SliceSize(rows, link, b, m - b);
    ArrayOf(HeadOf(b, e), EncodeRows(link, Slice(rows, b, m - b)), e - b, m - b);
  }

  lemma PageBounds(rows: seq<Row>, q: Query, link: Link, i: nat)
    requires Shipped(rows, link)
    requires Window(rows, 0, q).0 <= Window(rows, 0, q).1
    ensures Window(rows, 0, q).0 <= PageStart(rows, q, link, i) <= PageStart(rows, q, link, i + 1) <= |rows|
  {
    hide Window, NextBegin, PageStart, HeadOf, Shipped, Page, Carried, Stream, ArraySize;
    ShippedVisible(rows, link);
    HeadSize(rows, q);
    NextStart(rows, q, link, i);
    StartBounds(rows, q, link, i);
    NextBeginInside(|rows|, PageStart(rows, q, link, i), Window(rows, 0, q).1, link.rowToPdu);
  }

  /** The first page takes its rows and the array header. */
  lemma FirstPageLength(rows: seq<Row>, q: Query, link: Link)
    requires Shipped(rows, link)
    requires Window(rows, 0, q).0 <= Window(rows, 0, q).1
    ensures var (b, e) := Window(rows, 0, q);
      b <= PageStart(rows, q, link, 1) <= |rows|
      && |Page(rows, q, link, 0)| == ArraySize(e - b, PageStart(rows, q, link, 1) - b)
  {
    hide Window, PageStart, Page, Answer, ArraySize, Shipped;
    PageBounds(rows, q, link, 0);
    StartAtFirst(rows, q, link);
    FirstAnswer(rows, q, link);
    AnswerSize(rows, q, link, PageStart(rows, q, link, 1));
  }

  /** A further page takes its rows. */
  lemma PageLength(rows: seq<Row>, q: Query, link: Link, i: nat)
    requires Shipped(rows, link) && i > 0
    requires Window(rows, 0, q).0 <= Window(rows, 0, q).1
    ensures var (p, next) := (PageStart(rows, q, link, i), PageStart(rows, q, link, i + 1));
      Window(rows, 0, q).0 <= p <= next <= |rows| && |Page(rows, q, link, i)| == RowsSize(next - p)
  {
    hide Window, EncodeRows, Slice, Shipped, NextBegin, PageStart, Page, Carried, Stream, RowsSize;
    PageBounds(rows, q, link, i);
    NextPageOf(rows, q, link, i);
    var p := PageStart(rows, q, link, i);
    SliceSize(rows, link, p, PageStart(rows, q, link, i + 1) - p);
  }

  lemma NextBeginInside(n: nat, p: nat, e: nat, rowToPdu: nat)
    requires p <= n
    ensures p <= NextBegin(n, p, e, rowToPdu) <= n
  {
  }

  /** No first page is a multiple of 65536 bytes, so some of it is carried. */
  lemma ShippedSound(rows: seq<Row>, q: Query, link: Link)
    requires Shipped(rows, link)
    requires Window(rows, 0, q).0 <= Window(rows, 0, q).1 && Window(rows, 0, q).1 > 0
    ensures Sound(rows, q, link)
  {
    hide Window, Page, PageStart, Shipped, ArraySize, Carried;
    ShippedVisible(rows, link);
    HeadSize(rows, q);
    FirstPageLength(rows, q, link);
    FirstPageRows(rows, q, link);
    var (b, e) := Window(rows, 0, q);
    NeverWhole(e - b, PageStart(rows, q, link, 1) - b);
    CarriedPart(Page(rows, q, link, 0), ArraySize(e - b, PageStart(rows, q, link, 1) - b));
  }

  lemma FirstPageRows(rows: seq<Row>, q: Query, link: Link)
    requires Shipped(rows, link)
    requires Window(rows, 0, q).0 <= Window(rows, 0, q).1
    ensures PageStart(rows, q, link, 1) <= Window(rows, 0, q).0 + 4682
  {
    hide Window, Page, PageStart, Shipped, Carried, Stream, NextBegin, Head, HeadOf;
    ShippedVisible(rows, link);
    FirstPageOf(rows, q, link);
    var (b, e) := Window(rows, 0, q);
    ShortFirstPage(|rows|, b, e, link);
  }

  lemma ShortFirstPage(n: nat, b: nat, e: nat, link: Link)
    requires link.Valid() && b <= e
    ensures NextBegin(n, b, e, link.rowToPdu) - b <= link.rowToPdu + 1
  {
  }

  lemma NeverWhole(count: nat, n: nat)
    requires count < 0x1_0000 && n <= 4682
    ensures ArraySize(count, n) % 0x1_0000 != 0
  {
  }

  lemma CarriedPart(bytes: seq<bv8>, n: nat)
    requires |bytes| == n
    ensures |Carried(bytes)| == n % 0x1_0000
  {
  }

  // ---- Windows that end before the file does ----

  /** Losing 65536 bytes at a time never makes up for rows of 21 bytes in a log of fewer than 65536. */
  lemma NeverMadeUp(rows: int, lost: int)
    requires -0x1_0000 < rows < 0x1_0000 && 21 * rows == 0x1_0000 * lost
    ensures rows == 0
  {
    assert 53053 * 21 == 17 * 0x1_0000 + 1;
    assert rows == 0x1_0000 * (53053 * lost - 17 * rows);
  }

  /** Whatever is lost, the read of a window that ends before the file does is not exact. */
  lemma InsideNeverExact(rows: seq<Row>, q: Query, link: Link, k: nat)
    requires Shipped(rows, link) && Sound(rows, q, link) && Ready(rows, q, link)
    requires Window(rows, 0, q).0 <= Window(rows, 0, q).1 < |rows| && Responses(rows, q, link, k).final
    ensures Responses(rows, q, link, k).sent != Answer(rows, q, link, Window(rows, 0, q).1)
  {
    SmallSound(rows, q, link);
    hide Window, Answer, Responses, Ready, Sound, Shipped, Stream, Page, Cut, PageStart;
    if Cut(rows, q, link) { CutAtEnd(rows, q, link); }
    var (b, e) := Window(rows, 0, q);
    var i := ReadDelivers(rows, q, link, k);
    var lost := StreamLoses(rows, q, link, i);
    var m := PageStart(rows, q, link, i);
    StartBounds(rows, q, link, i);
    if m == e { StartPasses(rows, q, link, i); }
    AnswerSize(rows, q, link, m);
    AnswerSize(rows, q, link, e);
    if Responses(rows, q, link, k).sent == Answer(rows, q, link, e) {
      NeverMadeUp(m - e, lost);
    }
  }

  // ---- Windows to the end of the file ----

  lemma RowsToEnd(n: nat, b: nat, p: nat, rowToPdu: nat)
    requires b <= p <= n
    ensures var page := NextBegin(n, p, n, rowToPdu) - p;
      && page <= n - b && page <= rowToPdu
      && (p == b ==> page == if n - b <= rowToPdu then n - b else rowToPdu)
  {
  }

  /** The rows of the first page of a window of `count` rows to the end of the file. */
  function FirstRows(count: nat, link: Link): nat {
    if count <= link.rowToPdu then count else link.rowToPdu
  }

  /** The first page is the longest; when it fits its variant, all do. */
  lemma ShippedCarries(rows: seq<Row>, q: Query, link: Link)
    requires Shipped(rows, link)
    requires Window(rows, 0, q).0 <= Window(rows, 0, q).1 == |rows|
    ensures var c := Window(rows, 0, q).1 - Window(rows, 0, q).0;
      && (Carries(rows, q, link) <==> ArraySize(c, FirstRows(c, link)) < 0x1_0000)
      && |Page(rows, q, link, 0)| == ArraySize(c, FirstRows(c, link))
  {
    hide Window, Shipped, Page, NextBegin, PageStart, CountSize;
    var (b, e) := Window(rows, 0, q);
    PageOfEnd(rows, q, link, 0);
    forall i: nat
      ensures |Page(rows, q, link, i)| <= |Page(rows, q, link, 0)|
    {
      PageOfEnd(rows, q, link, i);
    }
  }

  lemma PageOfEnd(rows: seq<Row>, q: Query, link: Link, i: nat)
    requires Shipped(rows, link)
    requires Window(rows, 0, q).0 <= Window(rows, 0, q).1 == |rows|
    ensures var c := Window(rows, 0, q).1 - Window(rows, 0, q).0;
      && |Page(rows, q, link, i)| <= ArraySize(c, FirstRows(c, link))
      && (i == 0 ==> |Page(rows, q, link, i)| == ArraySize(c, FirstRows(c, link)))
  {
    hide Window, Shipped, Page, NextBegin, PageStart, CountSize, Carried, Stream;
    PageBounds(rows, q, link, i);
    NextStart(rows, q, link, i);
    StartAtFirst(rows, q, link);
    RowsToEnd(|rows|, Window(rows, 0, q).0, PageStart(rows, q, link, i), link.rowToPdu);
    if i == 0 {
      FirstPageLength(rows, q, link);
    } else {
      PageLength(rows, q, link, i);
    }
  }

  lemma StartAtFirst(rows: seq<Row>, q: Query, link: Link)
    ensures PageStart(rows, q, link, 0) == Window(rows, 0, q).0
  {
    hide Window;
  }

  /** 14 bytes are reckoned for a row that takes 21, so a full page never fits a block. */
  lemma ShippedPages(rows: seq<Row>, q: Query, link: Link)
    requires Shipped(rows, link) && Carries(rows, q, link)
    requires Window(rows, 0, q).0 <= Window(rows, 0, q).1
    ensures PagesOverflow(rows, q, link)
  {
    hide Window, Shipped, Page, PageStart, Carried, Link.Fits;
    ReckonedTooSmall(rows, link);
    forall i: nat | PageStart(rows, q, link, i) + link.rowToPdu <= PageStart(rows, q, link, i + 1)
      ensures !link.Fits(|Carried(Page(rows, q, link, i))|)
    {
      FullPage(rows, q, link, i);
    }
  }

  lemma FullPage(rows: seq<Row>, q: Query, link: Link, i: nat)
    requires Shipped(rows, link) && |Page(rows, q, link, i)| < 0x1_0000
    requires Window(rows, 0, q).0 <= Window(rows, 0, q).1
    requires PageStart(rows, q, link, i) + link.rowToPdu <= PageStart(rows, q, link, i + 1)
    ensures !link.Fits(|Carried(Page(rows, q, link, i))|)
  {
    hide Window, Shipped, Page, PageStart, CountSize, Carried, Link.Fits;
    ReckonedTooSmall(rows, link);
    CarriedAll(Page(rows, q, link, i));
    if i == 0 {
      FirstPageLength(rows, q, link);
      StartAtFirst(rows, q, link);
    } else {
      PageLength(rows, q, link, i);
    }
    LongerDoesNotFit(link, RowsSize(link.rowToPdu), |Page(rows, q, link, i)|);
  }

  lemma ReckonedTooSmall(rows: seq<Row>, link: Link)
    requires Shipped(rows, link)
    ensures link.rowToPdu > 0 && !link.Fits(RowsSize(link.rowToPdu))
  {
  }

  lemma ShippedVisible(rows: seq<Row>, link: Link)
    requires Shipped(rows, link)
    ensures Visible(rows, link) && link.Valid() && SmallLog(rows) && link.rowToPdu == link.maxPdu / 14
  {
  }

  /** A first page that outgrows its variant loses bytes for good. */
  lemma OutgrownNeverExact(rows: seq<Row>, q: Query, link: Link, k: nat)
    requires Shipped(rows, link) && Sound(rows, q, link) && Ready(rows, q, link)
    requires Window(rows, 0, q).0 <= Window(rows, 0, q).1 == |rows| && |Page(rows, q, link, 0)| >= 0x1_0000
    requires Responses(rows, q, link, k).final
    ensures |Responses(rows, q, link, k).sent| < |Answer(rows, q, link, Window(rows, 0, q).1)|
  {
    ShippedVisible(rows, link);
    hide Window, Answer, Responses, Ready, Sound, Shipped, Stream, Page, Cut, PageStart, CountSize;
    var (b, e) := Window(rows, 0, q);
    var i := ReadDelivers(rows, q, link, k);
    var lost := StreamLoses(rows, q, link, i);
    var m := PageStart(rows, q, link, i);
    StartBounds(rows, q, link, i);
    AnswerSize(rows, q, link, m);
    AnswerSize(rows, q, link, e);
  }

  /** A response to `count` rows that is plain and loses its last byte. */
  predicate LosesByte(count: nat, link: Link) {
    OneTooMany(link, ArraySize(count, count))
  }

  /** A window to the end of the file is answered by its rows exactly when the first page fits its
      variant and no plain response loses its last byte. */
  lemma EndExactIff(rows: seq<Row>, q: Query, link: Link, k: nat)
    requires Shipped(rows, link) && Sound(rows, q, link) && Ready(rows, q, link)
    requires Window(rows, 0, q).0 <= Window(rows, 0, q).1 == |rows|
    requires Responses(rows, q, link, k).final
    ensures var (b, e) := Window(rows, 0, q);
      Responses(rows, q, link, k).sent == Answer(rows, q, link, e)
      <==> ArraySize(e - b, FirstRows(e - b, link)) < 0x1_0000 && !LosesByte(e - b, link)
  {
    hide Shipped, Carries, PagesOverflow, Sound, Responses, Ready, Window, Page, Answer, PageStart, Cut, Visible;
    hide ArraySize;
    ShippedVisible(rows, link);
    ShippedCarries(rows, q, link);
    if Carries(rows, q, link) {
      ShippedPages(rows, q, link);
      AnswerExactIff(rows, q, link, k);
      CutIs(rows, q, link);
      AnswerSize(rows, q, link, |rows|);
      LossIsShort(Window(rows, 0, q).1 - Window(rows, 0, q).0, rows, link);
    } else {
      OutgrownNeverExact(rows, q, link, k);
    }
  }

  lemma LossIsShort(count: nat, rows: seq<Row>, link: Link)
    requires Shipped(rows, link)
    ensures LosesByte(count, link) ==> count <= link.rowToPdu
  {
  }

  // ---- Time ranges ----

  /** The shipped profile, at every PDU size: each read of a time range comes to a final response. It
      has then brought exactly the rows of the range if and only if every row is later than it; or no
      row is, the first page fits its variant, and no plain response loses its last byte. */
  lemma ShippedRange(rows: seq<Row>, start: int, end: int, link: Link) returns (k: nat)
    requires Shipped(rows, link) && Sorted(rows)
    ensures Ready(rows, Range(start, end), link) && Responses(rows, Range(start, end), link, k).final
    ensures var c := |Within(rows, start, end)|;
      Responses(rows, Range(start, end), link, k).sent == RangeAnswer(rows, start, end, link)
      <==> || UpTo(rows, end) == 0
           || (UpTo(rows, end) == |rows| && ArraySize(c, FirstRows(c, link)) < 0x1_0000 && !LosesByte(c, link))
  {
    var q := Range(start, end);
    ShippedVisible(rows, link);
    RangeWindowEnd(rows, start, end);
    WithinIsWindow(rows, start, end);
    hide Shipped, Carries, PagesOverflow, Sorted, SmallLog, Responses, Ready, UpTo, Window, RangeAnswer, Within;
    hide RangeCut, LosesByte, ArraySize, FirstRows, Visible, Page, Answer, PageStart, Sound;
    var (b, e) := Window(rows, 0, q);
    if e == 0 {
      RangeBeforeFirstRow(rows, start, end, link);
      k := 0;
      RangeExactIff(rows, start, end, link, k);
    } else {
      ShippedSound(rows, q, link);
      SoundReady(rows, q, link);
      k := ReadEnds(rows, q, link, 0);
      RangeAnswerIs(rows, start, end, link);
      if e < |rows| {
        InsideNeverExact(rows, q, link, k);
      } else {
        EndExactIff(rows, q, link, k);
      }
    }
  }

  // ---- The whole log ----

  /** A read without selector, at every PDU size: it comes to a final response, and has then brought
      exactly the log if and only if the first page fits its variant and no plain response loses its
      last byte. An empty log is answered by an empty array. */
  lemma ShippedAll(rows: seq<Row>, link: Link) returns (k: nat)
    requires Shipped(rows, link)
    ensures Ready(rows, All, link) && Responses(rows, All, link, k).final
    ensures Responses(rows, All, link, k).sent == Head(|rows|) + EncodeRows(link, rows)
       <==> && 1 + CountSize(|rows|) + 21 * FirstRows(|rows|, link) < 0x1_0000
            && (link.ciphering || 3 + 1 + CountSize(|rows|) + 21 * |rows| != link.maxPdu)
    ensures rows == [] ==> Responses(rows, All, link, k).sent == [0x01, 0x00]
  {
    ShippedVisible(rows, link);
    AllWindow(rows);
    if rows == [] {
      EmptyLog(rows, link);
      k := 0;
    } else {
      hide Shipped, Sound, Responses, Ready, Window, Answer, Head, EncodeRows, CountSize;
      ShippedSound(rows, All, link);
      SoundReady(rows, All, link);
      k := ReadEnds(rows, All, link, 0);
      EndExactIff(rows, All, link, k);
      AllAnswer(rows, link);
    }
  }

  lemma AllWindow(rows: seq<Row>)
    requires SmallLog(rows)
    ensures Window(rows, 0, All) == (0, |rows|)
  {
  }

  lemma AllAnswer(rows: seq<Row>, link: Link)
    requires SmallLog(rows)
    ensures Answer(rows, All, link, |rows|) == Head(|rows|) + EncodeRows(link, rows)
  {
    hide Head, EncodeRows;
    SliceIs(rows, 0, |rows|);
    HeadOfSmall(0, |rows|);
    assert rows[0..|rows|] == rows;
  }

  lemma EmptyLog(rows: seq<Row>, link: Link)
    requires link.Valid() && rows == []
    ensures Ready(rows, All, link)
    ensures Responses(rows, All, link, 0) == Reader(0, 0, 0, 0, [], [0x01, 0x00], true)
    ensures Head(|rows|) + EncodeRows(link, rows) == [0x01, 0x00]
  {
    FreshFields(rows, All);
    EmptyHead();
    NoRows(link);
    CarriedAll(Head(0));
    hide Head, Window, Fields, CountSize, Carried;
    assert Buffer(rows, All, link, Fresh(rows, All)) == [];
    var added := AddPage(rows, All, link, Fresh(rows, All));
    assert [] + Head(0) == Head(0) && Head(0) + [] == Head(0);
    assert added == Reader(0, 0, 0, 0, Head(0), [], false);
    assert Head(0)[..|Head(0)|] == Head(0);
  }

  lemma EmptyHead()
    ensures Head(0) == [0x01, 0x00]
  {
  }

  // ---- Two ranges over the whole log ----

  lemma {:induction false} UpToAll(rows: seq<Row>, end: int)
    requires forall i :: 0 <= i < |rows| ==> rows[i].time <= end
    ensures UpTo(rows, end) == |rows|
  {
    if rows != [] { UpToAll(rows[1..], end); }
  }

  lemma {:induction false} NoneBefore(rows: seq<Row>, start: int)
    requires forall i :: 0 <= i < |rows| ==> start <= rows[i].time
    ensures CountBefore(rows, start) == 0
  {
    if rows != [] { NoneBefore(rows[..|rows| - 1], start); }
  }

  lemma WindowOfAll(rows: seq<Row>, start: int, end: int)
    requires SmallLog(rows)
    requires forall i :: 0 <= i < |rows| ==> InRange(rows[i], start, end)
    ensures Window(rows, 0, Range(start, end)) == (0, |rows|)
  {
    hide UpTo, CountBefore;
    UpToAll(rows, end);
    NoneBefore(rows, start);
    assert rows[..|rows|] == rows;
  }

  /** The first response to a window that is cut is final: it leaves a byte that nobody asks for. */
  lemma CutAtOnce(rows: seq<Row>, q: Query, link: Link, k: nat)
    requires Sound(rows, q, link) && Ready(rows, q, link) && Cut(rows, q, link)
    ensures var r := Responses(rows, q, link, k);
      r.final && !r.Over() && |r.sent| == link.maxPdu - 4 && |r.pending| == 1
  {
    hide Window, Sound, Ready, Responses, Opened, PageStart, Page, Carried, Stream, Announced;
    ResponsesFirst(rows, q, link);
    OpenedInStep(rows, q, link);
    StaysFinal(rows, q, link, 0, k);
    FirstPageOf(rows, q, link);
  }

  /** Three rows, PDUs of 68 bytes, no ciphering: 64 of 65 bytes arrive. */
  lemma ThreeRowsLoseAByte(rows: seq<Row>, start: int, end: int, link: Link, k: nat)
    requires Shipped(rows, link) && |rows| == 3 && link.maxPdu == 68 && !link.ciphering
    requires forall i :: 0 <= i < |rows| ==> InRange(rows[i], start, end)
    ensures Ready(rows, Range(start, end), link)
    ensures var r := Responses(rows, Range(start, end), link, k);
      r.final && !r.Over() && |r.sent| == 64 && |r.pending| == 1
  {
    var q := Range(start, end);
    ShippedVisible(rows, link);
    WindowOfAll(rows, start, end);
    assert link.rowToPdu == 4;
    hide Window, Ready, Page, Carried, Responses, Sound;
    ShippedSound(rows, q, link);
    SoundReady(rows, q, link);
    FirstPageOf(rows, q, link);
    PageOfEnd(rows, q, link, 0);
    CarriedAll(Page(rows, q, link, 0));
    CutAtOnce(rows, q, link, k);
  }

  /** A first page that fits a block, cut to its variant as it is, is all the client gets. */
  lemma FitsAtOnce(rows: seq<Row>, q: Query, link: Link, k: nat)
    requires Sound(rows, q, link) && Ready(rows, q, link) && !Cut(rows, q, link)
    requires link.Fits(|Carried(Page(rows, q, link, 0))|)
    ensures var r := Responses(rows, q, link, k);
      r.final && r.Over() && r.sent == Carried(Page(rows, q, link, 0))
  {
    hide Window, Sound, Ready, Responses, Opened, AddPage, Send, Fresh, Waiting, PageStart, Page, Carried;
    hide Stream, Announced, Defined, Link.Fits, Cut;
    ReadyFresh(rows, q, link);
    var added := AddPage(rows, q, link, Fresh(rows, q));
    FreshWaiting(rows, q, link);
    WaitingBegin(rows, q, link, added, 1);
    SendKeeps(link, added, true);
    OpenedIsSent(rows, q, link);
    OpenedInStep(rows, q, link);
    ResponsesFirst(rows, q, link);
    StaysFinal(rows, q, link, 0, k);
    FirstPageOf(rows, q, link);
    var sent := Send(link, added, true).sent;
    assert sent + [] == sent && [] + added.pending == added.pending;
  }

  /** Ten thousand rows, PDUs of 65535 bytes: 32769 of the 98305 bytes of the first page go out in
      what is said to be the last block, and row 1561 breaks off. */
  lemma TenThousandRowsBreakOff(rows: seq<Row>, start: int, end: int, link: Link, k: nat)
    requires Shipped(rows, link) && |rows| == 10000 && link.maxPdu == 65535
    requires forall i :: 0 <= i < |rows| ==> InRange(rows[i], start, end)
    ensures Ready(rows, Range(start, end), link)
    ensures var r := Responses(rows, Range(start, end), link, k);
      r.final && r.Over() && |r.sent| == 32769
    ensures ArraySize(10000, 1560) < 32769 < ArraySize(10000, 1561)
  {
    var q := Range(start, end);
    ShippedVisible(rows, link);
    WindowOfAll(rows, start, end);
    hide Window, Ready, Page, Responses, Shipped, Carried, PageStart, CountSize, InRange, Sound;
    ShippedSound(rows, q, link);
    SoundReady(rows, q, link);
    TenThousandRowsPaged(rows, q, link);
    CarriedPart(Page(rows, q, link, 0), 98305);
    FitsAtOnce(rows, q, link, k);
  }

  lemma TenThousandRowsPaged(rows: seq<Row>, q: Query, link: Link)
    requires Shipped(rows, link) && |rows| == 10000 && link.maxPdu == 65535
    requires Window(rows, 0, q) == (0, 10000)
    ensures link.rowToPdu == 4681
    ensures |Page(rows, q, link, 0)| == 98305 && PageStart(rows, q, link, 1) != 10000
  {
    assert link.rowToPdu == 4681;
    hide Window, Page, Shipped, PageStart, Stream, Carried;
    FirstPageOf(rows, q, link);
    PageOfEnd(rows, q, link, 0);
  }

  lemma OpenedIsSent(rows: seq<Row>, q: Query, link: Link)
    requires Ready(rows, q, link)
    ensures link.Valid() && SmallLog(rows) && Defined(rows, q, link, Fresh(rows, q))
    ensures Opened(rows, q, link) == Send(link, AddPage(rows, q, link, Fresh(rows, q)), true)
  {
    hide Defined, Fresh, AddPage, Send;
  }
}
