/** Reads of the load profile by row number. A client counts rows from 1; the read callback takes the
    first number for a row index. */
module ProfileEntries {
  import opened Basics
  import opened Bytes
  import opened ProfileLog
  import opened ProfileRead
  import opened ProfileExact
  import opened ProfileShipped

  // ---- A first and last row number of zero ----

  /** Rows 0 to 0: the first row of the log, and the read is over at once when it fits a block. */
  lemma RowsZeroToZero(rows: seq<Row>, link: Link)
    requires link.Valid() && SmallLog(rows) && rows != []
    requires 2 + |link.encode(rows[0])| < 0x1_0000
    ensures Ready(rows, Entry(0, 0), link)
    ensures var r := Responses(rows, Entry(0, 0), link, 0);
      r.final && r.sent == Head(1) + EncodeRows(link, rows[..1])
      <==> link.Fits(|Head(1) + EncodeRows(link, rows[..1])|)
  {
    var q := Entry(0, 0);
    FirstRowAdded(rows, link);
    hide Window, EncodeRows, Head, Send, AddPage, Fresh, Link.Fits, Ready;
    ReadyFresh(rows, q, link);
    ResponsesFirst(rows, q, link);
    var added := AddPage(rows, q, link, Fresh(rows, q));
    SendKeeps(link, added, true);
    var sent := Send(link, added, true).sent;
    assert sent + [] == sent && [] + added.pending == added.pending;
  }

  lemma FirstRowAdded(rows: seq<Row>, link: Link)
    requires link.Valid() && SmallLog(rows) && rows != []
    requires 2 + |link.encode(rows[0])| < 0x1_0000
    ensures Ready(rows, Entry(0, 0), link)
    ensures AddPage(rows, Entry(0, 0), link, Fresh(rows, Entry(0, 0)))
         == Reader(0, 0, 1, 0, Head(1) + EncodeRows(link, rows[..1]), [], false)
  {
    var q := Entry(0, 0);
    assert Window(rows, 0, q) == (0, 0);
    FreshFields(rows, q);
    assert PageSize(0, 0, link.rowToPdu) == 1;
    hide Window, PageSize, Fields;
    assert Buffer(rows, q, link, Fresh(rows, q)) == rows[..1];
    assert rows[..1][0..] == rows[..1];
    assert Table(q, 0, rows[..1]) == rows[..1];
    OneRow(rows, link);
    hide Buffer, Table, EncodeRows, Head, Carried;
    var bytes := Head(1) + EncodeRows(link, rows[..1]);
    CarriedAll(bytes);
    assert [] + bytes == bytes;
  }

  lemma OneRow(rows: seq<Row>, link: Link)
    requires rows != []
    ensures EncodeRows(link, rows[..1]) == link.encode(rows[0])
  {
    assert rows[..1][..0] == [];
  }

  // ---- Rows by number ----

  /** The right answer to a request for the rows of numbers `first` to `last`. */
  function NumberedAnswer(rows: seq<Row>, first: nat, last: nat, link: Link): seq<bv8>
    requires 1 <= first <= last <= |rows| < 0x1_0000
  {
    Head(last - first + 1) + EncodeRows(link, rows[first - 1..last])
  }

  /** The count at the start of an encoded array. */
  function AnnouncedCount(bytes: seq<bv8>): nat {
    if |bytes| < 2 then 0
    else if bytes[1] == 0x81 then (if |bytes| < 3 then 0 else Value(bytes[2]))
    else if bytes[1] == 0x82 then (if |bytes| < 4 then 0 else 0x100 * Value(bytes[2]) + Value(bytes[3]))
    else Value(bytes[1])
  }

  lemma SmallByte(n: nat)
    requires n < 0x80
    ensures ByteOf(n) != 0x81 && ByteOf(n) != 0x82
  {
    ByteKeeps(n);
    assert Value(0x81) == 129 && Value(0x82) == 130;
  }

  lemma HeadAnnounces(count: nat, rest: seq<bv8>)
    requires count < 0x1_0000
    ensures AnnouncedCount(Head(count) + rest) == count
  {
    hide Value, ByteOf;
    if count < 0x80 {
      SmallByte(count);
      ByteKeeps(count);
    } else if count < 0x100 {
      ByteKeeps(count);
    } else {
      ByteKeeps(count / 0x100);
      ByteKeeps(count % 0x100);
    }
  }

  lemma AnswerOf(rows: seq<Row>, first: nat, last: nat, link: Link, m: nat)
    requires 1 <= first <= last <= |rows| < 0x1_0000
    requires first <= m <= |rows|
    ensures Window(rows, 0, Entry(first, last)) == (first, last)
    ensures Answer(rows, Entry(first, last), link, m) == Head(last - first) + EncodeRows(link, rows[first..m])
  {
    hide Head, EncodeRows;
    assert Window(rows, 0, Entry(first, last)) == (first, last);
    SliceIs(rows, first, m - first);
  }

  lemma DeliversPrefix(rows: seq<Row>, q: Query, link: Link, k: nat)
    requires Sound(rows, q, link) && Ready(rows, q, link) && Carries(rows, q, link)
    requires Responses(rows, q, link, k).final
    ensures var r := Responses(rows, q, link, k);
      && Window(rows, 0, q).0 <= r.begin && r.sent <= Answer(rows, q, link, r.begin)
      && (r.Over() ==> r.sent == Answer(rows, q, link, r.begin))
      && (!r.Over() ==> |r.sent| >= 6)
  {
    SmallSound(rows, q, link);
    hide Window, Ready, Responses, Sound, Carries, Cut, Answer;
    WholeDelivers(rows, q, link, k);
  }

  /** Rows `first` to `last` by number: what arrives starts with row number `first + 1`, is announced
      with one row less, and goes to the end of the log or one row past `last`; it is never what was
      asked for. */
  lemma RowNumbersShifted(rows: seq<Row>, first: nat, last: nat, link: Link, k: nat)
    requires link.Valid() && 1 <= first <= last <= |rows| < 0x1_0000
    requires Carries(rows, Entry(first, last), link) && PagesOverflow(rows, Entry(first, last), link)
    requires Ready(rows, Entry(first, last), link) && Responses(rows, Entry(first, last), link, k).final
    ensures var r := Responses(rows, Entry(first, last), link, k);
      && first <= r.begin <= |rows| && (r.begin == |rows| || r.begin == last + 1)
      && r.sent <= Head(last - first) + EncodeRows(link, rows[first..r.begin])
      && (r.Over() ==> r.sent == Head(last - first) + EncodeRows(link, rows[first..r.begin]))
    ensures Responses(rows, Entry(first, last), link, k).sent != NumberedAnswer(rows, first, last, link)
  {
    var q := Entry(first, last);
    AnswerOf(rows, first, last, link, last);
    hide Window, Carries, PagesOverflow, Ready, Responses, Answer, EncodeRows, Head, AnnouncedCount, Link.Valid;
    hide Sound;
    CarriesSound(rows, q, link);
    DeliversPrefix(rows, q, link, k);
    EndOfRead(rows, q, link, k);
    FinalBegin(rows, q, link, k);
    var r := Responses(rows, q, link, k);
    AnswerOf(rows, first, last, link, r.begin);
    HeadDiffers(rows, first, last, link, r.begin, r.sent);
  }

  lemma HeadDiffers(rows: seq<Row>, first: nat, last: nat, link: Link, m: nat, sent: seq<bv8>)
    requires 1 <= first <= last <= |rows| < 0x1_0000 && first <= m <= |rows|
    requires sent <= Head(last - first) + EncodeRows(link, rows[first..m])
    requires |Head(last - first)| <= |sent|
    ensures sent != NumberedAnswer(rows, first, last, link)
  {
    hide Head, EncodeRows, AnnouncedCount;
    var head := Head(last - first);
    assert sent == head + sent[|head|..];
    HeadAnnounces(last - first, sent[|head|..]);
    HeadAnnounces(last - first + 1, EncodeRows(link, rows[first - 1..last]));
  }

  // ---- Row 1 to the last ----

  // A last number of zero stands for the last row. The window then ends at zero, and every page is
  // read from row index 1 again.

  /** The rows of every page. */
  function RowsAgain(rows: seq<Row>, link: Link): nat {
    if |rows| > link.rowToPdu then link.rowToPdu else if rows == [] then 0 else |rows| - 1
  }

  predicate Circling(rows: seq<Row>, link: Link, r: Reader) {
    && r.begin == 1 && r.end == 0 && r.index < 0x1_0000 && r.count == 0xFFFF
    && |r.pending| >= ArraySize(RowsAgain(rows, link), 0)
  }

  /** The first page, cut to its variant, fits a block. */
  predicate FirstFits(rows: seq<Row>, link: Link) {
    var n := RowsAgain(rows, link);
    link.Fits(ArraySize(n, n) % 0x1_0000)
  }

  lemma CircleFields(rows: seq<Row>, link: Link, r: Reader)
    requires Shipped(rows, link) && r.end == 0
    ensures Window(rows, 0, Entry(1, 0)) == (1, 0) && Fields(rows, Entry(1, 0), r) == (1, 0)
    ensures |Buffer(rows, Entry(1, 0), link, r)| == RowsAgain(rows, link)
    ensures |EncodeRows(link, Buffer(rows, Entry(1, 0), link, r))| == RowsSize(RowsAgain(rows, link))
  {
    assert Fields(rows, Entry(1, 0), r) == (1, 0);
    assert PageSize(1, 0, link.rowToPdu) == link.rowToPdu;
    hide Fields, PageSize, EncodeRows;
    EncodedSize(Buffer(rows, Entry(1, 0), link, r), link);
  }

  lemma CircleReady(rows: seq<Row>, link: Link)
    requires Shipped(rows, link)
    ensures Ready(rows, Entry(1, 0), link)
    ensures Fresh(rows, Entry(1, 0)) == Reader(0, 0, 0, 0xFFFF, [], [], false)
  {
    CircleFields(rows, link, Fresh(rows, Entry(1, 0)));
    hide Fields, Buffer;
  }

  lemma CircleTable(rows: seq<Row>, link: Link, r: Reader)
    requires Shipped(rows, link) && r.end == 0
    ensures Fields(rows, Entry(1, 0), r) == (1, 0)
    ensures TableDefined(Entry(1, 0), 0, Buffer(rows, Entry(1, 0), link, r))
    ensures var table := Table(Entry(1, 0), 0, Buffer(rows, Entry(1, 0), link, r));
      |table| == RowsAgain(rows, link) && |EncodeRows(link, table)| == RowsSize(|table|)
  {
    CircleFields(rows, link, r);
    hide Fields, Buffer, Window, EncodeRows, RowsAgain;
    var buffer := Buffer(rows, Entry(1, 0), link, r);
    assert buffer[0..] == buffer;
  }

  /** The bytes of a page: more than a block when the first does not fit one. */
  lemma PageHolds(link: Link, index: nat, table: seq<Row>)
    requires |table| <= 4681 && |EncodeRows(link, table)| == RowsSize(|table|)
    ensures var bytes := PageBytes(link, index, 1, 0, table);
      && (index == 0 ==> |Carried(bytes)| == ArraySize(|table|, |table|) % 0x1_0000)
      && (ArraySize(|table|, |table|) < 0x1_0000 ==> |Carried(bytes)| >= RowsSize(|table|))
  {
    hide EncodeRows, Head, RowsSize;
    var bytes := PageBytes(link, index, 1, 0, table);
    if |bytes| < 0x1_0000 { CarriedAll(bytes); }
    CarriedPart(bytes, |bytes|);
  }

  /** One page more. */
  lemma CirclePage(rows: seq<Row>, link: Link, r: Reader)
    requires Shipped(rows, link) && r.end == 0 && r.begin <= 1 && r.count == 0xFFFF
    requires Defined(rows, Entry(1, 0), link, r) && SmallLog(rows)
    ensures var added, n := AddPage(rows, Entry(1, 0), link, r), RowsAgain(rows, link);
      && added.begin == 1 && added.end == 0 && added.count == 0xFFFF && added.sent == r.sent
      && added.index == (r.index + n) % 0x1_0000 && |added.pending| >= |r.pending|
      && (r.index == 0 && r.pending == [] ==> |added.pending| == ArraySize(n, n) % 0x1_0000)
      && (ArraySize(n, n) < 0x1_0000 ==> |added.pending| >= |r.pending| + RowsSize(n))
  {
    RowsBound(rows, link);
    CircleTable(rows, link, r);
    var table := Table(Entry(1, 0), 0, Buffer(rows, Entry(1, 0), link, r));
    PageHolds(link, r.index, table);
    hide Fields, Buffer, Window, Table, PageBytes, ArraySize, RowsSize, RowsAgain, Carried;
  }

  lemma RowsBound(rows: seq<Row>, link: Link)
    requires Shipped(rows, link)
    ensures link.Valid() && SmallLog(rows) && RowsAgain(rows, link) <= 4681
    ensures 14 * RowsAgain(rows, link) <= link.maxPdu
  {
  }

  /** A first page that does not fit a block is carried whole. */
  lemma NotFittingIsWhole(rows: seq<Row>, link: Link)
    requires Shipped(rows, link) && !FirstFits(rows, link)
    ensures var n := RowsAgain(rows, link);
      0 < n && ArraySize(n, n) < 0x1_0000 && !link.Fits(ArraySize(n, n))
  {
    RowsBound(rows, link);
    hide RowsAgain, Shipped;
  }

  /** What a block that is not the last leaves is longer than the head of the array. */
  lemma BlockLeaves(rows: seq<Row>, link: Link, r: Reader, first: bool)
    requires Shipped(rows, link) && link.Valid() && r.pending != [] && !Send(link, r, first).final
    ensures |Send(link, r, first).pending| >= ArraySize(RowsAgain(rows, link), 0)
  {
    RowsBound(rows, link);
    hide RowsAgain, Shipped;
  }

  lemma LongerNeverFits(rows: seq<Row>, link: Link, n: nat, pending: nat, page: nat)
    requires !link.Fits(ArraySize(n, n)) && pending >= ArraySize(n, 0) && page >= pending + RowsSize(n)
    ensures !link.Fits(page)
  {
  }

  /** One response to a block request: a page more while the counters differ and less than a PDU waits,
      and then the block is not the last. */
  lemma CircleNext(rows: seq<Row>, link: Link, r: Reader)
    requires Shipped(rows, link) && !FirstFits(rows, link)
    requires Ready(rows, Entry(1, 0), link) && Bound(rows, Entry(1, 0), r)
    requires Circling(rows, link, r) && !r.final
    ensures var t := Next(rows, Entry(1, 0), link, r);
      && (r.index != 0xFFFF ==> !t.final)
      && (!t.final ==> Circling(rows, link, t) && |t.sent| >= |r.sent| + 32)
      && (!t.final ==>
            t.index == if WantsPage(link, r) then (r.index + RowsAgain(rows, link)) % 0x1_0000 else r.index)
      && (!t.final && !WantsPage(link, r) ==> |t.pending| < |r.pending|)
  {
    var q, n := Entry(1, 0), RowsAgain(rows, link);
    hide Shipped, FirstFits, AddPage, Send, Defined, Bound, Ready, RowsSize, RowsAgain, CountSize;
    RowsBound(rows, link);
    NotFittingIsWhole(rows, link);
    BoundDefined(rows, q, link, r);
    var added := if WantsPage(link, r) then AddPage(rows, q, link, r) else r;
    if WantsPage(link, r) {
      CirclePage(rows, link, r);
      LongerNeverFits(rows, link, n, |r.pending|, |added.pending|);
    }
    SendKeeps(link, added, false);
    SentSizes(added, Send(link, added, false));
    if !Send(link, added, false).final { BlockLeaves(rows, link, added, false); }
  }

  lemma SentSizes(r: Reader, t: Reader)
    requires t.sent + t.pending == r.sent + r.pending
    ensures |t.sent| + |t.pending| == |r.sent| + |r.pending|
  {
    assert |t.sent + t.pending| == |r.sent + r.pending|;
  }

  lemma CircleAdded(rows: seq<Row>, link: Link)
    requires Shipped(rows, link) && Ready(rows, Entry(1, 0), link)
    ensures link.Valid() && SmallLog(rows) && Defined(rows, Entry(1, 0), link, Fresh(rows, Entry(1, 0)))
    ensures var added := AddPage(rows, Entry(1, 0), link, Fresh(rows, Entry(1, 0)));
      && added.begin == 1 && added.end == 0 && added.count == 0xFFFF && added.sent == []
      && added.index == RowsAgain(rows, link) < 0xFFFF
      && added.pending != [] && (FirstFits(rows, link) <==> link.Fits(|added.pending|))
  {
    hide Shipped, FirstFits, AddPage, Defined, Ready, RowsSize, RowsAgain, ArraySize, Fresh;
    RowsBound(rows, link);
    CircleReady(rows, link);
    ReadyFresh(rows, Entry(1, 0), link);
    CirclePage(rows, link, Fresh(rows, Entry(1, 0)));
    FirstFitsIs(rows, link, AddPage(rows, Entry(1, 0), link, Fresh(rows, Entry(1, 0))).pending);
  }

  /** The response to the request is the only one exactly when the first page fits a block. */
  lemma CircleFirst(rows: seq<Row>, link: Link)
    requires Shipped(rows, link) && Ready(rows, Entry(1, 0), link)
    ensures var t := Responses(rows, Entry(1, 0), link, 0);
      && (t.final <==> FirstFits(rows, link))
      && (!t.final ==> Circling(rows, link, t) && t.index == RowsAgain(rows, link) && |t.sent| >= 32)
  {
    var q := Entry(1, 0);
    hide Shipped, FirstFits, AddPage, Send, Defined, Ready, Responses, Opened, RowsAgain, ArraySize, Fresh;
    hide Link.Fits;
    ResponsesFirst(rows, q, link);
    OpenedIsSent(rows, q, link);
    CircleAdded(rows, link);
    var added := AddPage(rows, q, link, Fresh(rows, q));
    SendKeeps(link, added, true);
    SentSizes(added, Send(link, added, true));
    if !Send(link, added, true).final { BlockLeaves(rows, link, added, true); }
  }

  lemma FirstFitsIs(rows: seq<Row>, link: Link, bytes: seq<bv8>)
    requires Shipped(rows, link)
    requires var n := RowsAgain(rows, link); |bytes| == ArraySize(n, n) % 0x1_0000
    ensures FirstFits(rows, link) <==> link.Fits(|bytes|)
    ensures bytes != []
  {
    RowsBound(rows, link);
    hide Shipped, RowsAgain, ArraySize;
    NeverWhole(RowsAgain(rows, link), RowsAgain(rows, link));
  }

  /** With an even number of rows a page the counters never agree: the read never ends, and the
      client gets the same rows over and over. */
  lemma {:induction false} EvenNeverEnds(rows: seq<Row>, link: Link, k: nat)
    requires Shipped(rows, link) && !FirstFits(rows, link) && RowsAgain(rows, link) % 2 == 0
    requires Ready(rows, Entry(1, 0), link)
    ensures var r := Responses(rows, Entry(1, 0), link, k);
      !r.final && Circling(rows, link, r) && r.index % 2 == 0 && |r.sent| >= 32 * (k + 1)
    decreases k
  {
    hide Shipped, FirstFits, Ready, Bound, Responses, Next, RowsAgain, ArraySize;
    CircleFirst(rows, link);
    if k > 0 {
      EvenNeverEnds(rows, link, k - 1);
      ResponsesNext(rows, Entry(1, 0), link, k - 1);
      CircleNext(rows, link, Responses(rows, Entry(1, 0), link, k - 1));
    }
  }

  /** Multiples of an odd number reach every remainder of a power of two. */
  lemma {:induction false} OddReaches(t: nat, x: int, bits: nat) returns (d: nat, s: int)
    requires t % 2 == 1
    ensures d * t == x + Power(bits) * s
  {
    if bits == 0 {
      d, s := 0, -x;
    } else {
      var m := Power(bits - 1);
      d, s := OddReaches(t, x, bits - 1);
      if s % 2 == 0 {
        Halved(m, s);
        s := s / 2;
      } else {
        OneMore(d, m, t, x, s);
        Halved(m, s + t);
        d, s := d + m, (s + t) / 2;
      }
    }
  }

  function Power(bits: nat): (m: nat) { if bits == 0 then 1 else 2 * Power(bits - 1) }

  lemma Halved(m: int, s: int)
    requires s % 2 == 0
    ensures (2 * m) * (s / 2) == m * s
  {
    var h := s / 2;
    assert s == 2 * h;
  }

  lemma OneMore(d: int, m: int, t: int, x: int, s: int)
    requires d * t == x + m * s
    ensures (d + m) * t == x + m * (s + t)
  {
  }

  lemma OddComesRound(t: nat) returns (d: nat)
    requires t % 2 == 1
    ensures Comes(t, t, d)
  {
    var s;
    d, s := OddReaches(t, 0xFFFF - t, 16);
    assert Power(4) == 16 && Power(8) == 256 && Power(12) == 4096 && Power(16) == 0x1_0000;
    hide Power;
    assert t + d * t == 0xFFFF + 0x1_0000 * s;
  }

  /** After `d` more pages of `t` rows the counters agree. */
  predicate Comes(index: nat, t: nat, d: nat) {
    (index + d * t) % 0x1_0000 == 0xFFFF
  }

  lemma OnePageLess(index: nat, t: nat, d: nat)
    requires Comes(index, t, d) && index < 0x1_0000
    ensures index != 0xFFFF ==> d > 0 && Comes((index + t) % 0x1_0000, t, d - 1)
  {
    if d > 0 {
      var rest := (d - 1) * t;
      assert d * t == rest + t;
      WrapSum(index + t, rest);
    }
  }

  lemma WrapSum(a: int, b: int)
    ensures (a % 0x1_0000 + b) % 0x1_0000 == (a + b) % 0x1_0000
  {
  }

  /** Once the counters are to agree after `d` more pages, the read ends. */
  lemma {:induction false} CircleEnds(rows: seq<Row>, link: Link, k: nat, d: nat) returns (m: nat)
    requires Shipped(rows, link) && !FirstFits(rows, link) && Ready(rows, Entry(1, 0), link)
    requires var r := Responses(rows, Entry(1, 0), link, k);
      r.final || (Circling(rows, link, r) && Comes(r.index, RowsAgain(rows, link), d))
    ensures Responses(rows, Entry(1, 0), link, m).final
    decreases d, |Responses(rows, Entry(1, 0), link, k).pending|
  {
    hide Shipped, FirstFits, Ready, Bound, Responses, Next, Comes, RowsAgain, ArraySize;
    var r := Responses(rows, Entry(1, 0), link, k);
    ResponsesNext(rows, Entry(1, 0), link, k);
    if r.final {
      m := k;
    } else if Responses(rows, Entry(1, 0), link, k + 1).final {
      m := k + 1;
    } else {
      CircleNext(rows, link, r);
      OnePageLess(r.index, RowsAgain(rows, link), d);
      m := CircleEnds(rows, link, k + 1, if WantsPage(link, r) then d - 1 else d);
    }
  }

  /** A read of row 1 to the last ends if and only if an odd number of rows makes a page, or the first
      page fits a block. */
  lemma RowOneToLastEndsIff(rows: seq<Row>, link: Link)
    requires Shipped(rows, link)
    ensures Ready(rows, Entry(1, 0), link)
    ensures (exists k: nat :: Responses(rows, Entry(1, 0), link, k).final)
       <==> RowsAgain(rows, link) % 2 == 1 || FirstFits(rows, link)
  {
    CircleReady(rows, link);
    hide Shipped, Ready, Responses, FirstFits, RowsAgain;
    CircleFirst(rows, link);
    if !FirstFits(rows, link) {
      if RowsAgain(rows, link) % 2 == 1 {
        var d := OddComesRound(RowsAgain(rows, link));
        var m := CircleEnds(rows, link, 0, d);
      } else {
        forall k: nat
          ensures !Responses(rows, Entry(1, 0), link, k).final
        {
          EvenNeverEnds(rows, link, k);
        }
      }
    }
  }
}
