/** A read of the load profile over the wire, without general block transfer: the pages the read
    callback buffers, their encoding, and the data blocks the framework cuts out of it.
    DLMS UA Blue Book Ed. 12 (IEC 62056-6-2), section 4.3.6. */
module ProfileRead {
  import opened Basics
  import opened Bytes
  import opened ProfileLog

  const ARRAY_TAG: bv8 := 0x01
  const CIPHERING_HEADER_SIZE := 7 + 12 + 3

  /** The size of an encoded object count. */
  function CountSize(n: nat): nat {
    if n < 0x80 then 1 else if n < 0x100 then 2 else if n < 0x1_0000 then 3 else 5
  }

  function ObjectCount(n: nat): (bytes: seq<bv8>)
    requires n < 0x1_0000_0000
    ensures |bytes| == CountSize(n)
  {
    if n < 0x80 then [ByteOf(n)]
    else if n < 0x100 then [0x81, ByteOf(n)]
    else if n < 0x1_0000 then [0x82, ByteOf(n / 0x100), ByteOf(n % 0x100)]
    else [0x84, ByteOf(n / 0x100_0000), ByteOf(n / 0x1_0000 % 0x100), ByteOf(n / 0x100 % 0x100), ByteOf(n % 0x100)]
  }

  /** What a connection and a profile bring along: the encoding of a row, the number of rows taken
      to fit a PDU, the PDU size and whether messages are ciphered. */
  datatype Link = Link(encode: Row -> seq<bv8>, rowToPdu: nat, maxPdu: nat, ciphering: bool) {

    predicate Valid() {
      64 <= maxPdu < 0x1_0000 && rowToPdu < 0x1_0000
    }

    function Extra(): nat {
      if ciphering then CIPHERING_HEADER_SIZE else 0
    }

    /** All that is pending goes out in one last block. */
    predicate Fits(length: nat) {
      9 + length + Extra() <= maxPdu
    }

    /** The bytes a block carries that is not the last. */
    function BlockSize(): (n: nat)
      requires Valid()
      ensures 32 <= n && Fits(n)
    {
      var room := maxPdu - 9 - Extra();
      room - CountSize(room)
    }
  }

  function EncodeRows(link: Link, rows: seq<Row>): seq<bv8> {
    if rows == [] then [] else EncodeRows(link, rows[..|rows| - 1]) + link.encode(rows[|rows| - 1])
  }

  /** The start of an answer: an array of so many elements. */
  function Head(count: nat): (bytes: seq<bv8>)
    requires count < 0x1_0000_0000
    ensures |bytes| == 1 + CountSize(count)
  {
    [ARRAY_TAG] + ObjectCount(count)
  }

  /** The announced number of rows; the subtraction is unsigned. */
  function HeadOf(begin: nat, end: nat): (bytes: seq<bv8>)
    ensures |bytes| == 1 + CountSize((end - begin) % 0x1_0000_0000)
  {
    Head((end - begin) % 0x1_0000_0000)
  }

  /** The head of an answer, byte by byte: the array tag, and the count in 1, 2, 3 or 5 bytes. */
  lemma HeadBytes(count: nat)
    requires count < 0x1_0000_0000
    ensures var h := Head(count);
      && |h| == (if count < 0x80 then 2 else if count < 0x100 then 3 else if count < 0x1_0000 then 4 else 6)
      && h[0] == 0x01
      && (count < 0x80 ==> Value(h[1]) == count)
      && (0x80 <= count < 0x100 ==> h[1] == 0x81 && Value(h[2]) == count)
      && (0x100 <= count < 0x1_0000 ==> h[1] == 0x82 && 0x100 * Value(h[2]) + Value(h[3]) == count)
      && (0x1_0000 <= count ==>
            && h[1] == 0x84
            && 0x100_0000 * Value(h[2]) + 0x1_0000 * Value(h[3]) + 0x100 * Value(h[4]) + Value(h[5]) == count)
  {
    hide Value, ByteOf;
    if count < 0x100 {
      ByteKeeps(count);
    } else if count < 0x1_0000 {
      ByteKeeps(count / 0x100);
      ByteKeeps(count % 0x100);
    } else {
      FourBytes(count);
      ByteKeeps(count / 0x100_0000);
      ByteKeeps(count / 0x1_0000 % 0x100);
      ByteKeeps(count / 0x100 % 0x100);
      ByteKeeps(count % 0x100);
    }
  }

  lemma FourBytes(n: nat)
    ensures 0x100_0000 * (n / 0x100_0000) + 0x1_0000 * (n / 0x1_0000 % 0x100) + 0x100 * (n / 0x100 % 0x100) + n % 0x100
         == n
  {
    var a, b := n / 0x100, n / 0x1_0000;
    assert n == 0x100 * a + n % 0x100;
    assert a / 0x100 == b && b / 0x100 == n / 0x100_0000;
  }

  function Within(rows: seq<Row>, start: int, end: int): seq<Row> {
    if rows == [] then []
    else
      var last := rows[|rows| - 1];
      Within(rows[..|rows| - 1], start, end) + if start <= last.time <= end then [last] else []
  }

  // ---- What the framework encodes of a buffer ----

  function StartOf(first: nat): nat {
    if first == 0 then 0 else first - 1
  }

  /** Rows by number out of a buffer; a last number of zero stands for all, and so does a number of
      rows past the buffer: the framework takes the last number for it. */
  function ByNumber(buffer: seq<Row>, first: nat, last: nat): seq<Row>
    requires buffer != [] ==> StartOf(first) <= |buffer|
  {
    if buffer == [] then []
    else if last == 0 || StartOf(first) + last > |buffer| then buffer[StartOf(first)..]
    else buffer[StartOf(first)..StartOf(first) + last]
  }

  /** Row by row: from the first number on, counted from 1, where zero stands for 1, too. */
  lemma ByNumberRows(buffer: seq<Row>, first: nat, last: nat)
    requires buffer != [] && (first == 0 || first - 1 <= |buffer|)
    ensures var start, rows := if first == 0 then 0 else first - 1, ByNumber(buffer, first, last);
      && |rows| == (if last == 0 || start + last > |buffer| then |buffer| - start else last)
      && forall k :: 0 <= k < |rows| ==> rows[k] == buffer[start + k]
  {
  }

  /** With an end index of zero the framework picks rows out of the buffer itself, by number from
      the start of the buffer; a first number past the buffer is an index out of range there. */
  predicate TableDefined(q: Query, end: nat, buffer: seq<Row>) {
    q.Entry? && end == 0 && buffer != [] ==> StartOf(q.first) <= |buffer|
  }

  function Table(q: Query, end: nat, buffer: seq<Row>): seq<Row>
    requires TableDefined(q, end, buffer)
  {
    if end != 0 then buffer
    else match q
      case All => buffer
      case Range(start, stop) => Within(buffer, start, stop)
      case Entry(first, last) => ByNumber(buffer, first, last)
  }

  // ---- A read in progress ----

  /** The window fields of the request, the framework's two 16-bit counters, the encoded bytes that
      wait, the bytes the client has got, and whether the response that brought the last of them was
      final to it: a plain response, or a block marked as the last. */
  datatype Reader = Reader(begin: nat, end: nat, index: nat, count: nat,
                           pending: seq<bv8>, sent: seq<bv8>, final: bool) {

    /** The framework drops the read: the counters agree and nothing waits. */
    predicate Over() {
      index == count && pending == []
    }
  }

  /** The window as the next read callback leaves it. */
  function Fields(rows: seq<Row>, q: Query, r: Reader): (nat, nat) {
    if r.end == 0 then Window(rows, r.begin, q) else (r.begin, r.end)
  }

  function Buffer(rows: seq<Row>, q: Query, link: Link, r: Reader): seq<Row> {
    var (b, e) := Fields(rows, q, r);
    Slice(rows, b, PageSize(b, e, link.rowToPdu))
  }

  predicate Defined(rows: seq<Row>, q: Query, link: Link, r: Reader) {
    TableDefined(q, Fields(rows, q, r).1, Buffer(rows, q, link, r))
  }

  /** The bytes of a page: the array is announced as long as no row has been encoded. */
  function PageBytes(link: Link, index: nat, begin: nat, end: nat, table: seq<Row>): seq<bv8>
    requires |table| < 0x1_0000_0000
  {
    (if index != 0 then [] else if end != 0 then HeadOf(begin, end) else Head(|table|))
    + EncodeRows(link, table)
  }

  /** The variant that takes the bytes over holds its size in 16 bits. */
  function Carried(bytes: seq<bv8>): seq<bv8> {
    bytes[..|bytes| % 0x1_0000]
  }

  predicate SmallLog(rows: seq<Row>) {
    |rows| < 0x1_0000
  }

  function AddPage(rows: seq<Row>, q: Query, link: Link, r: Reader): Reader
    requires SmallLog(rows) && Defined(rows, q, link, r)
  {
    var (b, e) := Fields(rows, q, r);
    var table := Table(q, e, Buffer(rows, q, link, r));
    TableSize(rows, q, link, r);
    Reader(if e != 0 then (b + |table|) % 0x1_0000 else b, e, (r.index + |table|) % 0x1_0000, r.count,
           r.pending + Carried(PageBytes(link, r.index, b, e, table)), r.sent, r.final)
  }

  /** One response. The first one may be a plain one, whose status byte is not counted when its size
      is checked but is when its data is cut; nothing follows a plain response, even when it was cut.
      A block without data is not the last as long as the counters differ. */
  function Send(link: Link, r: Reader, first: bool): Reader
    requires link.Valid()
  {
    var n := |r.pending|;
    if n == 0 && r.index != r.count then r.(final := false)
    else if first && r.index == r.count && 3 + n + link.Extra() <= link.maxPdu then
      var k := if 4 + n > link.maxPdu then link.maxPdu - 4 else n;
      Reader(r.begin, r.end, r.index, r.count, r.pending[k..], r.sent + r.pending[..k], true)
    else if link.Fits(n) then Reader(r.begin, r.end, 0, 0, [], r.sent + r.pending, true)
    else
      FullBlock(link, n);
      var k := link.BlockSize();
      Reader(r.begin, r.end, r.index, r.count, r.pending[k..], r.sent + r.pending[..k], false)
  }

  lemma FullBlock(link: Link, n: nat)
    requires link.Valid() && !link.Fits(n)
    ensures link.BlockSize() < n
  {
  }

  lemma {:induction false} WithinSize(rows: seq<Row>, start: int, end: int)
    ensures |Within(rows, start, end)| <= |rows|
  {
    if rows != [] { WithinSize(rows[..|rows| - 1], start, end); }
  }

  lemma TableSize(rows: seq<Row>, q: Query, link: Link, r: Reader)
    requires SmallLog(rows) && Defined(rows, q, link, r)
    ensures |Table(q, Fields(rows, q, r).1, Buffer(rows, q, link, r))| <= |rows|
  {
    hide Fields;
    var buffer := Buffer(rows, q, link, r);
    assert |buffer| <= |rows|;
    if q.Range? { WithinSize(buffer, q.start, q.end); }
  }

  function Announced(begin: nat, end: nat): nat { (end - begin) % 0x1_0000 }

  /** The request as it comes in, before the read callback is called. */
  function Fresh(rows: seq<Row>, q: Query): Reader {
    var (b, e) := Window(rows, 0, q);
    Reader(0, 0, 0, Announced(b, e), [], [], false)
  }

  /** The response to the request itself. */
  function Opened(rows: seq<Row>, q: Query, link: Link): Reader
    requires link.Valid() && SmallLog(rows) && Defined(rows, q, link, Fresh(rows, q))
  {
    Send(link, AddPage(rows, q, link, Fresh(rows, q)), true)
  }

  predicate WantsPage(link: Link, r: Reader) {
    r.index != r.count && |r.pending| < link.maxPdu
  }

  /** The response to a request for the next block. */
  function Respond(rows: seq<Row>, q: Query, link: Link, r: Reader): Reader
    requires link.Valid() && SmallLog(rows) && Defined(rows, q, link, r)
  {
    Send(link, if WantsPage(link, r) then AddPage(rows, q, link, r) else r, false)
  }

  // ---- The window fields stay ----

  predicate Ready(rows: seq<Row>, q: Query, link: Link) {
    link.Valid() && SmallLog(rows) && Defined(rows, q, link, Fresh(rows, q))
  }

  /** A reader of this request: an end index of zero leaves the window to be set anew, to the same fields. */
  predicate Bound(rows: seq<Row>, q: Query, r: Reader) {
    r.end == Window(rows, 0, q).1 && (r.end == 0 ==> Fields(rows, q, r) == Window(rows, 0, q))
  }

  lemma BoundDefined(rows: seq<Row>, q: Query, link: Link, r: Reader)
    requires Ready(rows, q, link) && Bound(rows, q, r)
    ensures Defined(rows, q, link, r)
  {
    hide Window, Slice, PageSize;
  }

  lemma FreshFields(rows: seq<Row>, q: Query)
    ensures Fields(rows, q, Fresh(rows, q)) == Window(rows, 0, q)
  {
    hide Window;
  }

  /** Setting the window again from where it stands gives the same window, when its end is zero. */
  lemma WindowAgain(rows: seq<Row>, q: Query)
    requires Window(rows, 0, q).1 == 0 && SmallLog(rows)
    ensures Window(rows, Window(rows, 0, q).0, q) == Window(rows, 0, q)
  {
    if q.Range? {
      assert rows[..0] == [];
    }
  }

  lemma PageBound(rows: seq<Row>, q: Query, link: Link, r: Reader)
    requires Ready(rows, q, link) && (r == Fresh(rows, q) || Bound(rows, q, r)) && Defined(rows, q, link, r)
    ensures Bound(rows, q, AddPage(rows, q, link, r))
  {
    hide Window, Table, Slice, PageSize, PageBytes, Carried;
    FreshFields(rows, q);
    if Window(rows, 0, q).1 == 0 { WindowAgain(rows, q); }
  }

  lemma SendBound(rows: seq<Row>, q: Query, link: Link, r: Reader, first: bool)
    requires link.Valid() && Bound(rows, q, r)
    ensures Bound(rows, q, Send(link, r, first))
  {
    hide Window;
  }

  /** The read after the first response and `k` more. */
  function Responses(rows: seq<Row>, q: Query, link: Link, k: nat): (r: Reader)
    requires Ready(rows, q, link)
    ensures Bound(rows, q, r)
    decreases k
  {
    if k == 0 then
      PageBound(rows, q, link, Fresh(rows, q));
      SendBound(rows, q, link, AddPage(rows, q, link, Fresh(rows, q)), true);
      Opened(rows, q, link)
    else
      Next(rows, q, link, Responses(rows, q, link, k - 1))
  }

  /** The client asks on until a response is final. */
  function Next(rows: seq<Row>, q: Query, link: Link, r: Reader): (t: Reader)
    requires Ready(rows, q, link) && Bound(rows, q, r)
    ensures Bound(rows, q, t)
  {
    BoundDefined(rows, q, link, r);
    PageBound(rows, q, link, r);
    SendBound(rows, q, link, r, false);
    SendBound(rows, q, link, AddPage(rows, q, link, r), false);
    if r.final then r else Respond(rows, q, link, r)
  }

  // ---- The pages of a window that ends behind row zero ----

  /** Where a page of a window up to `e` leaves the begin index `p` in a file of `n` rows. */
  function NextBegin(n: nat, p: nat, e: nat, rowToPdu: nat): (next: nat)
    ensures p <= next && (next == p || next <= n)
  {
    var size := if p > e || e - p > rowToPdu then rowToPdu else e - p + 1;
    if p >= n then p else if p + size <= n then p + size else n
  }

  lemma PageRows(rows: seq<Row>, p: nat, e: nat, link: Link)
    requires link.Valid() && SmallLog(rows) && p < 0x1_0000 && e <= |rows|
    ensures var next := NextBegin(|rows|, p, e, link.rowToPdu);
      && Slice(rows, p, PageSize(p, e, link.rowToPdu)) == Slice(rows, p, next - p)
      && |Slice(rows, p, next - p)| == next - p && next - p <= link.rowToPdu + 1
  {
    hide PageSize;
    PageSizeCases(p, e, link.rowToPdu);
  }

  lemma NoRows(link: Link)
    ensures EncodeRows(link, []) == []
  {
  }

  lemma NothingSliced(rows: seq<Row>, b: nat, link: Link)
    ensures Slice(rows, b, 0) == [] && EncodeRows(link, Slice(rows, b, 0)) == []
  {
  }

  /** The begin index after `i` pages. */
  function PageStart(rows: seq<Row>, q: Query, link: Link, i: nat): nat {
    if i == 0 then Window(rows, 0, q).0
    else NextBegin(|rows|, PageStart(rows, q, link, i - 1), Window(rows, 0, q).1, link.rowToPdu)
  }

  /** Page `i` as encoded: its rows, behind the array header when it is the first. */
  function Page(rows: seq<Row>, q: Query, link: Link, i: nat): seq<bv8> {
    var (b, e) := Window(rows, 0, q);
    var p := PageStart(rows, q, link, i);
    (if i == 0 then HeadOf(b, e) else [])
    + EncodeRows(link, Slice(rows, p, NextBegin(|rows|, p, e, link.rowToPdu) - p))
  }

  /** The first `i` pages as they reach the blocks, each without what its variant does not hold. */
  function Stream(rows: seq<Row>, q: Query, link: Link, i: nat): seq<bv8> {
    if i == 0 then [] else Stream(rows, q, link, i - 1) + Carried(Page(rows, q, link, i - 1))
  }

  lemma {:induction false} StartBounds(rows: seq<Row>, q: Query, link: Link, i: nat)
    ensures var (b, p) := (Window(rows, 0, q).0, PageStart(rows, q, link, i));
      b <= p && (p == b || p <= |rows|)
  {
    hide Window, NextBegin;
    if i > 0 { StartBounds(rows, q, link, i - 1); }
  }

  /** No page ends where the window does, unless the file ends there too. */
  lemma NextBeginPasses(n: nat, p: nat, e: nat, rowToPdu: nat)
    requires e <= n
    ensures NextBegin(n, p, e, rowToPdu) == e ==> e == n
  {
  }

  lemma StartPasses(rows: seq<Row>, q: Query, link: Link, i: nat)
    requires SmallLog(rows) && i > 0 && PageStart(rows, q, link, i) == Window(rows, 0, q).1
    ensures Window(rows, 0, q).1 == |rows|
  {
    WindowBounds(rows, q);
    hide Window, NextBegin;
    NextBeginPasses(|rows|, PageStart(rows, q, link, i - 1), Window(rows, 0, q).1, link.rowToPdu);
  }

  /** One page: its rows from the begin index on, announced while no row has been encoded. */
  lemma PageAdded(rows: seq<Row>, q: Query, link: Link, r: Reader, p: nat, e: nat)
    requires link.Valid() && SmallLog(rows)
    requires Fields(rows, q, r) == (p, e) && 0 < e <= |rows| && p < 0x1_0000
    requires var next := NextBegin(|rows|, p, e, link.rowToPdu); next < 0x1_0000 && r.index + (next - p) < 0x1_0000
    ensures var next := NextBegin(|rows|, p, e, link.rowToPdu);
      var head := if r.index == 0 then HeadOf(p, e) else [];
      AddPage(rows, q, link, r)
      == Reader(next, e, r.index + (next - p), r.count,
                r.pending + Carried(head + EncodeRows(link, Slice(rows, p, next - p))), r.sent, r.final)
  {
    hide Fields, Slice, PageSize, Head, HeadOf, Carried, NextBegin, EncodeRows;
    PageRows(rows, p, e, link);
  }

  // ---- What every response keeps ----

  /** A log and a link as the framework holds them, a window that ends behind row zero, and a first
      page that its variant does not lose altogether. */
  predicate Sound(rows: seq<Row>, q: Query, link: Link) {
    && link.Valid() && SmallLog(rows) && Window(rows, 0, q).1 > 0
    && Carried(Page(rows, q, link, 0)) != []
  }

  lemma SoundReady(rows: seq<Row>, q: Query, link: Link)
    requires Sound(rows, q, link)
    ensures Ready(rows, q, link) && Window(rows, 0, q).1 <= |rows| && Window(rows, 0, q).0 < 0x1_0000
  {
    WindowBounds(rows, q);
    hide Window, Page;
  }

  lemma SmallSound(rows: seq<Row>, q: Query, link: Link)
    requires Sound(rows, q, link)
    ensures link.Valid() && SmallLog(rows) && Carried(Page(rows, q, link, 0)) != []
  {
    hide Page, Window;
  }

  lemma ReadyFresh(rows: seq<Row>, q: Query, link: Link)
    requires Ready(rows, q, link)
    ensures link.Valid() && SmallLog(rows) && Defined(rows, q, link, Fresh(rows, q))
  {
    hide Defined, Fresh;
  }

  /** A plain response with one byte more than it has room for behind its status. */
  predicate OneTooMany(link: Link, length: nat) {
    !link.ciphering && 3 + length == link.maxPdu
  }

  /** What one response does to the waiting bytes: it never reorders, drops or repeats any. All of
      them go out in a final response, but for the last byte of a plain one that is one too many. */
  lemma SendKeeps(link: Link, r: Reader, first: bool)
    requires link.Valid() && r.pending != []
    ensures var t := Send(link, r, first);
      var plain := first && r.index == r.count;
      && t.sent + t.pending == r.sent + r.pending
      && t.begin == r.begin && t.end == r.end
      && (t.final ==> t.index == t.count && (plain || link.Fits(|r.pending|)))
      && (t.final ==> |t.pending| == if plain && OneTooMany(link, |r.pending|) then 1 else 0)
      && (!t.final ==> t.index == r.index && t.count == r.count && t.pending != [])
      && (!t.final ==> |t.pending| + 32 <= |r.pending| && !link.Fits(|r.pending|))
      && (link.Fits(|r.pending|) || |r.pending| <= 6 ==> t.final)
      && (plain && OneTooMany(link, |r.pending|) ==> t.final)
  {
    hide Link.BlockSize;
    var n := |r.pending|;
    SentApart(r, n);
    if !link.Fits(n) {
      FullBlock(link, n);
      SentApart(r, link.BlockSize());
    }
    if first && r.index == r.count && 3 + n + link.Extra() <= link.maxPdu && 4 + n > link.maxPdu {
      SentApart(r, link.maxPdu - 4);
    }
  }

  lemma SentApart(r: Reader, k: nat)
    requires k <= |r.pending|
    ensures (r.sent + r.pending[..k]) + r.pending[k..] == r.sent + r.pending
    ensures |r.pending[k..]| == |r.pending| - k && (k == |r.pending| ==> r.pending[..k] == r.pending)
  {
  }

  /** The bytes of a response that carries `n` bytes of data: command, type, invoke identifier and
      status, for a block its number, last mark and size besides, and what ciphering adds. */
  function ResponseSize(link: Link, plain: bool, n: nat): nat {
    (if plain then 3 + 1 else 3 + 1 + 4 + 1 + CountSize(n)) + n + if link.ciphering then 22 else 0
  }

  /** Which kind of response goes out, what it carries, and when it stays within the PDU size the client
      asked for: a block that is not the last always does; a last one whose size bytes do not fit
      too, and a ciphered plain one whose status byte does not, are too long. */
  lemma ResponseWithinPdu(link: Link, r: Reader, first: bool)
    requires link.Valid() && r.pending != []
    ensures var t, extra := Send(link, r, first), if link.ciphering then 22 else 0;
      var n, carried := |r.pending|, |t.sent| - |r.sent|;
      var plain := first && r.index == r.count && 3 + n + extra <= link.maxPdu;
      && (t.final <==> plain || 9 + n + extra <= link.maxPdu)
      && (t.index, t.count) == (if t.final && !plain then (0, 0) else (r.index, r.count))
      && (t.final ==> carried == if plain && !link.ciphering && 3 + n == link.maxPdu then n - 1 else n)
      && (!t.final ==> carried + CountSize(link.maxPdu - 9 - extra) == link.maxPdu - 9 - extra)
      && (ResponseSize(link, plain, carried) <= link.maxPdu
          <==> !t.final
               || (plain && !(link.ciphering && 3 + n + 22 == link.maxPdu))
               || (!plain && 9 + n + extra + CountSize(n) <= link.maxPdu))
  {
    var t := Send(link, r, first);
    SendKeeps(link, r, first);
    Lengths(r, t);
    CountSizeGrows(|t.sent| - |r.sent|, link.maxPdu - 9 - link.Extra());
  }

  lemma Lengths(r: Reader, t: Reader)
    requires t.sent + t.pending == r.sent + r.pending
    ensures |t.sent| + |t.pending| == |r.sent| + |r.pending|
  {
    assert |t.sent + t.pending| == |r.sent + r.pending|;
  }

  lemma CountSizeGrows(m: int, n: int)
    ensures 0 <= m <= n ==> CountSize(m) <= CountSize(n)
  {
  }

  /** The whole window is the first page, and it makes a plain response one byte too long. */
  predicate Cut(rows: seq<Row>, q: Query, link: Link) {
    && PageStart(rows, q, link, 1) == Window(rows, 0, q).1
    && OneTooMany(link, |Carried(Page(rows, q, link, 0))|)
  }

  /** Before a response that sends from the first `i` pages. */
  predicate Waiting(rows: seq<Row>, q: Query, link: Link, r: Reader, i: nat) {
    var (b, e) := Window(rows, 0, q);
    && i > 0 && r.begin == PageStart(rows, q, link, i) && r.end == e
    && r.sent + r.pending == Stream(rows, q, link, i)
    && r.index == r.begin - b && r.count == Announced(b, e)
    && r.pending != [] && (r.begin == b ==> |r.pending| <= 6)
  }

  /** After a response: the bytes sent and waiting are the first `i` pages, each byte once and in
      order. Nothing waits behind a final response but the byte it was too long by. */
  predicate InStep(rows: seq<Row>, q: Query, link: Link, r: Reader, i: nat) {
    var (b, e) := Window(rows, 0, q);
    && i > 0 && r.begin == PageStart(rows, q, link, i) && r.end == e
    && r.sent + r.pending == Stream(rows, q, link, i)
    && if r.final then
         r.index == r.count && (if Cut(rows, q, link) then i == 1 && |r.pending| == 1 else r.pending == [])
       else
         && r.pending != [] && r.index == r.begin - b && r.count == Announced(b, e)
         && r.begin > b && !Cut(rows, q, link)
  }

  lemma Counters(b: nat, e: nat, p: nat)
    requires b < 0x1_0000 && e < 0x1_0000 && b <= p < 0x1_0000
    ensures Announced(b, e) == p - b <==> p == e
  {
  }

  /** The counters agree at the end of the window, which is then the end of the file. */
  lemma WaitingCounters(rows: seq<Row>, q: Query, link: Link, r: Reader, i: nat)
    requires Waiting(rows, q, link, r, i) && SmallLog(rows)
    ensures r.index == r.count <==> r.begin == Window(rows, 0, q).1
    ensures r.index == r.count ==> r.begin == |rows|
  {
    hide Window, Announced, Stream, PageStart;
    WindowBounds(rows, q);
    StartBounds(rows, q, link, i);
    Counters(Window(rows, 0, q).0, Window(rows, 0, q).1, r.begin);
    if r.begin == Window(rows, 0, q).1 { StartPasses(rows, q, link, i); }
  }

  lemma FreshSent(rows: seq<Row>, q: Query, link: Link)
    requires SmallLog(rows) && Defined(rows, q, link, Fresh(rows, q))
    ensures AddPage(rows, q, link, Fresh(rows, q)).sent == []
  {
    hide Window, Table, PageBytes, Fields;
  }

  lemma FreshIs(rows: seq<Row>, q: Query)
    ensures Fresh(rows, q)
         == Reader(0, 0, 0, Announced(Window(rows, 0, q).0, Window(rows, 0, q).1), [], [], false)
  {
    hide Window, Announced;
  }

  /** The first page. */
  lemma FreshWaiting(rows: seq<Row>, q: Query, link: Link)
    requires Sound(rows, q, link) && Ready(rows, q, link)
    ensures var added := AddPage(rows, q, link, Fresh(rows, q));
      && Waiting(rows, q, link, added, 1)
      && added.sent == [] && added.pending == Carried(Page(rows, q, link, 0))
  {
    hide Window, Slice, HeadOf, Fields, AddPage, NextBegin, Defined, EncodeRows, Announced, Carried, Fresh;
    hide Page, PageStart, Stream, Sound;
    SmallSound(rows, q, link);
    SoundReady(rows, q, link);
    FreshFields(rows, q);
    FreshIs(rows, q);
    FirstPageOf(rows, q, link);
    var (b, e) := Window(rows, 0, q);
    SoundWindow(rows, q, link);
    PageAdded(rows, q, link, Fresh(rows, q), b, e);
    var page := Carried(Page(rows, q, link, 0));
    Regroup([], [], page);
  }

  lemma SoundWindow(rows: seq<Row>, q: Query, link: Link)
    requires Sound(rows, q, link)
    ensures var (b, e) := Window(rows, 0, q);
      0 < e && NextBegin(|rows|, b, e, link.rowToPdu) < 0x1_0000
  {
    WindowBounds(rows, q);
    hide Window, Page;
  }

  lemma FirstPageOf(rows: seq<Row>, q: Query, link: Link)
    ensures var (b, e) := Window(rows, 0, q);
      var next := NextBegin(|rows|, b, e, link.rowToPdu);
      && PageStart(rows, q, link, 0) == b && PageStart(rows, q, link, 1) == next
      && Page(rows, q, link, 0) == HeadOf(b, e) + EncodeRows(link, Slice(rows, b, next - b))
      && Stream(rows, q, link, 1) == Carried(Page(rows, q, link, 0))
      && (next == b ==> |Carried(Page(rows, q, link, 0))| <= 6)
  {
    hide Window, HeadOf, NextBegin;
    var (b, e) := Window(rows, 0, q);
    NothingSliced(rows, b, link);
    assert Stream(rows, q, link, 0) == [];
    Regroup([], [], Carried(Page(rows, q, link, 0)));
  }

  /** A further page. */
  lemma NextPageOf(rows: seq<Row>, q: Query, link: Link, i: nat)
    requires i > 0
    ensures var e := Window(rows, 0, q).1;
      var p := PageStart(rows, q, link, i);
      var next := NextBegin(|rows|, p, e, link.rowToPdu);
      && PageStart(rows, q, link, i + 1) == next
      && Page(rows, q, link, i) == EncodeRows(link, Slice(rows, p, next - p))
      && Stream(rows, q, link, i + 1) == Stream(rows, q, link, i) + Carried(Page(rows, q, link, i))
  {
    hide Window, HeadOf, NextBegin, PageStart, Carried, Stream, EncodeRows, Slice;
    NextStart(rows, q, link, i);
    var p := PageStart(rows, q, link, i);
    var next := NextBegin(|rows|, p, Window(rows, 0, q).1, link.rowToPdu);
    Regroup([], [], EncodeRows(link, Slice(rows, p, next - p)));
  }

  lemma NextStart(rows: seq<Row>, q: Query, link: Link, i: nat)
    ensures PageStart(rows, q, link, i + 1)
         == NextBegin(|rows|, PageStart(rows, q, link, i), Window(rows, 0, q).1, link.rowToPdu)
    ensures Stream(rows, q, link, i + 1) == Stream(rows, q, link, i) + Carried(Page(rows, q, link, i))
  {
    hide Window, NextBegin, Carried, Page;
  }

  lemma PageWaiting(rows: seq<Row>, q: Query, link: Link, r: Reader, i: nat)
    requires Sound(rows, q, link) && Ready(rows, q, link) && Defined(rows, q, link, r)
    requires Waiting(rows, q, link, r, i) && r.begin > Window(rows, 0, q).0
    ensures var added := AddPage(rows, q, link, r);
      && Waiting(rows, q, link, added, i + 1)
      && added.begin == NextBegin(|rows|, r.begin, r.end, link.rowToPdu)
      && added.pending == r.pending + Carried(Page(rows, q, link, i))
  {
    hide Window, AddPage, NextBegin, Defined, EncodeRows, Slice, Announced, Carried, Page, Stream, PageStart, HeadOf;
    SoundReady(rows, q, link);
    SmallSound(rows, q, link);
    StartBounds(rows, q, link, i);
    NextPageOf(rows, q, link, i);
    PageAdded(rows, q, link, r, r.begin, Window(rows, 0, q).1);
    Regroup(r.sent, r.pending, Carried(Page(rows, q, link, i)));
    var encoded := EncodeRows(link, Slice(rows, r.begin, PageStart(rows, q, link, i + 1) - r.begin));
    Regroup([], [], encoded);
  }

  lemma SendInStep(rows: seq<Row>, q: Query, link: Link, r: Reader, first: bool, i: nat)
    requires link.Valid() && SmallLog(rows) && Waiting(rows, q, link, r, i)
    requires if first then i == 1 && r.pending == Carried(Page(rows, q, link, 0)) else !Cut(rows, q, link)
    ensures InStep(rows, q, link, Send(link, r, first), i)
  {
    hide Window, Announced, Send, Link.Fits, Carried, Page, Stream, PageStart;
    SendKeeps(link, r, first);
    WaitingCounters(rows, q, link, r, i);
    StartBounds(rows, q, link, i);
  }

  lemma OpenedInStep(rows: seq<Row>, q: Query, link: Link)
    requires Sound(rows, q, link) && Ready(rows, q, link)
    ensures InStep(rows, q, link, Opened(rows, q, link), 1)
  {
    SmallSound(rows, q, link);
    hide Sound, Waiting, InStep, AddPage, Send, Fresh, Defined, Page, Carried;
    FreshWaiting(rows, q, link);
    SendInStep(rows, q, link, AddPage(rows, q, link, Fresh(rows, q)), true, 1);
  }

  lemma StillWaiting(rows: seq<Row>, q: Query, link: Link, r: Reader, i: nat)
    requires InStep(rows, q, link, r, i) && !r.final
    ensures Waiting(rows, q, link, r, i) && r.begin > Window(rows, 0, q).0 && !Cut(rows, q, link)
  {
    hide Window, Announced, Stream, PageStart, Cut;
  }

  lemma NextInStep(rows: seq<Row>, q: Query, link: Link, r: Reader, i: nat) returns (j: nat)
    requires Sound(rows, q, link) && Ready(rows, q, link) && Bound(rows, q, r) && InStep(rows, q, link, r, i)
    ensures i <= j <= i + 1 && InStep(rows, q, link, Next(rows, q, link, r), j)
  {
    BoundDefined(rows, q, link, r);
    SmallSound(rows, q, link);
    j := i;
    if !r.final {
      hide Sound, Waiting, InStep, AddPage, Send, Defined, Bound, Window, Cut;
      StillWaiting(rows, q, link, r, i);
      if WantsPage(link, r) {
        PageWaiting(rows, q, link, r, i);
        j := i + 1;
        SendInStep(rows, q, link, AddPage(rows, q, link, r), false, j);
      } else {
        SendInStep(rows, q, link, r, false, i);
      }
    }
  }

  /** After every response of every read, the client has got and is still to get the pages encoded
      so far, whatever the PDU size. */
  lemma {:induction false} ResponsesInStep(rows: seq<Row>, q: Query, link: Link, k: nat) returns (i: nat)
    requires Sound(rows, q, link) && Ready(rows, q, link)
    ensures InStep(rows, q, link, Responses(rows, q, link, k), i) && i <= k + 1
    decreases k
  {
    hide Sound, InStep, Next, Opened;
    if k == 0 {
      OpenedInStep(rows, q, link);
      i := 1;
    } else {
      i := ResponsesInStep(rows, q, link, k - 1);
      i := NextInStep(rows, q, link, Responses(rows, q, link, k - 1), i);
    }
  }

  // ---- Every read ends ----

  lemma StepShrinks(rows: seq<Row>, q: Query, link: Link, r: Reader, i: nat)
    requires Sound(rows, q, link) && Ready(rows, q, link) && Bound(rows, q, r) && InStep(rows, q, link, r, i)
    requires !r.final
    ensures var t := Next(rows, q, link, r);
      t.final || r.begin < t.begin <= |rows| || (t.begin == r.begin <= |rows| && |t.pending| < |r.pending|)
  {
    BoundDefined(rows, q, link, r);
    hide Sound, Waiting, InStep, AddPage, Send, Defined, Bound, Window, NextBegin, Slice, EncodeRows;
    StillWaiting(rows, q, link, r, i);
    WaitingBegin(rows, q, link, r, i);
    if WantsPage(link, r) {
      var added := AddPage(rows, q, link, r);
      PageWaiting(rows, q, link, r, i);
      SendKeeps(link, added, false);
      if added.begin == r.begin { EmptyPage(rows, q, link, i); }
    } else {
      SendKeeps(link, r, false);
    }
  }

  lemma WaitingBegin(rows: seq<Row>, q: Query, link: Link, r: Reader, i: nat)
    requires Waiting(rows, q, link, r, i)
    ensures i > 0 && r.begin == PageStart(rows, q, link, i) && r.end == Window(rows, 0, q).1 && r.pending != []
    ensures r.begin > Window(rows, 0, q).0 ==> r.begin <= |rows|
  {
    hide Window, Announced, PageStart, Stream;
    StartBounds(rows, q, link, i);
  }

  lemma EmptyPage(rows: seq<Row>, q: Query, link: Link, i: nat)
    requires i > 0
    requires var p := PageStart(rows, q, link, i); NextBegin(|rows|, p, Window(rows, 0, q).1, link.rowToPdu) == p
    ensures Carried(Page(rows, q, link, i)) == []
  {
    hide Window, NextBegin, PageStart;
    NothingSliced(rows, PageStart(rows, q, link, i), link);
  }

  function RowsLeft(rows: seq<Row>, r: Reader): nat {
    if r.begin <= |rows| then |rows| - r.begin else 0
  }

  /** From any response on the read comes to a final one, whatever its window. */
  lemma {:induction false} ReadEnds(rows: seq<Row>, q: Query, link: Link, k: nat) returns (m: nat)
    requires Sound(rows, q, link) && Ready(rows, q, link)
    ensures m >= k && Responses(rows, q, link, m).final
    decreases RowsLeft(rows, Responses(rows, q, link, k)), |Responses(rows, q, link, k).pending|
  {
    hide Sound, InStep, Next, Opened, Bound;
    var r, t := Responses(rows, q, link, k), Responses(rows, q, link, k + 1);
    var i := ResponsesInStep(rows, q, link, k);
    if r.final {
      m := k;
    } else if t.final {
      m := k + 1;
    } else {
      StepShrinks(rows, q, link, r, i);
      m := ReadEnds(rows, q, link, k + 1);
    }
  }

  lemma ResponsesNext(rows: seq<Row>, q: Query, link: Link, k: nat)
    requires Ready(rows, q, link)
    ensures Responses(rows, q, link, k + 1) == Next(rows, q, link, Responses(rows, q, link, k))
  {
    hide Next, Opened, Ready;
  }

  lemma ResponsesFirst(rows: seq<Row>, q: Query, link: Link)
    requires Ready(rows, q, link)
    ensures Responses(rows, q, link, 0) == Opened(rows, q, link)
  {
    hide Next, Opened, Ready;
  }

  lemma NextKeepsFinal(rows: seq<Row>, q: Query, link: Link, r: Reader)
    requires Ready(rows, q, link) && Bound(rows, q, r) && r.final
    ensures Next(rows, q, link, r) == r
  {
  }

  lemma {:induction false} StaysFinal(rows: seq<Row>, q: Query, link: Link, j: nat, k: nat)
    requires Ready(rows, q, link) && j <= k && Responses(rows, q, link, j).final
    ensures Responses(rows, q, link, k) == Responses(rows, q, link, j)
    decreases k
  {
    hide Next, Opened, Window, Ready, Responses;
    if j < k {
      StaysFinal(rows, q, link, j, k - 1);
      ResponsesNext(rows, q, link, k - 1);
      NextKeepsFinal(rows, q, link, Responses(rows, q, link, k - 1));
    }
  }

  /** A final response leaves the read open in the framework exactly when it lost its last byte; the
      client has got the pages encoded, but for that byte. */
  lemma ReadDelivers(rows: seq<Row>, q: Query, link: Link, k: nat) returns (i: nat)
    requires Sound(rows, q, link) && Ready(rows, q, link) && Responses(rows, q, link, k).final
    ensures var r := Responses(rows, q, link, k);
      && i > 0 && r.begin == PageStart(rows, q, link, i)
      && (r.Over() <==> !Cut(rows, q, link))
      && (r.Over() ==> r.sent == Stream(rows, q, link, i))
      && (!r.Over() ==> i == 1 && r.sent == Stream(rows, q, link, 1)[..link.maxPdu - 4]
                        && |Stream(rows, q, link, 1)| == link.maxPdu - 3)
  {
    i := ResponsesInStep(rows, q, link, k);
    SmallSound(rows, q, link);
    hide Window, Announced, Responses, Sound;
    var r := Responses(rows, q, link, k);
    assert r.sent + [] == r.sent;
    if Cut(rows, q, link) {
      hide Page, Carried, PageStart;
      FirstPageOf(rows, q, link);
      assert (r.sent + r.pending)[..|r.sent|] == r.sent;
    }
  }
}
