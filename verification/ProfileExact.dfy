/** What a read of the load profile has brought when its last response is in, and when that is
    exactly what the client asked for. */
module ProfileExact {
  import opened Basics
  import opened Bytes
  import opened ProfileLog
  import opened ProfileRead

  // ---- Pages put together ----

  /** The announced array with the rows of the window up to row `m`. */
  function Answer(rows: seq<Row>, q: Query, link: Link, m: nat): seq<bv8>
    requires Window(rows, 0, q).0 <= m
  {
    var (b, e) := Window(rows, 0, q);
    HeadOf(b, e) + EncodeRows(link, Slice(rows, b, m - b))
  }

  /** No page of the read outgrows the 16-bit size of its variant. */
  ghost predicate Carries(rows: seq<Row>, q: Query, link: Link) {
    forall i: nat :: |Page(rows, q, link, i)| < 0x1_0000
  }

  lemma {:induction false} EncodeConcat(link: Link, a: seq<Row>, b: seq<Row>)
    ensures EncodeRows(link, a + b) == EncodeRows(link, a) + EncodeRows(link, b)
    decreases |b|
  {
    if b == [] {
      assert a + b == a;
    } else {
      EncodeConcat(link, a, b[..|b| - 1]);
      assert (a + b)[..|a + b| - 1] == a + b[..|b| - 1];
    }
  }

  lemma RowsExtend(rows: seq<Row>, link: Link, b: nat, p: nat, next: nat)
    requires b <= p <= next && (p == b || p <= |rows|) && (next == p || next <= |rows|)
    ensures EncodeRows(link, Slice(rows, b, p - b)) + EncodeRows(link, Slice(rows, p, next - p))
         == EncodeRows(link, Slice(rows, b, next - b))
  {
    hide EncodeRows;
    assert Slice(rows, b, p - b) + Slice(rows, p, next - p) == Slice(rows, b, next - b);
    EncodeConcat(link, Slice(rows, b, p - b), Slice(rows, p, next - p));
  }

  lemma AnswerExtends(rows: seq<Row>, q: Query, link: Link, p: nat, next: nat)
    requires Window(rows, 0, q).0 <= p <= next
    requires (p == Window(rows, 0, q).0 || p <= |rows|) && (next == p || next <= |rows|)
    ensures Answer(rows, q, link, p) + EncodeRows(link, Slice(rows, p, next - p)) == Answer(rows, q, link, next)
  {
    hide Window, HeadOf, EncodeRows, Slice;
    var (b, e) := Window(rows, 0, q);
    RowsExtend(rows, link, b, p, next);
    Regroup(HeadOf(b, e), EncodeRows(link, Slice(rows, b, p - b)), EncodeRows(link, Slice(rows, p, next - p)));
  }

  /** The first `i` pages hold the rows up to the begin index, each once and in order. */
  lemma PagesExtend(rows: seq<Row>, q: Query, link: Link, i: nat)
    requires i > 0
    ensures var (b, p, next) :=
        (Window(rows, 0, q).0, PageStart(rows, q, link, i), PageStart(rows, q, link, i + 1));
      && b <= p && b <= next
      && Answer(rows, q, link, next) == Answer(rows, q, link, p) + Page(rows, q, link, i)
  {
    hide Window, Answer, EncodeRows, Slice, PageStart, Page, NextBegin, Carried, Stream;
    NextPageOf(rows, q, link, i);
    StartBounds(rows, q, link, i);
    AnswerExtends(rows, q, link, PageStart(rows, q, link, i), PageStart(rows, q, link, i + 1));
  }

  lemma FirstAnswer(rows: seq<Row>, q: Query, link: Link)
    ensures var (b, next) := (Window(rows, 0, q).0, PageStart(rows, q, link, 1));
      b <= next && Answer(rows, q, link, next) == Page(rows, q, link, 0)
  {
    hide Window, EncodeRows, Slice, NextBegin;
    FirstPageOf(rows, q, link);
  }

  lemma CarriedAll(bytes: seq<bv8>)
    requires |bytes| < 0x1_0000
    ensures Carried(bytes) == bytes
  {
  }

  /** When every page is carried whole, what reaches the blocks is the announced array and the rows
      from the start of the window on. */
  lemma {:induction false} StreamWhole(rows: seq<Row>, q: Query, link: Link, i: nat)
    requires Carries(rows, q, link) && i > 0
    ensures Window(rows, 0, q).0 <= PageStart(rows, q, link, i)
    ensures Stream(rows, q, link, i) == Answer(rows, q, link, PageStart(rows, q, link, i))
  {
    hide Window, Answer, Carried, Page, PageStart, Stream;
    CarriedAll(Page(rows, q, link, i - 1));
    if i == 1 {
      FirstAnswer(rows, q, link);
      FirstPageOf(rows, q, link);
    } else {
      StreamWhole(rows, q, link, i - 1);
      NextStart(rows, q, link, i - 1);
      PagesExtend(rows, q, link, i - 1);
    }
  }

  lemma CarriesSound(rows: seq<Row>, q: Query, link: Link)
    requires link.Valid() && SmallLog(rows) && Window(rows, 0, q).1 > 0 && Carries(rows, q, link)
    ensures Sound(rows, q, link)
  {
    CarriedAll(Page(rows, q, link, 0));
    hide Window, Carried, EncodeRows, Carries;
  }

  lemma CarriedSize(bytes: seq<bv8>) returns (lost: nat)
    ensures |Carried(bytes)| + 0x1_0000 * lost == |bytes| && (lost == 0 <==> |bytes| < 0x1_0000)
    ensures Carried(bytes) <= bytes
  {
    lost := |bytes| / 0x1_0000;
  }

  /** Pages that outgrow their variant lose 65536 bytes at a time; any loss in the first page stays. */
  lemma {:induction false} StreamLoses(rows: seq<Row>, q: Query, link: Link, i: nat) returns (lost: nat)
    requires i > 0
    ensures Window(rows, 0, q).0 <= PageStart(rows, q, link, i)
    ensures |Stream(rows, q, link, i)| + 0x1_0000 * lost == |Answer(rows, q, link, PageStart(rows, q, link, i))|
    ensures |Page(rows, q, link, 0)| >= 0x1_0000 ==> lost > 0
  {
    hide Window, Answer, Carried, Page, PageStart, Stream;
    var l := CarriedSize(Page(rows, q, link, i - 1));
    if i == 1 {
      FirstAnswer(rows, q, link);
      FirstPageOf(rows, q, link);
      lost := l;
    } else {
      lost := StreamLoses(rows, q, link, i - 1);
      NextStart(rows, q, link, i - 1);
      PagesExtend(rows, q, link, i - 1);
      lost := lost + l;
    }
  }

  // ---- What a read has sent with its final response ----

  /** Every row takes at least one byte. */
  predicate Visible(rows: seq<Row>, link: Link) {
    forall i :: 0 <= i < |rows| ==> link.encode(rows[i]) != []
  }

  lemma {:induction false} EncodeVisible(rows: seq<Row>, link: Link)
    requires Visible(rows, link)
    ensures |EncodeRows(link, rows)| >= |rows|
  {
    if rows != [] { EncodeVisible(rows[..|rows| - 1], link); }
  }

  /** Answers that go on to different rows are of different size. */
  lemma AnswersDiffer(rows: seq<Row>, q: Query, link: Link, m: nat, next: nat)
    requires Visible(rows, link) && Window(rows, 0, q).0 <= m < next <= |rows|
    ensures |Answer(rows, q, link, m)| < |Answer(rows, q, link, next)|
  {
    hide Window, EncodeRows, Answer;
    AnswerExtends(rows, q, link, m, next);
    assert Slice(rows, m, next - m) == rows[m..next];
    EncodeVisible(rows[m..next], link);
  }

  /** With pages carried whole the client has got the announced array and the rows from the start of
      the window up to the begin index, unless a plain response lost the last byte of them. */
  lemma WholeDelivers(rows: seq<Row>, q: Query, link: Link, k: nat)
    requires Sound(rows, q, link) && Ready(rows, q, link) && Carries(rows, q, link)
    requires Responses(rows, q, link, k).final
    ensures var r := Responses(rows, q, link, k);
      && Window(rows, 0, q).0 <= r.begin
      && (r.Over() <==> !Cut(rows, q, link))
      && (r.Over() ==> r.sent == Answer(rows, q, link, r.begin))
      && (!r.Over() ==> |Answer(rows, q, link, r.begin)| == link.maxPdu - 3
                        && r.sent == Answer(rows, q, link, r.begin)[..link.maxPdu - 4]
                        && |r.sent| < |Answer(rows, q, link, r.begin)|)
  {
    hide Responses, Window, Answer, Sound, Carries, Cut, Stream, Ready;
    SmallSound(rows, q, link);
    var i := ReadDelivers(rows, q, link, k);
    StreamWhole(rows, q, link, i);
  }

  lemma FinalBegin(rows: seq<Row>, q: Query, link: Link, k: nat)
    requires Sound(rows, q, link) && Ready(rows, q, link) && Responses(rows, q, link, k).final
    ensures var (b, e) := Window(rows, 0, q);
      var m := Responses(rows, q, link, k).begin;
      b <= m && (m == b || m <= |rows|) && (m == e ==> e == |rows|)
  {
    hide Responses, Window, Sound, Cut, Stream, Ready;
    var i := ReadDelivers(rows, q, link, k);
    SmallSound(rows, q, link);
    StartBounds(rows, q, link, i);
    if PageStart(rows, q, link, i) == Window(rows, 0, q).1 { StartPasses(rows, q, link, i); }
  }

  /** Cut means that the window is one page and runs to the end of the file. */
  lemma CutAtEnd(rows: seq<Row>, q: Query, link: Link)
    requires Sound(rows, q, link) && Cut(rows, q, link)
    ensures Window(rows, 0, q).1 == |rows|
  {
    SmallSound(rows, q, link);
    hide Window, Sound, Page, Carried, PageStart;
    StartPasses(rows, q, link, 1);
  }

  /** A window that ends before the file does is never answered by its rows: too few of them, or
      at least one too many. The announced number of rows is wrong in every such answer. */
  lemma WindowInsideNeverExact(rows: seq<Row>, q: Query, link: Link, k: nat)
    requires Sound(rows, q, link) && Ready(rows, q, link) && Carries(rows, q, link) && Visible(rows, link)
    requires Window(rows, 0, q).0 <= Window(rows, 0, q).1 < |rows| && Responses(rows, q, link, k).final
    ensures Responses(rows, q, link, k).begin != Window(rows, 0, q).1
    ensures Responses(rows, q, link, k).sent != Answer(rows, q, link, Window(rows, 0, q).1)
  {
    hide Sound, InStep, Window, Answer, Responses, Ready, Carries, Cut;
    WholeDelivers(rows, q, link, k);
    FinalBegin(rows, q, link, k);
    if Cut(rows, q, link) { CutAtEnd(rows, q, link); }
    var m, e := Responses(rows, q, link, k).begin, Window(rows, 0, q).1;
    if m < e {
      AnswersDiffer(rows, q, link, m, e);
    } else {
      AnswersDiffer(rows, q, link, e, m);
    }
  }

  // ---- Pages larger than a block ----

  /** A full page, as carried, is larger than a block, as it is for the shipped profile. */
  ghost predicate PagesOverflow(rows: seq<Row>, q: Query, link: Link) {
    && link.rowToPdu > 0
    && forall i: nat :: PageStart(rows, q, link, i) + link.rowToPdu <= PageStart(rows, q, link, i + 1)
                        ==> !link.Fits(|Carried(Page(rows, q, link, i))|)
  }

  lemma NextBeginCases(n: nat, p: nat, e: nat, rowToPdu: nat)
    requires p <= n && e <= n && NextBegin(n, p, e, rowToPdu) - p < rowToPdu
    ensures NextBegin(n, p, e, rowToPdu) == n || (p <= e && NextBegin(n, p, e, rowToPdu) == e + 1)
  {
  }

  lemma LongerDoesNotFit(link: Link, m: nat, n: nat)
    requires m <= n
    ensures link.Fits(n) ==> link.Fits(m)
  {
  }

  /** A page that fits a block is not a full one: it comes to the end of the file, or just passes
      the end of the window. */
  lemma PageThatFits(rows: seq<Row>, q: Query, link: Link, i: nat, bytes: seq<bv8>)
    requires SmallLog(rows) && PagesOverflow(rows, q, link) && PageStart(rows, q, link, i) <= |rows|
    requires link.Fits(|bytes|) && |Carried(Page(rows, q, link, i))| <= |bytes|
    ensures var (p, next, e) :=
        (PageStart(rows, q, link, i), PageStart(rows, q, link, i + 1), Window(rows, 0, q).1);
      next == |rows| || (p <= e && next == e + 1)
  {
    WindowBounds(rows, q);
    hide Window, PageStart, Page, Carried, NextBegin;
    NextStart(rows, q, link, i);
    LongerDoesNotFit(link, |Carried(Page(rows, q, link, i))|, |bytes|);
    NextBeginCases(|rows|, PageStart(rows, q, link, i), Window(rows, 0, q).1, link.rowToPdu);
  }

  /** A next response that is final has come to the end of the file, or has just passed the end of
      the window. */
  lemma LastResponse(rows: seq<Row>, q: Query, link: Link, r: Reader, i: nat)
    requires Sound(rows, q, link) && Ready(rows, q, link) && Bound(rows, q, r) && InStep(rows, q, link, r, i)
    requires PagesOverflow(rows, q, link) && !r.final && Next(rows, q, link, r).final
    ensures var t, e := Next(rows, q, link, r), Window(rows, 0, q).1;
      t.begin == |rows| || (r.begin <= e && t.begin == e + 1)
  {
    BoundDefined(rows, q, link, r);
    StillWaiting(rows, q, link, r, i);
    SmallSound(rows, q, link);
    WaitingCounters(rows, q, link, r, i);
    WaitingBegin(rows, q, link, r, i);
    hide Sound, Waiting, InStep, AddPage, Send, Defined, Bound, Window, PageStart;
    hide Carried, Page, PagesOverflow, Ready, SmallLog;
    if WantsPage(link, r) {
      var added := AddPage(rows, q, link, r);
      PageWaiting(rows, q, link, r, i);
      WaitingBegin(rows, q, link, added, i + 1);
      SendKeeps(link, added, false);
      PageThatFits(rows, q, link, i, added.pending);
    } else {
      SendKeeps(link, r, false);
    }
  }

  /** The same of the response to the request itself. */
  lemma FirstResponse(rows: seq<Row>, q: Query, link: Link)
    requires Sound(rows, q, link) && Ready(rows, q, link) && PagesOverflow(rows, q, link)
    requires Window(rows, 0, q).0 <= |rows| && Opened(rows, q, link).final
    ensures var t := Opened(rows, q, link);
      var (b, e) := Window(rows, 0, q);
      t.begin == |rows| || (b <= e && t.begin == e + 1)
  {
    SmallSound(rows, q, link);
    ReadyFresh(rows, q, link);
    FreshWaiting(rows, q, link);
    FirstPageOf(rows, q, link);
    var added := AddPage(rows, q, link, Fresh(rows, q));
    WaitingCounters(rows, q, link, added, 1);
    WaitingBegin(rows, q, link, added, 1);
    hide Window, NextBegin, EncodeRows, AddPage, Send, Sound, Ready, Waiting, PagesOverflow, SmallLog, Fresh;
    hide PageStart, Page, Carried, Stream;
    SendKeeps(link, added, true);
    if link.Fits(|added.pending|) {
      PageThatFits(rows, q, link, 0, added.pending);
    }
  }

  /** A read goes to the end of the file, or to one row past its window. */
  lemma {:induction false} EndOfRead(rows: seq<Row>, q: Query, link: Link, k: nat)
    requires Sound(rows, q, link) && Ready(rows, q, link) && PagesOverflow(rows, q, link)
    requires Window(rows, 0, q).0 <= |rows| && Responses(rows, q, link, k).final
    ensures var (b, e) := Window(rows, 0, q);
      var m := Responses(rows, q, link, k).begin;
      m == |rows| || (b <= e && m == e + 1)
    decreases k
  {
    hide Sound, InStep, Next, Opened, Bound, Window, PagesOverflow, Ready, Responses;
    if k == 0 {
      ResponsesFirst(rows, q, link);
      FirstResponse(rows, q, link);
    } else {
      var r := Responses(rows, q, link, k - 1);
      ResponsesNext(rows, q, link, k - 1);
      if r.final {
        NextKeepsFinal(rows, q, link, r);
        EndOfRead(rows, q, link, k - 1);
      } else {
        var i := ResponsesInStep(rows, q, link, k - 1);
        LastResponse(rows, q, link, r, i);
        InStepBegin(rows, q, link, r, i);
      }
    }
  }

  lemma InStepBegin(rows: seq<Row>, q: Query, link: Link, r: Reader, i: nat)
    requires InStep(rows, q, link, r, i)
    ensures Window(rows, 0, q).0 <= r.begin && r.end == Window(rows, 0, q).1
  {
    hide Window, Announced, Stream, PageStart, Cut;
    StartBounds(rows, q, link, i);
  }

  lemma NextMoves(rows: seq<Row>, q: Query, link: Link, r: Reader, i: nat)
    requires Sound(rows, q, link) && Ready(rows, q, link) && Bound(rows, q, r) && InStep(rows, q, link, r, i)
    ensures var t := Next(rows, q, link, r);
      && t.begin >= r.begin
      && (t.begin > r.begin && r.begin <= r.end < t.begin && r.end < |rows| ==> t.begin == r.end + 1)
  {
    BoundDefined(rows, q, link, r);
    if !r.final {
      StillWaiting(rows, q, link, r, i);
      WaitingBegin(rows, q, link, r, i);
      hide Sound, Waiting, InStep, AddPage, Send, Defined, Bound, Window, NextBegin, Carried, Page;
      if WantsPage(link, r) {
        PageWaiting(rows, q, link, r, i);
        WaitingBegin(rows, q, link, AddPage(rows, q, link, r), i + 1);
        SendKeeps(link, AddPage(rows, q, link, r), false);
        NextBeginStops(|rows|, r.begin, r.end, link.rowToPdu);
      } else {
        SendKeeps(link, r, false);
      }
    }
  }

  lemma NextBeginStops(n: nat, p: nat, e: nat, rowToPdu: nat)
    requires p <= n
    ensures p <= e < n && NextBegin(n, p, e, rowToPdu) > e ==> NextBegin(n, p, e, rowToPdu) == e + 1
  {
  }

  /** Past the end of its window and not ended, a read goes on to the end of the file. */
  lemma {:induction false} RunsOn(rows: seq<Row>, q: Query, link: Link, j: nat, k: nat)
    requires Sound(rows, q, link) && Ready(rows, q, link) && PagesOverflow(rows, q, link) && j <= k
    requires Responses(rows, q, link, j).begin > Window(rows, 0, q).1 && !Responses(rows, q, link, j).final
    ensures Responses(rows, q, link, k).begin > Window(rows, 0, q).1
    ensures Responses(rows, q, link, k).final ==> Responses(rows, q, link, k).begin == |rows|
    decreases k
  {
    hide Sound, InStep, Next, Opened, Bound, Window, PagesOverflow, Ready, Responses;
    if k > j {
      var r := Responses(rows, q, link, k - 1);
      RunsOn(rows, q, link, j, k - 1);
      var i := ResponsesInStep(rows, q, link, k - 1);
      ResponsesNext(rows, q, link, k - 1);
      NextMoves(rows, q, link, r, i);
      if r.final {
        NextKeepsFinal(rows, q, link, r);
      } else if Responses(rows, q, link, k).final {
        LastResponse(rows, q, link, r, i);
      }
    }
  }

  // ---- The main results ----

  /** Response `j` is the first to go past the end of the window. */
  predicate Passes(rows: seq<Row>, q: Query, link: Link, j: nat)
    requires Ready(rows, q, link)
  {
    && Responses(rows, q, link, j).begin > Window(rows, 0, q).1
    && (j > 0 ==> Responses(rows, q, link, j - 1).begin <= Window(rows, 0, q).1)
  }

  /** A window inside the file: if everything waiting fits the block that carries its last rows, the
      answer is the window and the row after it; otherwise it is all the rest of the file. */
  lemma ExtraRowOrRest(rows: seq<Row>, q: Query, link: Link, j: nat, k: nat)
    requires Sound(rows, q, link) && Ready(rows, q, link)
    requires Carries(rows, q, link) && PagesOverflow(rows, q, link)
    requires Window(rows, 0, q).0 <= Window(rows, 0, q).1 < |rows|
    requires Passes(rows, q, link, j) && j <= k && Responses(rows, q, link, k).final
    ensures Responses(rows, q, link, k).sent
         == Answer(rows, q, link, if Responses(rows, q, link, j).final then Window(rows, 0, q).1 + 1 else |rows|)
  {
    WholeDelivers(rows, q, link, k);
    PassesByOne(rows, q, link, j);
    hide Sound, Window, PagesOverflow, Carries, Ready, Responses, Passes, Answer, Cut;
    if Cut(rows, q, link) { CutAtEnd(rows, q, link); }
    if Responses(rows, q, link, j).final {
      StaysFinal(rows, q, link, j, k);
    } else {
      PassesBegin(rows, q, link, j);
      RunsOn(rows, q, link, j, k);
    }
  }

  lemma PassesBegin(rows: seq<Row>, q: Query, link: Link, j: nat)
    requires Ready(rows, q, link) && Passes(rows, q, link, j)
    ensures Responses(rows, q, link, j).begin > Window(rows, 0, q).1
    ensures j > 0 ==> Responses(rows, q, link, j - 1).begin <= Window(rows, 0, q).1
  {
    hide Window, Responses, Ready;
  }

  lemma PassesByOne(rows: seq<Row>, q: Query, link: Link, j: nat)
    requires Sound(rows, q, link) && Ready(rows, q, link)
    requires Window(rows, 0, q).0 <= Window(rows, 0, q).1 < |rows| && Passes(rows, q, link, j)
    ensures Responses(rows, q, link, j).begin == Window(rows, 0, q).1 + 1
  {
    hide Sound, InStep, Next, Opened, Bound, Window, Ready, Responses, Passes, NextBegin;
    PassesBegin(rows, q, link, j);
    if j == 0 {
      ResponsesFirst(rows, q, link);
      OpenedBegin(rows, q, link);
      NextBeginStops(|rows|, Window(rows, 0, q).0, Window(rows, 0, q).1, link.rowToPdu);
    } else {
      var r := Responses(rows, q, link, j - 1);
      var i := ResponsesInStep(rows, q, link, j - 1);
      ResponsesNext(rows, q, link, j - 1);
      InStepBegin(rows, q, link, r, i);
      NextMoves(rows, q, link, r, i);
    }
  }

  lemma OpenedBegin(rows: seq<Row>, q: Query, link: Link)
    requires Sound(rows, q, link) && Ready(rows, q, link)
    ensures var (b, e) := Window(rows, 0, q);
      Opened(rows, q, link).begin == NextBegin(|rows|, b, e, link.rowToPdu)
  {
    OpenedInStep(rows, q, link);
    FirstPageOf(rows, q, link);
    hide Window, Opened, Sound, Ready, NextBegin, Page, Carried, Announced, PageStart, Stream, Cut;
  }

  /** A window of at most a page that fits a block with the row after it has its final response at
      once: it brings the window and that row, when the file has one. */
  lemma ShortReadEndsAtOnce(rows: seq<Row>, q: Query, link: Link)
    requires Sound(rows, q, link) && Ready(rows, q, link)
    requires var (b, e) := Window(rows, 0, q); b <= e <= b + link.rowToPdu
    requires link.Fits(|Answer(rows, q, link, LastOf(rows, q))|)
    ensures Responses(rows, q, link, 0).final && Responses(rows, q, link, 0).Over()
    ensures Responses(rows, q, link, 0).sent == Answer(rows, q, link, LastOf(rows, q))
  {
    SmallSound(rows, q, link);
    SoundReady(rows, q, link);
    FirstPageOf(rows, q, link);
    FirstAnswer(rows, q, link);
    hide Window, AddPage, Answer, Sound, Ready, Responses, Send, NextBegin, Page, Carried, Waiting, PageStart, Stream;
    ReadyFresh(rows, q, link);
    FreshWaiting(rows, q, link);
    var (b, e) := Window(rows, 0, q);
    ShortPage(|rows|, b, e, link.rowToPdu);
    CarriedAll(Page(rows, q, link, 0));
    var added := AddPage(rows, q, link, Fresh(rows, q));
    ResponsesFirst(rows, q, link);
    SendKeeps(link, added, true);
    var sent := Send(link, added, true).sent;
    assert sent + [] == sent;
    Regroup([], [], added.pending);
  }

  /** One row past the window, or the end of the file. */
  function LastOf(rows: seq<Row>, q: Query): (m: nat)
    ensures Window(rows, 0, q).0 <= Window(rows, 0, q).1 ==> Window(rows, 0, q).0 <= m
  {
    var (b, e) := Window(rows, 0, q);
    if e < |rows| then e + 1 else e
  }

  lemma ShortPage(n: nat, b: nat, e: nat, rowToPdu: nat)
    requires b <= e <= n && e - b <= rowToPdu
    ensures NextBegin(n, b, e, rowToPdu) == if e < n then e + 1 else e
  {
  }

  /** The answer is the window exactly when the window runs to the end of the file and its last byte
      is not lost. */
  lemma AnswerExactIff(rows: seq<Row>, q: Query, link: Link, k: nat)
    requires Sound(rows, q, link) && Ready(rows, q, link)
    requires Carries(rows, q, link) && PagesOverflow(rows, q, link) && Visible(rows, link)
    requires Window(rows, 0, q).0 <= |rows| && Responses(rows, q, link, k).final
    ensures var (b, e) := Window(rows, 0, q);
      b <= e && Responses(rows, q, link, k).sent == Answer(rows, q, link, e)
      <==> b <= e == |rows| && !Cut(rows, q, link)
  {
    hide Window, Sound, Ready, Responses, Answer, PagesOverflow, Carries, Visible, Cut;
    SoundReady(rows, q, link);
    WholeDelivers(rows, q, link, k);
    EndOfRead(rows, q, link, k);
    FinalBegin(rows, q, link, k);
    var (b, e) := Window(rows, 0, q);
    if b <= e < |rows| {
      WindowInsideNeverExact(rows, q, link, k);
    }
  }
}
