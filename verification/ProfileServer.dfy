/** The framework's handling of a profile read, as code over its settings and its long transaction. */
module ProfileServer {
  import opened Basics
  import opened Bytes
  import opened ProfileLog
  import opened ProfileRead

  lemma EncodeNext(link: Link, table: seq<Row>, i: nat)
    requires i < |table|
    ensures EncodeRows(link, table[..i + 1]) == EncodeRows(link, table[..i]) + link.encode(table[i])
  {
    assert table[..i + 1][..i] == table[..i];
  }

  /** The first `n` rows from row number `start` on, rows counted from 1. */
  function Picked(table: seq<Row>, start: nat, n: nat): seq<Row>
    requires start > 0
  {
    if start - 1 + n <= |table| then table[start - 1..start - 1 + n] else []
  }

  lemma PickNext(table: seq<Row>, start: nat, n: nat)
    requires start > 0 && start + n <= |table|
    ensures Picked(table, start, n + 1) == Picked(table, start, n) + [table[start + n - 1]]
  {
  }

  lemma PickedAll(table: seq<Row>, start: nat, n: nat)
    requires start > 0 && start - 1 <= |table|
    ensures start - 1 + n == |table| ==> Picked(table, start, n) == table[start - 1..]
  {
  }

  /** The counters, the bytes that wait in a long transaction, whether there is one, the bytes the
      client has got, and whether the last response said that they are all. */
  class Server {
    var index: nat
    var count: nat
    var transaction: seq<bv8>
    var inProgress: bool
    var received: seq<bv8>
    var final: bool

    ghost function Current(e: ValueEventArg): Reader
      reads this, e
    {
      Reader(e.rowBeginIndex, e.rowEndIndex, index, count, transaction, received, final)
    }

    /** Encodes a table: the array header before the first row of the read, then row by row. */
    method GetData(link: Link, e: ValueEventArg, table: seq<Row>) returns (data: seq<bv8>)
      requires |table| < 0x1_0000 && index < 0x1_0000 && e.rowBeginIndex < 0x1_0000 && e.rowEndIndex < 0x1_0000
      modifies this`index, e`rowBeginIndex
      ensures data == PageBytes(link, old(index), old(e.rowBeginIndex), e.rowEndIndex, table)
      ensures index == (old(index) + |table|) % 0x1_0000
      ensures e.rowBeginIndex
           == if e.rowEndIndex != 0 then (old(e.rowBeginIndex) + |table|) % 0x1_0000 else old(e.rowBeginIndex)
    {
      hide Head, HeadOf, EncodeRows;
      data := [];
      if index == 0 {
        data := if e.rowEndIndex != 0 then HeadOf(e.rowBeginIndex, e.rowEndIndex) else Head(|table|);
      }
      ghost var head := data;
      NoRows(link);
      assert table[..0] == [] && head + [] == head;
      for i := 0 to |table|
        invariant e.rowBeginIndex == old(e.rowBeginIndex)
        invariant data == head + EncodeRows(link, table[..i])
        invariant index == (old(index) + i) % 0x1_0000
      {
        EncodeNext(link, table, i);
        Regroup(head, EncodeRows(link, table[..i]), link.encode(table[i]));
        WrapNext(old(index) + i);
        data := data + link.encode(table[i]);
        index := (index + 1) % 0x1_0000;
      }
      assert table[..|table|] == table;
      if e.rowEndIndex != 0 {
        e.SetRowBeginIndex(e.rowBeginIndex + |table|);
      }
    }

    /** Picks the rows to encode out of the buffer when the end index is zero. */
    method GetProfileGenericData(link: Link, e: ValueEventArg, p: ProfileGeneric) returns (data: seq<bv8>)
      requires |p.buffer| < 0x1_0000 && index < 0x1_0000 && e.rowBeginIndex < 0x1_0000 && e.rowEndIndex < 0x1_0000
      requires TableDefined(e.query, e.rowEndIndex, p.buffer)
      modifies this`index, e`rowBeginIndex
      ensures var table := Table(e.query, e.rowEndIndex, p.buffer);
        && |table| <= |p.buffer|
        && data == PageBytes(link, old(index), old(e.rowBeginIndex), e.rowEndIndex, table)
        && index == (old(index) + |table|) % 0x1_0000
        && e.rowBeginIndex
           == if e.rowEndIndex != 0 then (old(e.rowBeginIndex) + |table|) % 0x1_0000 else old(e.rowBeginIndex)
    {
      hide PageBytes;
      if e.query.All? || e.rowEndIndex != 0 {
        data := GetData(link, e, p.buffer);
        return;
      }
      var items: seq<Row>;
      match e.query {
        case Range(start, end) => items := PickRange(p.buffer, start, end);
        case Entry(first, last) => items := PickEntries(p.buffer, first, last);
      }
      data := GetData(link, e, items);
    }

    static method PickRange(table: seq<Row>, start: int, end: int) returns (items: seq<Row>)
      ensures items == Within(table, start, end) && |items| <= |table|
    {
      items := [];
      for i := 0 to |table|
        invariant items == Within(table[..i], start, end) && |items| <= i
      {
        assert table[..i + 1][..i] == table[..i];
        var tm := table[i].time;
        if tm >= start && tm <= end {
          items := items + [table[i]];
        }
      }
      assert table[..|table|] == table;
    }

    static method PickEntries(table: seq<Row>, first: nat, last: nat) returns (items: seq<Row>)
      requires table != [] ==> StartOf(first) <= |table|
      ensures items == ByNumber(table, first, last)
    {
      var start, count := first, last;
      if start == 0 {
        start := 1;
      }
      if count == 0 {
        count := |table|;
      }
      if start + count - 1 > |table| {
        count := |table|;
      }
      items := [];
      var pos := 0;
      while pos < count
        invariant 0 <= pos <= count <= |table|
        invariant pos > 0 ==> pos + start - 1 <= |table|
        invariant items == Picked(table, start, pos)
      {
        if pos + start - 1 == |table| {
          break;
        }
        PickNext(table, start, pos);
        items := items + [table[start + pos - 1]];
        pos := pos + 1;
      }
      if table != [] { PickedAll(table, start, pos); }
    }

    /** Builds one response out of `data` and returns what is left of it. `multiple` says that blocks are in use. */
    method GetLNPdu(link: Link, data: seq<bv8>, multiple: bool, ghost begin: nat, ghost end: nat)
      returns (rest: seq<bv8>)
      requires link.Valid()
      modifies this`index, this`count, this`received, this`final
      ensures
        Send(link, Reader(begin, end, old(index), old(count), data, old(received), old(final)), !multiple)
        == Reader(begin, end, index, count, rest, received, final)
    {
      var multipleBlocks := multiple || count != index;
      var lastBlock := count == index;
      var len := |data| + link.Extra();
      if data != [] {
        if !multipleBlocks {
          multipleBlocks := 2 + 1 + len > link.maxPdu;
        }
        if multipleBlocks || lastBlock {
          lastBlock := !(8 + 1 + len > link.maxPdu);
        }
      }
      final := !multipleBlocks || lastBlock;
      if multipleBlocks {
        if lastBlock {
          count := 0;
          index := 0;
        }
        len := |data|;
        if len + 9 + link.Extra() > link.maxPdu {
          FullBlock(link, len);
          len := link.maxPdu - 9 - link.Extra();
          len := len - CountSize(len);
        }
        received := received + data[..len];
        rest := data[len..];
      } else {
        len := |data|;
        if len + 4 > link.maxPdu {
          len := link.maxPdu - 4;
        }
        received := received + data[..len];
        rest := data[len..];
      }
      assert data[..|data|] == data && data[|data|..] == [];
    }

    /** The request: counters reset, first page buffered, announced and encoded, first response sent.
        An earlier transaction stays when nothing is left of this one. */
    method GetRequestNormal(file: LogFile, e: ValueEventArg, p: ProfileGeneric, link: Link)
      requires Ready(file.rows, e.query, link)
      requires e.attribute == 2 && e.rowToPdu == link.rowToPdu && e.rowBeginIndex == 0 && e.rowEndIndex == 0
      modifies this, e, p
      ensures var r := Opened(file.rows, e.query, link);
        && received == old(received) + r.sent && final == r.final && index == r.index && count == r.count
        && e.rowBeginIndex == r.begin && e.rowEndIndex == r.end
        && (if r.Over() then inProgress == old(inProgress) && transaction == old(transaction)
            else inProgress && transaction == r.pending)
    {
      hide Window, Slice, PageSize, Table, PageBytes, Send;
      ghost var before := received;
      ghost var opening := Fresh(file.rows, e.query);
      WindowBounds(file.rows, e.query);
      FreshFields(file.rows, e.query);
      count, index := 0, 0;
      PreRead(file, e, p);
      SliceLength(file.rows, e.rowBeginIndex, PageSize(e.rowBeginIndex, e.rowEndIndex, e.rowToPdu));
      count := (e.rowEndIndex - e.rowBeginIndex) % 0x1_0000;
      ghost var c := count;
      var data := GetProfileGenericData(link, e, p);
      var bb := data[..|data| % 0x1_0000];
      ghost var page := AddPage(file.rows, e.query, link, opening);
      assert page.pending == Carried(data) by { assert [] + Carried(data) == Carried(data); }
      SendAfter(link, page, before, final, true);
      var rest := GetLNPdu(link, bb, false, e.rowBeginIndex, e.rowEndIndex);
      if count != index || rest != [] {
        inProgress := true;
        transaction := rest;
      }
    }

    /** A request for the next block: one more page while rows are announced and the waiting bytes
        are fewer than a PDU, and one more response. */
    method GetRequestNextDataBlock(file: LogFile, e: ValueEventArg, p: ProfileGeneric, link: Link)
      requires Ready(file.rows, e.query, link) && Bound(file.rows, e.query, Current(e)) && inProgress
      requires e.attribute == 2 && e.rowToPdu == link.rowToPdu && index < 0x1_0000
      requires e.rowBeginIndex < 0x1_0000 && e.rowEndIndex < 0x1_0000
      modifies this, e, p
      ensures BoundDefinedAt(file.rows, e.query, link, old(Current(e)))
      ensures Current(e) == Respond(file.rows, e.query, link, old(Current(e)))
      ensures inProgress == !Current(e).Over()
      ensures !(old(index) != old(count) && |old(transaction)| < link.maxPdu) ==> p.buffer == old(p.buffer)
      ensures old(index) != old(count) && |old(transaction)| < link.maxPdu && old(e.rowEndIndex) != 0 ==>
                p.buffer == Slice(file.rows, old(e.rowBeginIndex),
                                  PageSize(old(e.rowBeginIndex), old(e.rowEndIndex), e.rowToPdu))
    {
      hide Window, Slice, PageSize, Table, PageBytes, Send;
      ghost var r := Current(e);
      BoundDefined(file.rows, e.query, link, r);
      WindowBounds(file.rows, e.query);
      var bb := transaction;
      var moreData := index != count;
      if moreData && |bb| < link.maxPdu {
        PreRead(file, e, p);
        SliceLength(file.rows, e.rowBeginIndex, PageSize(e.rowBeginIndex, e.rowEndIndex, e.rowToPdu));
          var data := GetProfileGenericData(link, e, p);
        bb := bb + data[..|data| % 0x1_0000];
      }
      var rest := GetLNPdu(link, bb, true, e.rowBeginIndex, e.rowEndIndex);
      transaction := rest;
      if !(index != count || rest != []) {
        inProgress := false;
      }
    }
  }

  predicate BoundDefinedAt(rows: seq<Row>, q: Query, link: Link, r: Reader) {
    link.Valid() && SmallLog(rows) && Defined(rows, q, link, r)
  }

  /** What a client got before plays no part in a response. */
  lemma SendAfter(link: Link, r: Reader, before: seq<bv8>, final: bool, first: bool)
    requires link.Valid() && r.sent == []
    ensures Send(link, r.(sent := before, final := final), first)
         == Send(link, r, first).(sent := before + Send(link, r, first).sent)
  {
  }
}
