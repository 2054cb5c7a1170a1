/** The chunked file download of the EC200 modem driver: the chunk loop seeks and reads through
    the file, and each answer, echoed command and all, is cut down to its payload. Bytes are
    characters; the serial line hands over an answer as a whole. */
module Download {
  import opened Decimal

  const CHUNK := 10240
  const MAX_COUNT := 4

  // ---- One answer ----

  /** The last index before the payload, looked up by the digits of the chunk size. */
  function Lead(digits: nat): nat {
    if digits == 5 then 34 else if digits == 4 then 32 else if digits == 3 then 30
    else if digits == 2 then 28 else 26
  }

  const TRAIL := 6

  function DigitCount(n: nat): nat {
    if n == 0 then 0 else |Dec(n)|
  }

  /** Where the payload of an answer begins; an answer too short for one has none. */
  function First(answer: string, size: nat): (first: nat)
    ensures first <= |answer|
  {
    var lead := Lead(DigitCount(size));
    if lead + 1 + TRAIL <= |answer| then lead + 1 else |answer|
  }

  function Last(answer: string, size: nat): (last: nat)
    ensures First(answer, size) <= last <= |answer|
  {
    if Lead(DigitCount(size)) + 1 + TRAIL <= |answer| then |answer| - TRAIL else |answer|
  }

  /** The bytes of an answer that go to the file. */
  function Payload(answer: string, size: nat): string {
    answer[First(answer, size)..Last(answer, size)]
  }

  /** The bytes of an answer that are kept as text. */
  function Text(answer: string, size: nat): string {
    answer[..First(answer, size)] + answer[Last(answer, size)..]
  }

  // What has been sorted out of the first `k` bytes.

  function Clamp(k: nat, low: nat, high: nat): (c: nat)
    requires low <= high
    ensures low <= c <= high
  {
    if k <= low then low else if k <= high then k else high
  }

  function PayloadSoFar(answer: string, first: nat, last: nat, k: nat): string
    requires first <= last <= |answer|
  {
    answer[first..Clamp(k, first, last)]
  }

  function TextSoFar(answer: string, first: nat, last: nat, k: nat): string
    requires first <= last <= |answer|
  {
    answer[..Clamp(k, 0, first)] + answer[last..Clamp(k, last, |answer|)]
  }

  lemma SliceNext(s: string, from: nat, k: nat)
    requires from <= k < |s|
    ensures s[from..k + 1] == s[from..k] + [s[k]]
  {
  }

  lemma SortOneByte(answer: string, first: nat, last: nat, k: nat)
    requires first <= last <= |answer| && k < |answer|
    ensures PayloadSoFar(answer, first, last, k + 1)
         == PayloadSoFar(answer, first, last, k) + (if first <= k < last then [answer[k]] else "")
    ensures TextSoFar(answer, first, last, k + 1)
         == TextSoFar(answer, first, last, k) + (if first <= k < last then "" else [answer[k]])
  {
    if k < first {
      SliceNext(answer, 0, k);
      assert answer[last..last] == "";
    } else if k < last {
      SliceNext(answer, first, k);
    } else {
      SliceNext(answer, last, k);
    }
  }

  predicate ContainsOK(s: string) {
    exists i :: 0 <= i < |s| - 1 && s[i] == 'O' && s[i + 1] == 'K'
  }

  class File {
    var contents: string

    constructor ()
      ensures contents == ""
    {
      contents := "";
    }

    method Truncate()
      modifies this
      ensures contents == ""
    {
      contents := "";
    }

    method Write(c: char)
      modifies this
      ensures contents == old(contents) + [c]
    {
      contents := contents + [c];
    }
  }

  /** That is, the text has "OK" somewhere in it. */
  lemma ContainsOKIff(s: string)
    ensures ContainsOK(s) <==> exists before, after :: s == before + "OK" + after
  {
    if ContainsOK(s) {
      var i :| 0 <= i < |s| - 1 && s[i] == 'O' && s[i + 1] == 'K';
      assert s == s[..i] + "OK" + s[i + 2..];
    }
    if before, after :| s == before + "OK" + after {
      assert s[|before|] == 'O' && s[|before| + 1] == 'K';
    }
  }

  /** The payload of an answer, by position: behind 25 bytes and two more for each digit of the chunk
      size, up to the last six; what is left over is the text. An answer too short for both has no
      payload. A size without digits, or with more than five, counts as one digit. */
  lemma PayloadAt(answer: string, size: nat)
    ensures var digits := if size == 0 || size >= 100000 then 1 else |Dec(size)|;
      var from := 25 + 2 * digits;
      && Payload(answer, size) == (if from + 6 <= |answer| then answer[from..|answer| - 6] else "")
      && Text(answer, size) == (if from + 6 <= |answer| then answer[..from] + answer[|answer| - 6..] else answer)
  {
    if size < 100000 { DecLengths(size); } else { LongNumber(size); }
  }

  lemma {:induction false} LongNumber(n: nat)
    requires n >= 100000
    ensures |Dec(n)| > 5
  {
    if n < 1000000 { DecLengths(n / 10); } else { LongNumber(n / 10); }
  }

  method NumberOfDigits(n: nat) returns (count: nat)
    ensures count == DigitCount(n)
  {
    var m := n;
    count := 0;
    while m != 0
      invariant count + DigitCount(m) == DigitCount(n)
    {
      m := m / 10;
      count := count + 1;
    }
  }

  /** What a read of the empty line gives, cut to a char. */
  const NO_BYTE := 255 as char

  /** Until its time is up the loop reads on past the answer, twice at most. */
  function Filler(idle: nat): (text: string)
    ensures |text| <= 2
  {
    if idle == 0 then "" else if idle == 1 then [NO_BYTE] else [NO_BYTE, NO_BYTE]
  }

  // What the first `k` reads have sorted out, reads past the end of the answer included.

  function PayloadAfter(answer: string, size: nat, k: nat): string {
    PayloadSoFar(answer, First(answer, size), Last(answer, size), if k <= |answer| then k else |answer|)
  }

  function TextAfter(answer: string, size: nat, k: nat): string {
    TextSoFar(answer, First(answer, size), Last(answer, size), if k <= |answer| then k else |answer|)
    + Filler(if k <= |answer| then 0 else k - |answer|)
  }

  /** The two comparisons of the loop; the difference is taken in unsigned 32-bit arithmetic. */
  predicate Inside(answer: string, size: nat, k: nat) {
    k > Lead(DigitCount(size)) && k < (|answer| - 6) % 0x1_0000_0000
  }

  lemma ReadOne(answer: string, size: nat, k: nat)
    requires |answer| < 0x8000_0000 && k <= |answer| + 1
    ensures var c := if k < |answer| then answer[k] else NO_BYTE;
      && PayloadAfter(answer, size, k + 1)
         == PayloadAfter(answer, size, k) + (if Inside(answer, size, k) then [c] else "")
      && TextAfter(answer, size, k + 1)
         == TextAfter(answer, size, k) + (if Inside(answer, size, k) then "" else [c])
  {
    hide First, Last, PayloadSoFar, TextSoFar, DigitCount;
    if k < |answer| {
      SortOneByte(answer, First(answer, size), Last(answer, size), k);
      PayloadBounds(answer, size, k);
    } else {
      PastTheEnd(answer, size, k);
    }
  }

  /** Behind the answer nothing goes to the file, not even for an answer shorter than its trailer. */
  lemma PastTheEnd(answer: string, size: nat, k: nat)
    requires |answer| < 0x8000_0000 && |answer| <= k <= |answer| + 1
    ensures !Inside(answer, size, k)
  {
  }

  lemma ReadNone(answer: string, size: nat)
    ensures PayloadAfter(answer, size, 0) == "" && TextAfter(answer, size, 0) == ""
  {
    hide First, Last;
    BytesSorted(answer, First(answer, size), Last(answer, size));
  }

  lemma ReadAll(answer: string, size: nat, idle: nat)
    ensures PayloadAfter(answer, size, |answer| + idle) == Payload(answer, size)
    ensures TextAfter(answer, size, |answer| + idle) == Text(answer, size) + Filler(idle)
  {
    hide First, Last, PayloadSoFar, TextSoFar, Filler;
    BytesSorted(answer, First(answer, size), Last(answer, size));
  }

  /** Reads one answer off the line, and `idle` times more while the time lasts: the payload goes to
      the file, the rest is returned. */
  method StoreFile(f: File, answer: string, rxBufferSize: nat, idle: nat) returns (str: string)
    requires |answer| < 0x8000_0000
    modifies f
    ensures f.contents == old(f.contents) + Payload(answer, rxBufferSize)
    ensures str == Text(answer, rxBufferSize) + Filler(idle)
  {
    hide PayloadAfter, TextAfter, Payload, Text;
    var digits := NumberOfDigits(rxBufferSize);
    var disB := Lead(digits);
    var size := |answer|;
    str := "";
    ghost var before := f.contents;
    ReadNone(answer, rxBufferSize);
    ReadAll(answer, rxBufferSize, idle);
    ReadAll(answer, rxBufferSize, 2);
    var count := 0;
    var limit := size + idle;
    while count < limit
      invariant count <= limit && count <= size + 1
      invariant f.contents == before + PayloadAfter(answer, rxBufferSize, count)
      invariant str == TextAfter(answer, rxBufferSize, count)
    {
      ReadOne(answer, rxBufferSize, count);
      var c := if count < size then answer[count] else NO_BYTE;
      if count > disB && count < (size - 6) % 0x1_0000_0000 {
        f.Write(c);
      } else {
        str := str + [c];
      }
      if count > size {
        break;
      }
      count := count + 1;
    }
  }

  /** The filler, at most two bytes of all ones, neither says OK nor helps to. */
  lemma FillerIsMute(text: string, idle: nat)
    ensures |Filler(idle)| == if idle < 2 then idle else 2
    ensures forall i :: 0 <= i < |Filler(idle)| ==> Filler(idle)[i] as int == 0xFF
    ensures ContainsOK(text + Filler(idle)) <==> ContainsOK(text)
  {
    var all := text + Filler(idle);
    assert forall i :: |text| <= i < |all| ==> all[i] == NO_BYTE;
    if ContainsOK(text) {
      var i :| 0 <= i < |text| - 1 && text[i] == 'O' && text[i + 1] == 'K';
      assert all[i] == 'O' && all[i + 1] == 'K';
    }
  }

  lemma BytesSorted(answer: string, first: nat, last: nat)
    requires first <= last <= |answer|
    ensures PayloadSoFar(answer, first, last, 0) == "" && TextSoFar(answer, first, last, 0) == ""
    ensures PayloadSoFar(answer, first, last, |answer|) == answer[first..last]
    ensures TextSoFar(answer, first, last, |answer|) == answer[..first] + answer[last..]
  {
  }

  /** The loop's two comparisons pick out the payload, the unsigned one included. */
  lemma PayloadBounds(answer: string, size: nat, k: nat)
    requires k < |answer| < 0x8000_0000
    ensures k > Lead(DigitCount(size)) && k < (|answer| - 6) % 0x1_0000_0000
       <==> First(answer, size) <= k < Last(answer, size)
  {
  }

  // ---- The chunk loop ----

  /** The answers of the modem to a read of `size` bytes at `seek`, try by try. */
  type Modem = (nat, nat, nat) -> string

  /** What one chunk adds to the file: every try adds its payload, until a text contains OK. */
  function ChunkWrites(modem: Modem, seek: nat, size: nat, limit: nat, attempt: nat): string
    decreases limit - attempt
  {
    var answer := modem(seek, size, attempt);
    Payload(answer, size)
    + if attempt + 1 < limit && !ContainsOK(Text(answer, size))
      then ChunkWrites(modem, seek, size, limit, attempt + 1) else ""
  }

  /** The number of full chunks, in the 16-bit variable that holds it. */
  function Parts(fileSize: nat): (parts: nat)
    ensures parts * CHUNK + fileSize % CHUNK <= fileSize
  {
    PartsFit(fileSize);
    fileSize / CHUNK % 0x1_0000
  }

  lemma PartsFit(n: nat)
    ensures n / CHUNK % 0x1_0000 * CHUNK + n % CHUNK <= n
    ensures n / CHUNK < 0x1_0000 ==> n / CHUNK % 0x1_0000 * CHUNK + n % CHUNK == n
  {
  }

  function ChunkSize(fileSize: nat, i: nat): nat {
    if i == Parts(fileSize) then fileSize % CHUNK else CHUNK
  }

  /** What the first `k` chunks add to the file. */
  function Chunks(modem: Modem, fileSize: nat, limit: nat, k: nat): string {
    if k == 0 then ""
    else Chunks(modem, fileSize, limit, k - 1)
         + ChunkWrites(modem, (k - 1) * CHUNK, ChunkSize(fileSize, k - 1), limit, 0)
  }

  function Downloaded(modem: Modem, fileSize: nat, limit: nat): string {
    Chunks(modem, fileSize, limit, Parts(fileSize) + 1)
  }

  function Limit(numofRetry: nat): nat { if numofRetry < MAX_COUNT then numofRetry else MAX_COUNT }

  /** How often the line is read on after an answer, try by try. */
  type Idle = (nat, nat, nat) -> nat

  /** The retry loop around one read: at least one try, and no more than the limit. */
  method ReadChunk(f: File, modem: Modem, idle: Idle, seekSize: nat, chunkSize: nat, numofRetry: nat)
    requires forall seek, size, attempt :: |modem(seek, size, attempt)| < 0x8000_0000
    modifies f
    ensures f.contents == old(f.contents) + ChunkWrites(modem, seekSize, chunkSize, Limit(numofRetry), 0)
  {
    hide Payload, Text, ContainsOK, Filler;
    var count := 0;
    var done := false;
    while !done
      invariant !done ==> count == 0 || count < Limit(numofRetry)
      invariant old(f.contents) + ChunkWrites(modem, seekSize, chunkSize, Limit(numofRetry), 0)
             == f.contents + (if done then "" else ChunkWrites(modem, seekSize, chunkSize, Limit(numofRetry), count))
      decreases !done, Limit(numofRetry) - count
    {
      var buffer := StoreFile(f, modem(seekSize, chunkSize, count), chunkSize, idle(seekSize, chunkSize, count));
      FillerIsMute(Text(modem(seekSize, chunkSize, count), chunkSize), idle(seekSize, chunkSize, count));
      count := count + 1;
      done := !(count < numofRetry && count < MAX_COUNT && !ContainsOK(buffer));
    }
  }

  /** The file is opened by some try within the limit, the first one always being made. */
  predicate Opens(opens: nat -> bool, limit: nat) {
    opens(0) || exists attempt :: 0 < attempt < limit && opens(attempt)
  }

  /** Asks the modem to open its file until it does or the tries are used up. */
  method OpenModemFile(opens: nat -> bool, numofRetry: nat) returns (ok: bool)
    ensures ok <==> Opens(opens, Limit(numofRetry))
    ensures ok <==> || opens(0) || (numofRetry > 1 && opens(1)) || (numofRetry > 2 && opens(2))
                    || (numofRetry > 3 && opens(3))
  {
    var count := 1;
    ok := opens(0);
    while count < numofRetry && count < MAX_COUNT && !ok
      invariant 1 <= count && (count == 1 || count <= Limit(numofRetry))
      invariant ok <==> opens(0) || exists attempt :: 0 < attempt < count && opens(attempt)
      decreases MAX_COUNT - count
    {
      ok := opens(count);
      count := count + 1;
    }
  }

  /** Without the modem's file nothing is touched; with it the local file is written anew. A seek
      that fails is only reported, so the modem may answer a read from anywhere. */
  method ReadFile(f: File, opens: nat -> bool, modem: Modem, idle: Idle, fileSize: nat, numofRetry: nat)
    returns (ok: bool)
    requires fileSize < 0x1_0000_0000
    requires forall seek, size, attempt :: |modem(seek, size, attempt)| < 0x8000_0000
    modifies f
    ensures ok <==> Opens(opens, Limit(numofRetry))
    ensures f.contents == if ok then Downloaded(modem, fileSize, Limit(numofRetry)) else old(f.contents)
  {
    hide ChunkWrites, Limit, Opens;
    var chunkSize := CHUNK;
    var downloadParts := fileSize / chunkSize % 0x1_0000;
    var lastPacket := fileSize % chunkSize;
    var seekSize := 0;
    ok := OpenModemFile(opens, numofRetry);
    if !ok {
      return;
    }
    f.Truncate();
    for i := 0 to downloadParts + 1
      invariant chunkSize == if i <= downloadParts then CHUNK else lastPacket
      invariant seekSize == if i == 0 then 0 else (i - 1) * CHUNK
      invariant f.contents == Chunks(modem, fileSize, Limit(numofRetry), i)
    {
      if i == 0 {
        seekSize := 0;
      } else {
        seekSize := seekSize + chunkSize;
      }
      if i == downloadParts {
        chunkSize := lastPacket;
      }
      ReadChunk(f, modem, idle, seekSize, chunkSize, numofRetry);
    }
  }

  // ---- The answer of a modem that echoes the command ----

  function Header(handle: nat, size: nat): string {
    "AT+QFREAD=" + Dec(handle) + "," + Dec(size) + "\r\r\nCONNECT " + Dec(size) + "\r\n"
  }

  function Echo(handle: nat, size: nat, data: string): string {
    Header(handle, size) + data + "\r\nOK\r\n"
  }

  /** The tail of the header that a handle of more than one digit pushes past the expected offset. */
  function Excess(handle: nat, size: nat): string
    requires size <= CHUNK
  {
    HeaderLength(handle, size);
    Header(handle, size)[Lead(DigitCount(size)) + 1..]
  }

  lemma HeaderLength(handle: nat, size: nat)
    requires size <= CHUNK
    ensures |Header(handle, size)| == Lead(DigitCount(size)) + |Dec(handle)|
  {
    DecLengths(size);
  }

  /** What is cut out of an echoed answer: the data, after whatever the handle's further digits displaced. */
  lemma EchoPayload(handle: nat, size: nat, data: string)
    requires size <= CHUNK
    ensures Payload(Echo(handle, size, data), size) == Excess(handle, size) + data
    ensures |Excess(handle, size)| == |Dec(handle)| - 1
  {
    hide Lead, DigitCount, Header;
    HeaderLength(handle, size);
    CutOut(Header(handle, size), data, "\r\nOK\r\n", Lead(DigitCount(size)) + 1);
  }

  lemma CutOut(header: string, data: string, trailer: string, first: nat)
    requires first <= |header|
    ensures var answer := header + data + trailer;
      answer[first..|answer| - |trailer|] == header[first..] + data
  {
  }

  /** The text kept of an echoed answer says OK, so it is read once. */
  lemma EchoSaysOK(handle: nat, size: nat, data: string)
    requires size <= CHUNK
    ensures ContainsOK(Text(Echo(handle, size, data), size))
  {
    HeaderLength(handle, size);
    var answer := Echo(handle, size, data);
    hide Lead, DigitCount, Header;
    var text, first := Text(answer, size), First(answer, size);
    assert answer[|answer| - 6..] == "\r\nOK\r\n";
    assert text[first + 2] == 'O' && text[first + 3] == 'K';
  }

  /** Every first try is answered by the echo and the bytes of the file asked for. */
  ghost predicate Faithful(modem: Modem, handle: nat, file: string) {
    forall seek: nat, size: nat :: size <= 10240 && seek + size <= |file| ==>
      modem(seek, size, 0) == Echo(handle, size, file[seek..seek + size])
  }

  lemma FaithfulChunk(modem: Modem, handle: nat, file: string, seek: nat, size: nat, limit: nat)
    requires Faithful(modem, handle, file) && size <= CHUNK && seek + size <= |file|
    ensures ChunkWrites(modem, seek, size, limit, 0) == Excess(handle, size) + file[seek..seek + size]
    ensures |ChunkWrites(modem, seek, size, limit, 0)| == |Dec(handle)| - 1 + size
    ensures |Dec(handle)| == 1 ==> ChunkWrites(modem, seek, size, limit, 0) == file[seek..seek + size]
  {
    EchoPayload(handle, size, file[seek..seek + size]);
    EchoSaysOK(handle, size, file[seek..seek + size]);
    hide Payload, Text, ContainsOK, Echo, Excess;
    assert ChunkWrites(modem, seek, size, limit, 0) == Excess(handle, size) + file[seek..seek + size];
  }

  /** The first `k` chunks: with a one-digit handle the beginning of the file, with a longer one too long. */
  lemma {:induction false} FaithfulChunks(modem: Modem, handle: nat, file: string, limit: nat, k: nat)
    requires Faithful(modem, handle, file) && k <= Parts(|file|)
    ensures |Chunks(modem, |file|, limit, k)| == k * CHUNK + k * (|Dec(handle)| - 1)
    ensures |Dec(handle)| == 1 ==> Chunks(modem, |file|, limit, k) == file[..k * CHUNK]
    decreases k
  {
    hide Faithful, Excess, ChunkWrites, Dec, Parts;
    if k > 0 {
      FaithfulChunks(modem, handle, file, limit, k - 1);
      var start, extra := (k - 1) * CHUNK, |Dec(handle)| - 1;
      FaithfulChunk(modem, handle, file, start, CHUNK, limit);
      var before, last := Chunks(modem, |file|, limit, k - 1), ChunkWrites(modem, start, CHUNK, limit, 0);
      assert Chunks(modem, |file|, limit, k) == before + last by {
        assert ChunkSize(|file|, k - 1) == CHUNK;
      }
      assert |before + last| == k * CHUNK + k * extra by {
        assert k * extra == (k - 1) * extra + extra;
      }
      assert file[..start + CHUNK] == file[..start] + file[start..start + CHUNK];
    }
  }

  /** Chunks cut off by 16 bits and bytes added by a longer handle never make up for each other. */
  lemma LengthsAgree(parts: nat, digits: nat)
    requires 1 <= digits <= 3
    ensures parts % 0x1_0000 * CHUNK + (parts % 0x1_0000 + 1) * (digits - 1) == parts * CHUNK
       <==> digits == 1 && parts < 0x1_0000
  {
    var p := parts % 0x1_0000;
    assert (p + 1) * (digits - 1) == if digits == 1 then 0 else if digits == 2 then p + 1 else 2 * (p + 1);
  }

  lemma PartsDownloaded(modem: Modem, handle: nat, file: string, limit: nat)
    requires Faithful(modem, handle, file)
    ensures var k, last := Parts(|file|), |file| % CHUNK;
            && k * CHUNK + last <= |file|
            && |Downloaded(modem, |file|, limit)| == k * CHUNK + (k + 1) * (|Dec(handle)| - 1) + last
            && (|Dec(handle)| == 1 ==> Downloaded(modem, |file|, limit) == file[..k * CHUNK + last])
  {
    hide Faithful, Excess, ChunkWrites, Dec, Parts;
    var k, last, extra := Parts(|file|), |file| % CHUNK, |Dec(handle)| - 1;
    var full := k * CHUNK;
    FaithfulChunks(modem, handle, file, limit, k);
    FaithfulChunk(modem, handle, file, full, last, limit);
    var chunks, final := Chunks(modem, |file|, limit, k), ChunkWrites(modem, full, last, limit, 0);
    assert Downloaded(modem, |file|, limit) == chunks + final;
    assert (k + 1) * extra == k * extra + extra;
    if extra == 0 {
      assert final == file[full..full + last];
    }
  }

  /** Length and, for a one-digit handle, content of what all chunks together write. */
  lemma DownloadedParts(modem: Modem, handle: nat, file: string, limit: nat)
    requires Faithful(modem, handle, file)
    ensures var k, last := |file| / 10240 % 0x1_0000, |file| % 10240;
            && k * 10240 + last <= |file|
            && |Downloaded(modem, |file|, limit)| == k * 10240 + (k + 1) * (|Dec(handle)| - 1) + last
            && (|Dec(handle)| == 1 ==> Downloaded(modem, |file|, limit) == file[..k * 10240 + last])
  {
    hide Faithful, Downloaded, Dec;
    PartsAre(|file|);
    PartsDownloaded(modem, handle, file, limit);
  }

  lemma PartsAre(n: nat)
    ensures Parts(n) == n / 10240 % 0x1_0000 && Parts(n) * 10240 + n % 10240 <= n
  {
  }

  lemma SizesAgree(n: nat, digits: nat)
    requires 1 <= digits <= 3
    ensures Parts(n) * CHUNK + (Parts(n) + 1) * (digits - 1) + n % CHUNK == n <==> digits == 1 && n / CHUNK < 0x1_0000
    ensures n / CHUNK < 0x1_0000 ==> Parts(n) * CHUNK + n % CHUNK == n
  {
    LengthsAgree(n / CHUNK, digits);
    PartsFit(n);
    assert n == n / CHUNK * CHUNK + n % CHUNK;
  }

  /** The download reproduces the file exactly when the handle, a byte, has one digit and the
      number of full chunks, of 10240 bytes, fits its 16 bits. */
  lemma DownloadExactIff(modem: Modem, handle: nat, file: string, limit: nat)
    requires handle < 256 && |file| < 0x1_0000_0000 && Faithful(modem, handle, file)
    ensures Downloaded(modem, |file|, limit) == file <==> handle < 10 && |file| / 10240 < 0x1_0000
  {
    hide Faithful, Downloaded, Dec;
    DecLengths(handle);
    PartsDownloaded(modem, handle, file, limit);
    SizesAgree(|file|, |Dec(handle)|);
    assert file[..|file|] == file;
  }

  lemma {:induction false} TriesLeft(modem: Modem, seek: nat, size: nat, limit: nat, attempt: nat, payload: string)
    requires forall j: nat :: Payload(modem(seek, size, j), size) == payload
    requires forall j: nat :: !ContainsOK(Text(modem(seek, size, j), size))
    ensures |ChunkWrites(modem, seek, size, limit, attempt)|
         == (if attempt + 1 < limit then limit - attempt else 1) * |payload|
    decreases limit - attempt
  {
    hide Payload, Text, ContainsOK;
    if attempt + 1 < limit {
      TriesLeft(modem, seek, size, limit, attempt + 1, payload);
      OneMorePayload(limit - attempt - 1, |payload|);
    }
  }

  lemma OneMorePayload(tries: nat, n: nat)
    ensures n + tries * n == (tries + 1) * n
  {
  }

  /** A modem that never says OK is asked at least once and at most four times, whatever the number of
      retries, and each try leaves its payload in the file. */
  lemma TriesCount(modem: Modem, seek: nat, size: nat, numofRetry: nat, payload: string)
    requires forall j: nat :: Payload(modem(seek, size, j), size) == payload
    requires forall j: nat :: !ContainsOK(Text(modem(seek, size, j), size))
    ensures |ChunkWrites(modem, seek, size, Limit(numofRetry), 0)|
         == (if numofRetry < 2 then 1 else if numofRetry < 4 then numofRetry else 4) * |payload|
  {
    hide Payload, Text, ContainsOK;
    TriesLeft(modem, seek, size, Limit(numofRetry), 0, payload);
  }

  /** A try whose text lacks OK is read again, and its payload stays: a chunk is written right
      on the second try exactly when the first brought no payload. */
  lemma RetryAppends(modem: Modem, handle: nat, seek: nat, size: nat, data: string, limit: nat)
    requires handle < 10 && size <= CHUNK && limit > 1
    requires !ContainsOK(Text(modem(seek, size, 0), size)) && modem(seek, size, 1) == Echo(handle, size, data)
    ensures ChunkWrites(modem, seek, size, limit, 0) == Payload(modem(seek, size, 0), size) + data
    ensures ChunkWrites(modem, seek, size, limit, 0) == data <==> Payload(modem(seek, size, 0), size) == ""
  {
    EchoPayload(handle, size, data);
    EchoSaysOK(handle, size, data);
    DecLengths(handle);
    hide Payload, Text, ContainsOK, Echo, Excess;
    assert ChunkWrites(modem, seek, size, limit, 1) == data;
  }
}
