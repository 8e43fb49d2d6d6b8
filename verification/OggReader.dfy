/** Reading the pages of an Ogg stream (section 6 of RFC 3533). */
module OggReader {
  import opened Wrappers
  import opened OggChecksum

  const PAGE_HEADER_LEN := 27
  const MAX_SEGMENT_COUNT := 255
  const MAX_SEGMENT_SIZE := 255
  const MAX_PAGE_PAYLOAD_LENGTH := MAX_SEGMENT_COUNT * MAX_SEGMENT_SIZE

  datatype ReadError = UnexpectedEof | Other

  datatype OggReaderError = ChecksumMismatch | PayloadTooLarge | Read(error: ReadError)

  /** A stream that hands out its bytes in pieces of any size, and fails whenever it likes. */
  class ByteSource {
    const data: seq<bv8>
    var pos: nat
    ghost var faults: nat

    ghost predicate Valid() reads this {
      pos <= |data|
    }

    constructor (data: seq<bv8>)
      ensures Valid() && this.data == data && pos == 0 && faults == 0
    {
      this.data := data;
      pos, faults := 0, 0;
    }

    /** Reads at least one byte if there is one and room for it, or fails. */
    method Read(buf: array<bv8>, from: nat, to: nat) returns (r: Result<nat, ReadError>)
      requires Valid() && from <= to <= buf.Length
      modifies this, buf
      ensures Valid() && faults == old(faults) + if r.Err? then 1 else 0
      ensures r.Err? ==> r.error == Other && pos == old(pos)
      ensures r.Ok? ==> pos == old(pos) + r.value && r.value <= to - from
                        && (r.value == 0 <==> from == to || old(pos) == |data|)
      ensures forall k :: 0 <= k < buf.Length ==>
                buf[k] == if r.Ok? && from <= k < from + r.value then data[old(pos) + k - from] else old(buf[k])
    {
      var fails: bool := *;
      if fails {
        faults := faults + 1;
        return Err(Other);
      }
      if from == to || pos == |data| {
        return Ok(0);
      }
      var n: nat :| 0 < n <= to - from && n <= |data| - pos;
      var start := pos;
      forall k | from <= k < from + n {
        buf[k] := data[start + k - from];
      }
      pos := pos + n;
      return Ok(n);
    }
  }

  /** How reading `size` bytes ends: all are there, or the stream stops earlier, at its end or by a failure. */
  ghost predicate ReadIs(r: Result<(), ReadError>, size: nat, length: nat, pos: nat, pos': nat, faults: nat,
                         faults': nat) {
    && pos <= pos' <= length && (if r.Ok? then pos' == pos + size else pos' < pos + size)
    && (r == Err(UnexpectedEof) ==> pos' == length)
    && faults' == faults + if r == Err(Other) then 1 else 0
  }

  lemma ReadSize(r: Result<(), ReadError>, size: nat, length: nat, pos: nat, pos': nat, faults: nat, faults': nat)
    requires ReadIs(r, size, length, pos, pos', faults, faults')
    ensures pos <= pos' <= length && (r.Ok? ==> faults' == faults)
    ensures if r.Ok? then pos' == pos + size else pos' < pos + size
  {}

  /** A part of what is to be read that stops is all of it that stops. */
  lemma ReadPart(r: Result<(), ReadError>, start: nat, size: nat, part: nat, length: nat, pos: nat, pos': nat,
                 faults: nat, faults': nat)
    requires ReadIs(r, part, length, pos, pos', faults, faults') && r.Err? && start <= pos && pos + part <= start + size
    ensures ReadIs(r, size, length, start, pos', faults, faults')
  {}

  lemma ReadAll(size: nat, length: nat, pos: nat, faults: nat)
    requires pos + size <= length
    ensures ReadIs(Ok(()), size, length, pos, pos + size, faults, faults)
  {}

  /** Reads until `buf[from..to]` is full. */
  method ReadExactFrom(reader: ByteSource, buf: array<bv8>, from: nat, to: nat) returns (r: Result<(), ReadError>)
    requires reader.Valid() && from <= to <= buf.Length
    modifies reader, buf
    ensures ReadIs(r, to - from, |reader.data|, old(reader.pos), reader.pos, old(reader.faults), reader.faults)
    ensures r.Ok? ==> buf[from..to] == reader.data[old(reader.pos)..reader.pos]
    ensures forall k :: 0 <= k < from || to <= k < buf.Length ==> buf[k] == old(buf[k])
  {
    var at := from;
    while at < to
      invariant from <= at <= to && reader.Valid() && reader.pos == old(reader.pos) + (at - from)
      invariant reader.faults == old(reader.faults)
      invariant forall k :: 0 <= k < buf.Length ==>
                  buf[k] == if from <= k < at then reader.data[old(reader.pos) + k - from] else old(buf[k])
    {
      var n := reader.Read(buf, at, to);
      if n.Err? {
        return Err(n.error);
      }
      if n.value == 0 {
        return Err(UnexpectedEof);
      }
      at := at + n.value;
    }
    return Ok(());
  }

  // ----- what a page is -----

  /** A page as it is in the stream: 27 bytes of header, the segment table and the payload. */
  datatype Page = Page(header: seq<bv8>, lacing: seq<bv8>, payload: seq<bv8>)

  /** Payload bytes in the first `n` segments. */
  function Total(lacing: seq<bv8>, n: nat): nat
    requires n <= |lacing|
  {
    if n == 0 then 0 else Total(lacing, n - 1) + lacing[n - 1] as int
  }

  lemma {:induction false} TotalBound(lacing: seq<bv8>, m: nat, n: nat)
    requires m <= n <= |lacing|
    ensures Total(lacing, m) <= Total(lacing, n) <= Total(lacing, m) + MAX_SEGMENT_SIZE * (n - m)
    decreases n
  {
    if m < n {
      TotalBound(lacing, m, n - 1);
    }
  }

  lemma SegmentFits(lacing: seq<bv8>, n: nat)
    requires n < |lacing| <= MAX_SEGMENT_COUNT
    ensures Total(lacing, n + 1) == Total(lacing, n) + lacing[n] as int <= Total(lacing, |lacing|)
    ensures Total(lacing, |lacing|) <= MAX_PAGE_PAYLOAD_LENGTH
  {
    TotalStep(lacing, n);
    TotalBound(lacing, 0, |lacing|);
  }

  lemma TotalStep(lacing: seq<bv8>, n: nat)
    requires n < |lacing|
    ensures Total(lacing, 0) == 0 && Total(lacing, n + 1) == Total(lacing, n) + lacing[n] as int
    ensures Total(lacing, n + 1) <= Total(lacing, |lacing|)
  {
    TotalBound(lacing, n + 1, |lacing|);
  }

  ghost predicate IsPage(p: Page) {
    |p.header| == PAGE_HEADER_LEN && |p.lacing| == p.header[26] as int && |p.payload| == Total(p.lacing, |p.lacing|)
  }

  /** Everything that belongs to a page, in stream order. */
  ghost function PageBytes(p: Page): seq<bv8> {
    p.header + p.lacing + p.payload
  }

  /** The payload bytes of one segment. */
  ghost function Segment(p: Page, i: nat): seq<bv8>
    requires IsPage(p) && i < |p.lacing|
  {
    TotalBound(p.lacing, i + 1, |p.lacing|);
    p.payload[Total(p.lacing, i)..Total(p.lacing, i + 1)]
  }

  /** The checksum that the page says it has. */
  function Field(header: seq<bv8>): bv32
    requires |header| == PAGE_HEADER_LEN
  {
    FromLittleEndian(header[22], header[23], header[24], header[25])
  }

  function FromLittleEndian(a: bv8, b: bv8, c: bv8, d: bv8): bv32 {
    (a as bv32) | ((b as bv32) << 8) | ((c as bv32) << 16) | ((d as bv32) << 24)
  }

  function ByteAt(header: seq<bv8>, i: nat): bv8
    requires i < |header|
  {
    if 22 <= i < 26 then 0 else header[i]
  }

  /** The header as it goes into the checksum: without the checksum. */
  function Unsealed(header: seq<bv8>): (h: seq<bv8>)
    ensures |h| == |header|
  {
    seq(|header|, i requires 0 <= i < |header| => ByteAt(header, i))
  }

  ghost predicate Sealed(p: Page)
    requires IsPage(p)
  {
    Checksum(Unsealed(p.header) + p.lacing + p.payload) == Field(p.header)
  }

  /** What a stream holds at `pos`. */
  ghost function PageAt(data: seq<bv8>, pos: nat, doChecksum: bool): Result<Page, OggReaderError>
    requires pos <= |data|
  {
    if |data| - pos < PAGE_HEADER_LEN then Err(Read(UnexpectedEof))
    else
      var table := pos + PAGE_HEADER_LEN;
      var count := data[pos + 26] as int;
      if |data| - table < count then Err(Read(UnexpectedEof))
      else
        var lacing := data[table..table + count];
        var start := table + count;
        if |data| - start < Total(lacing, count) then Err(Read(UnexpectedEof))
        else
          var p := Page(data[pos..table], lacing, data[start..start + Total(lacing, count)]);
          if doChecksum && !Sealed(p) then Err(ChecksumMismatch) else Ok(p)
  }

  /** Bytes of the whole segments from the `n`th on, when the stream stops after `left` of their bytes. */
  ghost function WholeSegments(lacing: seq<bv8>, n: nat, left: nat): nat
    requires n <= |lacing|
    decreases |lacing| - n
  {
    if n == |lacing| || lacing[n] as int > left then 0
    else lacing[n] as int + WholeSegments(lacing, n + 1, left - lacing[n] as int)
  }

  /** Bytes that count as read when the stream stops at `end`: those of the header, the segment table and
      the segments that are whole. */
  ghost function Counted(data: seq<bv8>, pos: nat, end: nat): nat
    requires pos <= end <= |data|
  {
    if end - pos < PAGE_HEADER_LEN then 0
    else
      var table, count := pos + PAGE_HEADER_LEN, data[pos + 26] as int;
      if end - table < count then PAGE_HEADER_LEN
      else PAGE_HEADER_LEN + count + WholeSegments(data[table..table + count], 0, end - table - count)
  }

  lemma {:induction false} WholeFrom(lacing: seq<bv8>, i: nat, n: nat, left: nat)
    requires i <= n <= |lacing| && Total(lacing, i) <= Total(lacing, n)
    ensures WholeSegments(lacing, i, Total(lacing, n) - Total(lacing, i) + left)
         == Total(lacing, n) - Total(lacing, i) + WholeSegments(lacing, n, left)
    decreases n - i
  {
    if i < n {
      TotalBound(lacing, i + 1, n);
      WholeFrom(lacing, i + 1, n, left);
    }
  }

  /** Reading stops inside segment `n`, or after the last one. */
  lemma WholeUpTo(lacing: seq<bv8>, n: nat, left: nat)
    requires n <= |lacing| && (if n == |lacing| then left == 0 else left < lacing[n] as int)
    ensures WholeSegments(lacing, 0, Total(lacing, n) + left) == Total(lacing, n)
  {
    TotalBound(lacing, 0, n);
    WholeFrom(lacing, 0, n, left);
  }

  /** The header and the segment table are the bytes from `start` to `table`. */
  ghost predicate TableRead(data: seq<bv8>, start: nat, table: nat, header: seq<bv8>, lacing: seq<bv8>) {
    && table == start + PAGE_HEADER_LEN + |lacing| <= |data| && |lacing| == data[start + 26] as int
    && header == data[start..start + PAGE_HEADER_LEN] && lacing == data[start + PAGE_HEADER_LEN..table]
  }

  lemma HeaderRead(data: seq<bv8>, start: nat, table: nat, header: seq<bv8>, front: seq<bv8>)
    requires table == start + PAGE_HEADER_LEN <= |data| && front == data[start..table]
    requires |header| == PAGE_HEADER_LEN && front == header[..PAGE_HEADER_LEN]
    ensures header == data[start..start + PAGE_HEADER_LEN] && header[26] == data[start + 26]
  {
    assert header == front;
  }

  lemma TableMade(data: seq<bv8>, start: nat, end: nat, header: seq<bv8>, lacing: seq<bv8>)
    requires end == start + PAGE_HEADER_LEN + |lacing| <= |data| && |lacing| == data[start + 26] as int
    requires header == data[start..start + PAGE_HEADER_LEN] && lacing == data[start + PAGE_HEADER_LEN..end]
    ensures TableRead(data, start, end, header, lacing)
  {}

  lemma TableSize(data: seq<bv8>, start: nat, table: nat, header: seq<bv8>, lacing: seq<bv8>)
    requires TableRead(data, start, table, header, lacing)
    ensures start <= table <= |data| && |lacing| <= MAX_SEGMENT_COUNT
  {}

  /** The stream ends before the page does. */
  ghost predicate NoPage(data: seq<bv8>, pos: nat) {
    pos <= |data| && PageAt(data, pos, true) == PageAt(data, pos, false) == Err(Read(UnexpectedEof))
  }

  /** The stream stops in the header or in the segment table. */
  lemma NoTable(data: seq<bv8>, start: nat, end: nat)
    requires start <= end <= |data|
    requires end - start < PAGE_HEADER_LEN || end - start - PAGE_HEADER_LEN < data[start + 26] as int
    ensures Counted(data, start, end) == if end - start < PAGE_HEADER_LEN then 0 else PAGE_HEADER_LEN
    ensures end == |data| ==> NoPage(data, start)
  {}

  /** How reading the header or the segment table ends. */
  lemma ReadStops(r: Result<(), ReadError>, size: nat, data: seq<bv8>, start: nat, pos: nat, pos': nat, faults: nat,
                  faults': nat)
    requires ReadIs(r, size, |data|, pos, pos', faults, faults')
    requires if pos == start then size == PAGE_HEADER_LEN
             else pos == start + PAGE_HEADER_LEN <= |data| && size == data[start + 26] as int
    ensures pos <= pos' <= |data| && faults' == faults + if r == Err(Other) then 1 else 0
    ensures r.Ok? ==> pos' == pos + size
    ensures r.Err? ==> Counted(data, start, pos') == pos - start
    ensures r == Err(UnexpectedEof) ==> pos' == |data| && NoPage(data, start)
  {
    hide Counted, NoPage;
    if r.Err? {
      NoTable(data, start, pos');
    }
  }

  /** The stream stops in the payload. */
  lemma NoPayload(data: seq<bv8>, start: nat, table: nat, end: nat, header: seq<bv8>, lacing: seq<bv8>)
    requires TableRead(data, start, table, header, lacing) && table <= end <= |data|
    requires end - table < Total(lacing, |lacing|)
    ensures end == |data| ==> NoPage(data, start)
  {
    hide Total;
  }

  lemma SegmentsCounted(data: seq<bv8>, start: nat, table: nat, end: nat, header: seq<bv8>, lacing: seq<bv8>)
    requires TableRead(data, start, table, header, lacing) && table <= end <= |data|
    ensures Counted(data, start, end) == PAGE_HEADER_LEN + |lacing| + WholeSegments(lacing, 0, end - table)
  {
    hide WholeSegments;
  }

  /** The parts of a page are the bytes from `start` to `end`. */
  ghost predicate PageRead(data: seq<bv8>, start: nat, end: nat, p: Page) {
    var table := start + PAGE_HEADER_LEN + |p.lacing|;
    && IsPage(p) && end == table + |p.payload| <= |data| && data[table..end] == p.payload
    && TableRead(data, start, table, p.header, p.lacing)
  }

  lemma PageMade(data: seq<bv8>, start: nat, table: nat, end: nat, p: Page)
    requires TableRead(data, start, table, p.header, p.lacing) && table <= end <= |data|
    requires p.payload == data[table..end] && end - table == Total(p.lacing, |p.lacing|)
    ensures PageRead(data, start, end, p) && IsPage(p)
  {
    hide Total;
    assert p.header[26] == data[start + 26];
  }

  lemma PartOf(data: seq<bv8>, from: nat, to: nat, a: seq<bv8>, b: seq<bv8>, c: seq<bv8>)
    requires from <= to <= |data| && data[from..to] == c == a + b
    ensures data[from..from + |a|] == a && data[from + |a|..to] == b
  {
    assert data[from..from + |a|] == (a + b)[..|a|];
    assert data[from + |a|..to] == (a + b)[|a|..];
  }

  /** Where the parts of a page are in a stream, that page is there. */
  lemma PageFound(data: seq<bv8>, start: nat, end: nat, p: Page, doChecksum: bool)
    requires PageRead(data, start, end, p)
    ensures start <= |data| && end == start + |PageBytes(p)|
    ensures PageAt(data, start, doChecksum) == if doChecksum && !Sealed(p) then Err(ChecksumMismatch) else Ok(p)
  {
    hide Sealed, Total;
  }

  /** So it is where all its bytes are, one after the other. */
  lemma WholePage(data: seq<bv8>, pos: nat, p: Page, doChecksum: bool)
    requires IsPage(p) && pos + |PageBytes(p)| <= |data| && data[pos..pos + |PageBytes(p)|] == PageBytes(p)
    ensures PageAt(data, pos, doChecksum) == if doChecksum && !Sealed(p) then Err(ChecksumMismatch) else Ok(p)
  {
    hide Sealed, Total, PageAt;
    var table, end := pos + PAGE_HEADER_LEN, pos + |PageBytes(p)|;
    var all := BytesJoin(p);
    PartOf(data, pos, end, p.header, p.lacing + p.payload, all);
    PartOf(data, table, end, p.lacing, p.payload, data[table..end]);
    assert data[pos..table][26] == data[pos + 26];
    PageFound(data, pos, end, p, doChecksum);
  }

  /** The bytes of a page, joined the other way. */
  lemma BytesJoin(p: Page) returns (all: seq<bv8>)
    ensures all == PageBytes(p) == p.header + (p.lacing + p.payload)
  {
    all := PageBytes(p);
  }

  /** The fields of a page header. */
  datatype PageHeader = PageHeader(
    signature: seq<bv8>, version: bv8, headerType: bv8, granulePosition: bv64, serial: bv32, index: bv32,
    segmentsCount: bv8)

  function Wide(low: bv32, high: bv32): bv64 {
    (low as bv64) | ((high as bv64) << 32)
  }

  function HeaderOf(h: seq<bv8>): PageHeader
    requires |h| == PAGE_HEADER_LEN
  {
    PageHeader(h[..4], h[4], h[5],
               Wide(FromLittleEndian(h[6], h[7], h[8], h[9]), FromLittleEndian(h[10], h[11], h[12], h[13])),
               FromLittleEndian(h[14], h[15], h[16], h[17]), FromLittleEndian(h[18], h[19], h[20], h[21]), h[26])
  }

  // ----- reading a page -----

  datatype SegmentInfo = SegmentInfo(offset: nat, len: nat)

  class OggReader {
    const stream: ByteSource
    var bytesReadSuccessfully: nat
    const checksumTable: array<bv32>
    const doChecksum: bool
    const payloadBuffer: array<bv8>
    var payloadLen: nat
    const segmentInfos: array<SegmentInfo>
    var segmentsCount: nat

    ghost predicate Valid() reads this, stream, checksumTable {
      && stream.Valid() && HoldsTable(checksumTable)
      && payloadBuffer.Length == MAX_PAGE_PAYLOAD_LENGTH && segmentInfos.Length == MAX_SEGMENT_COUNT
      && checksumTable as object != payloadBuffer && checksumTable as object != segmentInfos
      && payloadBuffer as object != segmentInfos
    }

    constructor (stream: ByteSource, doChecksum: bool)
      requires stream.Valid()
      ensures Valid() && this.stream == stream && this.doChecksum == doChecksum && bytesReadSuccessfully == 0
      ensures fresh(checksumTable) && fresh(payloadBuffer) && fresh(segmentInfos)
      ensures stream.pos == old(stream.pos)
    {
      hide HoldsTable;
      this.stream := stream;
      this.doChecksum := doChecksum;
      bytesReadSuccessfully := 0;
      var table := GenerateChecksumTable();
      checksumTable := table;
      payloadBuffer := new bv8[MAX_PAGE_PAYLOAD_LENGTH](_ => 0);
      payloadLen := 0;
      segmentInfos := new SegmentInfo[MAX_SEGMENT_COUNT](_ => SegmentInfo(0, 0));
      segmentsCount := 0;
    }

    /** The reader shows the segments of `p`. */
    ghost predicate Shows(p: Page) reads this, payloadBuffer, segmentInfos {
      && IsPage(p) && segmentsCount == |p.lacing| && payloadLen == |p.payload|
      && InfosShow(p.lacing, segmentsCount)
      && BytesShow(p.payload)
    }

    ghost predicate BytesShow(payload: seq<bv8>) reads payloadBuffer {
      |payload| <= payloadBuffer.Length && forall k :: 0 <= k < |payload| ==> payloadBuffer[k] == payload[k]
    }

    lemma BytesShown(payload: seq<bv8>)
      requires |payload| <= payloadBuffer.Length && payloadBuffer[..|payload|] == payload
      ensures BytesShow(payload)
    {
      forall k | 0 <= k < |payload|
        ensures payloadBuffer[k] == payload[k]
      {
        assert payloadBuffer[k] == payloadBuffer[..|payload|][k];
      }
    }

    lemma PageShown(p: Page)
      requires IsPage(p) && PayloadRead(p.lacing, p.payload)
      ensures Shows(p)
    {
      hide Total, InfosShow;
      BytesShown(p.payload);
    }

    ghost predicate InfosShow(lacing: seq<bv8>, n: nat) reads segmentInfos {
      n <= |lacing| && n <= segmentInfos.Length
      && forall i :: 0 <= i < n ==> segmentInfos[i] == SegmentInfo(Total(lacing, i), lacing[i] as int)
    }

    /** The bytes of segment `index` of the last page, if it has that many. */
    method Get(index: nat, ghost p: Page) returns (found: bool, segment: seq<bv8>)
      requires Shows(p)
      ensures found <==> index < |p.lacing|
      ensures found ==> segment == Segment(p, index)
    {
      hide Segment, Total;
      if index >= segmentsCount {
        return false, [];
      }
      var info := segmentInfos[index];
      SegmentAt(p, index);
      return true, payloadBuffer[info.offset..info.offset + info.len];
    }

    lemma SegmentAt(p: Page, index: nat)
      requires Shows(p) && index < segmentsCount
      ensures var info := segmentInfos[index];
              info.offset + info.len <= payloadBuffer.Length
              && payloadBuffer[info.offset..info.offset + info.len] == Segment(p, index)
    {
      hide Total;
      TotalStep(p.lacing, index);
      BytesAt(p.payload, Total(p.lacing, index), Total(p.lacing, index + 1));
    }

    lemma BytesAt(payload: seq<bv8>, from: nat, to: nat)
      requires BytesShow(payload) && from <= to <= |payload|
      ensures payloadBuffer[from..to] == payload[from..to]
    {}

    /** Reads one segment to its place in the payload. */
    method ReadSegment(segmentBuffer: array<bv8>, cursor: nat, len: nat, ghost start: nat)
      returns (r: Result<(), ReadError>)
      requires Valid() && segmentBuffer != payloadBuffer && len <= segmentBuffer.Length
      requires cursor + len <= payloadBuffer.Length && stream.pos == start + cursor
      requires payloadBuffer[..cursor] == stream.data[start..stream.pos]
      modifies this`bytesReadSuccessfully, stream, payloadBuffer, segmentBuffer
      ensures ReadIs(r, len, |stream.data|, old(stream.pos), stream.pos, old(stream.faults), stream.faults)
      ensures bytesReadSuccessfully == old(bytesReadSuccessfully) + if r.Ok? then len else 0
      ensures r.Ok? ==> payloadBuffer[..cursor + len] == stream.data[start..stream.pos]
    {
      hide HoldsTable;
      if len == 0 {
        return Ok(());
      }
      r := ReadExactFrom(stream, segmentBuffer, 0, len);
      if r.Ok? {
        bytesReadSuccessfully := bytesReadSuccessfully + len;
        CopySegment(segmentBuffer, payloadBuffer, cursor, len, stream.data, start);
      }
    }

    /** The first `n` segments have been read from `start` on. */
    ghost predicate SegmentsRead(lacing: seq<bv8>, n: nat, start: nat) reads this, stream, payloadBuffer, segmentInfos {
      && InfosShow(lacing, n) && stream.Valid() && stream.pos == start + Total(lacing, n)
      && Total(lacing, n) <= payloadBuffer.Length
      && payloadBuffer[..Total(lacing, n)] == stream.data[start..stream.pos]
    }

    /** Reads segment `index`, and notes where it is. */
    method NextSegment(segmentBuffer: array<bv8>, cursor: nat, index: nat, len: nat, ghost lacing: seq<bv8>,
                       ghost start: nat)
      returns (r: Result<(), ReadError>)
      requires Valid() && segmentBuffer.Length == MAX_SEGMENT_SIZE
      requires segmentBuffer != payloadBuffer && segmentBuffer as object != segmentInfos
      requires SegmentsRead(lacing, index, start) && index < |lacing| <= MAX_SEGMENT_COUNT
      requires cursor == Total(lacing, index) && len == lacing[index] as int
      modifies this`bytesReadSuccessfully, stream, payloadBuffer, segmentInfos, segmentBuffer
      ensures ReadIs(r, len, |stream.data|, old(stream.pos), stream.pos, old(stream.faults), stream.faults)
      ensures bytesReadSuccessfully == old(bytesReadSuccessfully) + if r.Ok? then len else 0
      ensures r.Ok? ==> SegmentsRead(lacing, index + 1, start) && cursor + len == Total(lacing, index + 1)
    {
      hide HoldsTable, Total, InfosShow, ReadIs;
      SegmentFits(lacing, index);
      r := ReadSegment(segmentBuffer, cursor, len, start);
      ReadSize(r, len, |stream.data|, old(stream.pos), stream.pos, old(stream.faults), stream.faults);
      if r.Ok? {
        SetInfo(index, cursor, len, lacing);
      }
    }

    /** The payload is in the buffer, and the infos tile it. */
    ghost predicate PayloadRead(lacing: seq<bv8>, payload: seq<bv8>) reads this, payloadBuffer, segmentInfos {
      && segmentsCount == |lacing| && payloadLen == |payload| == Total(lacing, |lacing|) <= payloadBuffer.Length
      && payloadBuffer[..payloadLen] == payload && InfosShow(lacing, |lacing|)
    }

    /** Reads the payload, segment by segment. */
    method ReadSegments(lacingValues: array<bv8>, count: nat) returns (r: Result<(), ReadError>)
      requires Valid() && count <= lacingValues.Length && count <= MAX_SEGMENT_COUNT
      requires lacingValues != payloadBuffer && lacingValues as object != segmentInfos
      modifies this`bytesReadSuccessfully, this`payloadLen, this`segmentsCount, stream, payloadBuffer, segmentInfos
      ensures Valid() && lacingValues[..count] == old(lacingValues[..count])
      ensures var lacing := lacingValues[..count];
              && ReadIs(r, Total(lacing, count), |stream.data|, old(stream.pos), stream.pos, old(stream.faults),
                        stream.faults)
              && bytesReadSuccessfully == old(bytesReadSuccessfully)
                 + WholeSegments(lacing, 0, stream.pos - old(stream.pos))
              && (r.Ok? ==> PayloadRead(lacing, stream.data[old(stream.pos)..stream.pos]))
    {
      hide HoldsTable, Total, WholeSegments, InfosShow, SegmentsRead, PayloadRead, ReadIs;
      ghost var lacing := lacingValues[..count];
      ghost var start := stream.pos;
      NoSegments(lacing, start);
      var segmentBuffer := new bv8[MAX_SEGMENT_SIZE](_ => 0);
      var cursor := 0;
      ghost var length, faults := |stream.data|, stream.faults;
      for index := 0 to count
        invariant Valid() && cursor == Total(lacing, index) && stream.pos == start + cursor
        invariant bytesReadSuccessfully == old(bytesReadSuccessfully) + cursor && stream.faults == old(stream.faults)
        invariant SegmentsRead(lacing, index, start) && lacingValues[..count] == lacing
      {
        SegmentFits(lacing, index);
        assert lacing[index] == lacingValues[index];
        var len := lacingValues[index] as int;
        r := NextSegment(segmentBuffer, cursor, index, len, lacing, start);
        ReadSize(r, len, length, start + cursor, stream.pos, faults, stream.faults);
        if r.Err? {
          ReadPart(r, start, Total(lacing, count), len, length, start + cursor, stream.pos, faults, stream.faults);
          WholeUpTo(lacing, index, stream.pos - start - cursor);
          return;
        }
        cursor := cursor + len;
      }
      WholeUpTo(lacing, count, 0);
      ReadAll(cursor, length, start, faults);
      Finish(cursor, count, lacing, start);
      return Ok(());
    }

    method Finish(cursor: nat, count: nat, ghost lacing: seq<bv8>, ghost start: nat)
      requires Valid() && SegmentsRead(lacing, count, start) && count == |lacing| <= MAX_SEGMENT_COUNT
      requires cursor == Total(lacing, count)
      modifies this`payloadLen, this`segmentsCount, segmentInfos
      ensures start <= stream.pos <= |stream.data| && PayloadRead(lacing, stream.data[start..stream.pos])
    {
      hide HoldsTable, Total, InfosShow;
      ClearInfos(count, lacing);
      payloadLen := cursor;
      segmentsCount := count;
    }

    method SetInfo(index: nat, offset: nat, len: nat, ghost lacing: seq<bv8>)
      requires index < segmentInfos.Length && InfosShow(lacing, index) && index < |lacing|
      requires offset == Total(lacing, index) && len == lacing[index] as int
      modifies segmentInfos
      ensures InfosShow(lacing, index + 1)
    {
      hide Total;
      segmentInfos[index] := SegmentInfo(offset, len);
    }

    method ClearInfos(count: nat, ghost lacing: seq<bv8>)
      requires segmentInfos.Length == MAX_SEGMENT_COUNT && count <= MAX_SEGMENT_COUNT && InfosShow(lacing, count)
      modifies segmentInfos
      ensures InfosShow(lacing, count)
    {
      hide Total;
      forall i | count <= i < MAX_SEGMENT_COUNT {
        segmentInfos[i] := SegmentInfo(0, 0);
      }
    }

    /** Reads the header and the segment table. */
    method ReadTable() returns (r: Result<nat, ReadError>, header: array<bv8>, lacingValues: array<bv8>)
      requires Valid()
      modifies this`bytesReadSuccessfully, stream
      ensures Valid() && fresh(header) && fresh(lacingValues)
      ensures stream.faults == old(stream.faults) + if r == Err(Other) then 1 else 0
      ensures old(stream.pos) <= stream.pos
      ensures r.Err? ==>
                bytesReadSuccessfully == old(bytesReadSuccessfully) + Counted(stream.data, old(stream.pos), stream.pos)
      ensures r == Err(UnexpectedEof) ==> stream.pos == |stream.data| && NoPage(stream.data, old(stream.pos))
      ensures r.Ok? ==> r.value <= lacingValues.Length
                        && TableRead(stream.data, old(stream.pos), stream.pos, header[..], lacingValues[..r.value])
                        && bytesReadSuccessfully == old(bytesReadSuccessfully) + PAGE_HEADER_LEN + r.value
    {
      hide HoldsTable, PageAt, NoPage, Counted, TableRead, ReadIs;
      ghost var data, start := stream.data, stream.pos;
      var done;
      done, header := ReadHeader();
      lacingValues := header;
      if done.Err? {
        return Err(done.error), header, lacingValues;
      }
      ghost var headerBytes, faults := header[..], stream.faults;
      var count := header[26] as int;
      done, lacingValues := ReadExact(MAX_SEGMENT_COUNT, count);
      ReadStops(done, count, data, start, start + PAGE_HEADER_LEN, stream.pos, faults, stream.faults);
      if done.Err? {
        return Err(done.error), header, lacingValues;
      }
      assert header[..] == headerBytes;
      TableMade(data, start, stream.pos, headerBytes, lacingValues[..count]);
      return Ok(count), header, lacingValues;
    }

    /** Reads the 27 bytes of the header. */
    method ReadHeader() returns (r: Result<(), ReadError>, header: array<bv8>)
      requires Valid()
      modifies this`bytesReadSuccessfully, stream
      ensures Valid() && fresh(header) && header.Length == PAGE_HEADER_LEN && old(stream.pos) <= stream.pos
      ensures stream.faults == old(stream.faults) + if r == Err(Other) then 1 else 0
      ensures r.Err? ==>
                bytesReadSuccessfully == old(bytesReadSuccessfully) + Counted(stream.data, old(stream.pos), stream.pos)
      ensures r == Err(UnexpectedEof) ==> stream.pos == |stream.data| && NoPage(stream.data, old(stream.pos))
      ensures r.Ok? ==> stream.pos == old(stream.pos) + PAGE_HEADER_LEN
                        && bytesReadSuccessfully == old(bytesReadSuccessfully) + PAGE_HEADER_LEN
                        && header[..] == stream.data[old(stream.pos)..stream.pos]
                        && header[26] == stream.data[old(stream.pos) + 26]
    {
      hide HoldsTable, PageAt, NoPage, Counted, ReadIs;
      ghost var data, start := stream.data, stream.pos;
      r, header := ReadExact(PAGE_HEADER_LEN, PAGE_HEADER_LEN);
      ReadStops(r, PAGE_HEADER_LEN, data, start, start, stream.pos, old(stream.faults), stream.faults);
      if r.Ok? {
        HeaderRead(data, start, stream.pos, header[..], header[..PAGE_HEADER_LEN]);
      }
    }

    /** Reads the first `n` bytes of a new buffer. */
    method ReadExact(size: nat, n: nat) returns (r: Result<(), ReadError>, buf: array<bv8>)
      requires Valid() && n <= size
      modifies this`bytesReadSuccessfully, stream
      ensures Valid() && fresh(buf) && buf.Length == size
      ensures ReadIs(r, n, |stream.data|, old(stream.pos), stream.pos, old(stream.faults), stream.faults)
      ensures bytesReadSuccessfully == old(bytesReadSuccessfully) + if r.Ok? then n else 0
      ensures r.Ok? ==> buf[..n] == stream.data[old(stream.pos)..stream.pos]
    {
      hide HoldsTable;
      buf := new bv8[size](_ => 0);
      r := ReadExactFrom(stream, buf, 0, n);
      if r.Ok? {
        bytesReadSuccessfully := bytesReadSuccessfully + n;
      }
    }

    /** Reads a whole page. */
    method ReadPage()
      returns (r: Result<nat, OggReaderError>, header: array<bv8>, lacingValues: array<bv8>, ghost p: Page)
      requires Valid()
      modifies this`bytesReadSuccessfully, this`payloadLen, this`segmentsCount, stream, payloadBuffer, segmentInfos
      ensures Valid() && old(stream.pos) <= stream.pos
      ensures r.Err? ==> r.error.Read?
      ensures stream.faults == old(stream.faults) + if r == Err(Read(Other)) then 1 else 0
      ensures bytesReadSuccessfully == old(bytesReadSuccessfully) + Counted(stream.data, old(stream.pos), stream.pos)
      ensures r == Err(Read(UnexpectedEof)) ==> stream.pos == |stream.data| && NoPage(stream.data, old(stream.pos))
      ensures r.Ok? ==>
                && Shows(p) && header[..] == p.header
                && r.value <= lacingValues.Length && lacingValues[..r.value] == p.lacing
                && PageRead(stream.data, old(stream.pos), stream.pos, p)
    {
      hide HoldsTable, Total, WholeSegments, InfosShow, PageAt, NoPage, PayloadRead, Shows, TableRead, PageRead,
           Counted;
      ghost var data, start := stream.data, stream.pos;
      var count;
      count, header, lacingValues := ReadTable();
      p := Page([], [], []);
      if count.Err? {
        return Err(Read(count.error)), header, lacingValues, p;
      }
      ghost var table, headerBytes, lacing := stream.pos, header[..], lacingValues[..count.value];
      TableSize(data, start, table, headerBytes, lacing);
      var ok := PayloadFits(lacingValues, count.value);
      if !ok {
        assert false;
        return Err(PayloadTooLarge), header, lacingValues, p;
      }
      var done := ReadSegments(lacingValues, count.value);
      SegmentsCounted(data, start, table, stream.pos, headerBytes, lacing);
      if done.Err? {
        NoPayload(data, start, table, stream.pos, headerBytes, lacing);
        return Err(Read(done.error)), header, lacingValues, p;
      }
      p := Page(headerBytes, lacing, data[table..stream.pos]);
      PageMade(data, start, table, stream.pos, p);
      PageShown(p);
      return Ok(count.value), header, lacingValues, p;
    }

    /** Reads the next page. */
    method ParseNextPage() returns (r: Result<PageHeader, OggReaderError>)
      requires Valid()
      modifies this`bytesReadSuccessfully, this`payloadLen, this`segmentsCount, stream, payloadBuffer, segmentInfos
      ensures Valid() && old(stream.pos) <= stream.pos
      ensures stream.faults == old(stream.faults) + if r == Err(Read(Other)) then 1 else 0
      ensures r != Err(Read(Other)) ==>
                match PageAt(stream.data, old(stream.pos), doChecksum)
                case Err(e) => r == Err(e)
                case Ok(p) => r == Ok(HeaderOf(p.header)) && Shows(p)
      ensures r != Err(Read(Other)) ==>
                match PageAt(stream.data, old(stream.pos), false)
                case Err(_) => stream.pos == |stream.data|
                case Ok(p) => stream.pos == old(stream.pos) + |PageBytes(p)|
      ensures bytesReadSuccessfully == old(bytesReadSuccessfully) + Counted(stream.data, old(stream.pos), stream.pos)
    {
      hide HoldsTable, Total, InfosShow, HeaderOf, Checksum, Unsealed, BytesShow, Field, PageAt, PageBytes, Counted,
           PageRead;
      var count, header, lacingValues, p := ReadPage();
      if count.Err? {
        assert count.error.error.Other? || count.error.error.UnexpectedEof?;
        return Err(count.error);
      }
      PageFound(stream.data, old(stream.pos), stream.pos, p, doChecksum);
      PageFound(stream.data, old(stream.pos), stream.pos, p, false);
      if doChecksum {
        var checksum := PageChecksum(header, lacingValues, count.value, p);
        if checksum != Field(header[..]) {
          return Err(ChecksumMismatch);
        }
      }
      return Ok(HeaderOf(header[..]));
    }

    ghost predicate Continues(buf: array<bv8>, from: nat, to: nat, all: seq<bv8>, at: nat) reads buf {
      && from <= to <= buf.Length && at + (to - from) <= |all|
      && forall k :: from <= k < to ==> buf[k] == all[k - from + at]
    }

    /** Adds bytes that continue `all` at `at` to the checksum. */
    method AddBytes(start: bv32, buf: array<bv8>, from: nat, to: nat, ghost all: seq<bv8>, ghost at: nat)
      returns (checksum: bv32)
      requires HoldsTable(checksumTable) && from <= to <= buf.Length && at + (to - from) <= |all|
      requires start == Prefix(all, at) && Continues(buf, from, to, all, at)
      ensures checksum == Prefix(all, at + (to - from))
    {
      hide HoldsTable, DivideByte, Prefix;
      checksum := start;
      for k := from to to
        invariant checksum == Prefix(all, at + (k - from))
      {
        PrefixStep(all, at + (k - from));
        checksum := UpdateChecksum(checksum, buf[k], checksumTable);
      }
    }

    /** The checksum over the header without its checksum field, the segment table and the segments. */
    method PageChecksum(header: array<bv8>, lacingValues: array<bv8>, count: nat, ghost p: Page)
      returns (checksum: bv32)
      requires Valid() && Shows(p) && header[..] == p.header && count <= lacingValues.Length
      requires lacingValues[..count] == p.lacing
      ensures checksum == Checksum(Unsealed(p.header) + p.lacing + p.payload)
    {
      hide HoldsTable, DivideByte, Prefix, Checksum, Total, Unsealed, Continues, Shows;
      ghost var all := Unsealed(p.header) + p.lacing + p.payload;
      SizesOf(p, all);
      checksum := AddHeader(header, p, all);
      TablePart(lacingValues, count, p, all);
      checksum := AddBytes(checksum, lacingValues, 0, count, all, PAGE_HEADER_LEN);
      checksum := AddSegments(checksum, p, all);
      PrefixAll(all);
    }

    method AddSegments(start: bv32, ghost p: Page, ghost all: seq<bv8>) returns (checksum: bv32)
      requires HoldsTable(checksumTable) && Shows(p) && all == Unsealed(p.header) + p.lacing + p.payload
      requires start == Prefix(all, PAGE_HEADER_LEN + |p.lacing|)
      ensures checksum == Prefix(all, |all|)
    {
      hide HoldsTable, DivideByte, Prefix, Total, Unsealed, Continues, Shows, InfosShow;
      checksum := start;
      SizesOf(p, all);
      for i := 0 to segmentsCount
        invariant PAGE_HEADER_LEN + |p.lacing| + Total(p.lacing, i) <= |all|
        invariant checksum == Prefix(all, PAGE_HEADER_LEN + |p.lacing| + Total(p.lacing, i))
      {
        var info := InfoOf(p, all, i);
        checksum := AddBytes(checksum, payloadBuffer, info.offset, info.offset + info.len, all,
                             PAGE_HEADER_LEN + |p.lacing| + info.offset);
      }
    }

    method InfoOf(ghost p: Page, ghost all: seq<bv8>, i: nat) returns (info: SegmentInfo)
      requires Shows(p) && all == Unsealed(p.header) + p.lacing + p.payload && i < segmentsCount
      ensures i < |p.lacing| && info.offset == Total(p.lacing, i) && info.offset + info.len == Total(p.lacing, i + 1)
      ensures Continues(payloadBuffer, info.offset, info.offset + info.len, all,
                        PAGE_HEADER_LEN + |p.lacing| + info.offset)
      ensures PAGE_HEADER_LEN + |p.lacing| + info.offset + info.len <= |all|
    {
      TotalStep(p.lacing, i);
      PayloadPart(p, all, i);
      return segmentInfos[i];
    }

    lemma SizesOf(p: Page, all: seq<bv8>)
      requires Shows(p) && all == Unsealed(p.header) + p.lacing + p.payload
      ensures segmentsCount == |p.lacing| && Total(p.lacing, 0) == 0
      ensures payloadLen == |p.payload| == Total(p.lacing, |p.lacing|) <= payloadBuffer.Length
      ensures PAGE_HEADER_LEN + |p.lacing| + Total(p.lacing, |p.lacing|) == |all|
      ensures |p.header| == PAGE_HEADER_LEN && all[..PAGE_HEADER_LEN] == Unsealed(p.header)
    {}

    lemma NoSegments(lacing: seq<bv8>, start: nat)
      requires Valid() && stream.pos == start
      ensures SegmentsRead(lacing, 0, start) && Total(lacing, 0) == 0
    {}

    lemma TablePart(lacingValues: array<bv8>, count: nat, p: Page, all: seq<bv8>)
      requires count <= lacingValues.Length && lacingValues[..count] == p.lacing && |p.header| == PAGE_HEADER_LEN
      requires all == Unsealed(p.header) + p.lacing + p.payload
      ensures Continues(lacingValues, 0, count, all, PAGE_HEADER_LEN)
    {
      forall k | 0 <= k < count
        ensures lacingValues[k] == all[k - 0 + PAGE_HEADER_LEN]
      {
        assert lacingValues[k] == p.lacing[k];
      }
    }

    lemma PayloadPart(p: Page, all: seq<bv8>, i: nat)
      requires Shows(p) && all == Unsealed(p.header) + p.lacing + p.payload && i < |p.lacing|
      ensures var from := Total(p.lacing, i);
              Continues(payloadBuffer, from, from + p.lacing[i] as int, all, PAGE_HEADER_LEN + |p.lacing| + from)
    {
      hide Total, Unsealed, BytesShow;
      var from := Total(p.lacing, i);
      SizesOf(p, all);
      TotalStep(p.lacing, i);
      forall k | from <= k < from + p.lacing[i] as int
        ensures payloadBuffer[k] == all[k - from + (PAGE_HEADER_LEN + |p.lacing| + from)]
      {
        ByteOf(p, all, k);
      }
    }

    lemma ByteOf(p: Page, all: seq<bv8>, k: nat)
      requires Shows(p) && all == Unsealed(p.header) + p.lacing + p.payload && k < |p.payload|
      ensures payloadBuffer[k] == all[PAGE_HEADER_LEN + |p.lacing| + k]
    {
      hide Total, Unsealed, InfosShow;
    }

    method AddHeader(header: array<bv8>, ghost p: Page, ghost all: seq<bv8>) returns (checksum: bv32)
      requires HoldsTable(checksumTable) && header[..] == p.header && |p.header| == PAGE_HEADER_LEN <= |all|
      requires all[..PAGE_HEADER_LEN] == Unsealed(p.header)
      ensures checksum == Prefix(all, PAGE_HEADER_LEN)
    {
      hide HoldsTable, DivideByte, Prefix;
      checksum := 0;
      PrefixNothing(all);
      for i := 0 to PAGE_HEADER_LEN
        invariant checksum == Prefix(all, i)
      {
        PrefixStep(all, i);
        assert all[i] == all[..PAGE_HEADER_LEN][i] == ByteAt(header[..], i);
        if 22 <= i < 26 {
          checksum := UpdateChecksum(checksum, 0, checksumTable);
          continue;
        }
        checksum := UpdateChecksum(checksum, header[i], checksumTable);
      }
    }
  }

  /** Adds up the segment table. The sum of at most 255 bytes never exceeds the buffer. */
  method PayloadFits(lacingValues: array<bv8>, count: nat) returns (ok: bool)
    requires count <= lacingValues.Length && count <= MAX_SEGMENT_COUNT
    ensures ok
  {
    ghost var lacing := lacingValues[..count];
    var total := 0;
    for i := 0 to count
      invariant total == Total(lacing, i)
    {
      assert lacing[i] == lacingValues[i];
      total := total + lacingValues[i] as int;
      TotalBound(lacing, 0, i + 1);
      if total > MAX_PAGE_PAYLOAD_LENGTH {
        assert false;
        return false;
      }
    }
    return true;
  }

  lemma PrefixNothing(s: seq<bv8>)
    ensures Prefix(s, 0) == 0
  {}

  lemma PrefixAll(s: seq<bv8>)
    ensures Prefix(s, |s|) == Checksum(s)
  {}

  method CopySegment(from: array<bv8>, to: array<bv8>, cursor: nat, len: nat, ghost data: seq<bv8>, ghost start: nat)
    requires from != to && len <= from.Length && cursor + len <= to.Length && start + cursor + len <= |data|
    requires from[..len] == data[start + cursor..start + cursor + len] && to[..cursor] == data[start..start + cursor]
    modifies to
    ensures to[..cursor + len] == data[start..start + cursor + len]
  {
    ghost var before := to[..cursor];
    forall k | 0 <= k < len {
      to[cursor + k] := from[k];
    }
    assert to[..cursor] == before;
    assert to[cursor..cursor + len] == from[..len];
    Joined(to[..cursor + len], cursor, data[start..start + cursor], data[start + cursor..start + cursor + len]);
    assert data[start..start + cursor] + data[start + cursor..start + cursor + len]
        == data[start..start + cursor + len];
  }

  lemma Joined(s: seq<bv8>, n: nat, a: seq<bv8>, b: seq<bv8>)
    requires n <= |s| && s[..n] == a && s[n..] == b
    ensures s == a + b
  {}
}
