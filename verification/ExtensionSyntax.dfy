/** The vocabulary shared by the packet extension writer and reader: bytes, errors, extension
    descriptors, and the extent of one extension inside the padding. */
module ExtensionSyntax {
  import opened Wrappers

  type byte = b: int | 0 <= b < 256

  const MAX_FRAMES_PER_PACKET := 48
  const MAX_I32 := 0x7fff_ffff

  datatype ExtensionError = BadArgument | BufferTooSmall | InvalidPacket

  /** An extension descriptor. Only the first `len` bytes of `data` belong to the extension. */
  datatype Extension = Extension(id: byte, frame: int, data: seq<byte>, len: int)

  predicate IsLong(idByte: byte) {
    idByte >= 64
  }

  /** Long extensions, and padding to the end of the data, run to the end when their L flag is 0. */
  predicate IsGreedy(idByte: byte) {
    idByte == 0 || (IsLong(idByte) && idByte % 2 == 0)
  }

  /** The extent of a payload: `header` length bytes, and `total` bytes counting those. */
  datatype Extent = Malformed | Extent(header: nat, total: nat)

  /** The length field of a long extension, read from `data[pos..end]`: bytes 255 followed by one
      smaller byte, added up. */
  function Lacing(data: seq<byte>, pos: nat, end: nat): (r: Extent)
    requires pos <= end <= |data|
    ensures r.Extent? ==> 1 <= r.header <= end - pos && r.header <= r.total
    decreases end - pos
  {
    if pos == end then Malformed
    else if data[pos] != 255 then Extent(1, 1 + data[pos])
    else Laced(1, Lacing(data, pos + 1, end))
  }

  /** A length field with `k` more bytes 255 in front. */
  function Laced(k: nat, r: Extent): Extent {
    if r.Malformed? then Malformed else Extent(r.header + k, r.total + 256 * k)
  }

  /** The payload announced by `idByte` at the front of `data[pos..end]`. The last `trailing` bytes
      are reserved for extensions that follow a greedy one. */
  function PayloadExtent(data: seq<byte>, pos: nat, end: nat, trailing: nat, idByte: byte): (r: Extent)
    requires pos <= end <= |data|
    ensures r.Extent? ==> r.header <= r.total <= end - pos
  {
    var id, l := idByte / 2, idByte % 2;
    if (id == 0 && l == 1) || id == 2 then Extent(0, 0)
    else if 0 < id < 32 then (if end - pos < l then Malformed else Extent(0, l))
    else if l == 0 then (if end - pos < trailing then Malformed else Extent(0, end - pos - trailing))
    else
      var r := Lacing(data, pos, end);
      if r.Extent? && r.total <= end - pos then r else Malformed
  }

  /** The extent of the extension at the front of `data[pos..end]`, its id byte included. */
  function ExtensionExtent(data: seq<byte>, pos: nat, end: nat): (r: Extent)
    requires pos < end <= |data|
    ensures r.Extent? ==> 1 <= r.header <= r.total <= end - pos
  {
    var r := PayloadExtent(data, pos + 1, end, 0, data[pos]);
    if r.Malformed? then Malformed else Extent(r.header + 1, r.total + 1)
  }

  /** A length field does not depend on where its window ends. */
  lemma {:induction false} LacingIsLocal(data: seq<byte>, pos: nat, end: nat, end': nat)
    requires pos <= end <= |data| && end' <= |data|
    requires Lacing(data, pos, end).Extent? && pos + Lacing(data, pos, end).header <= end'
    ensures Lacing(data, pos, end') == Lacing(data, pos, end)
    decreases end - pos
  {
    if data[pos] == 255 {
      LacingIsLocal(data, pos + 1, end, end');
    }
  }

  /** A self-delimiting extension is the same in every window that holds all of it. */
  lemma ExtentIsLocal(data: seq<byte>, pos: nat, end: nat, end': nat)
    requires pos < end <= |data| && end' <= |data| && !IsGreedy(data[pos])
    requires ExtensionExtent(data, pos, end).Extent?
    requires pos + ExtensionExtent(data, pos, end).total <= end'
    ensures ExtensionExtent(data, pos, end') == ExtensionExtent(data, pos, end)
  {
    if IsLong(data[pos]) {
      LacingIsLocal(data, pos + 1, end, end');
    }
  }

  /** A cursor: a position, and how many bytes it may still read. */
  datatype Cursor = Cursor(pos: nat, len: int)

  /** A byte 255 in front, or the last byte of a length field. */
  lemma LacedStep(data: seq<byte>, pos: nat, end: nat, k: nat)
    requires pos < end <= |data|
    ensures data[pos] == 255 ==> Laced(k, Lacing(data, pos, end)) == Laced(k + 1, Lacing(data, pos + 1, end))
    ensures data[pos] != 255 ==> Laced(k, Lacing(data, pos, end)) == Extent(k + 1, k + 1 + 255 * k + data[pos])
  {}

  lemma LacedNothing(r: Extent)
    ensures Laced(0, r) == r
  {}

  /** After `k` bytes 255 there are at least 256 `k` bytes and one more, or the field is not complete. */
  lemma LacedBound(data: seq<byte>, pos: nat, end: nat, k: nat)
    requires pos <= end <= |data|
    ensures var r := Laced(k, Lacing(data, pos, end)); r.Extent? ==> r.total > 256 * k && pos < end
  {}

  /** Advances a cursor over the payload announced by `idByte`. The window `data[pos..pos + len]`
      is what the caller still owns; a negative remaining length reports an overrun, as an error does. */
  method SkipExtensionPayload(data: seq<byte>, pos: nat, len: int, trailingShortLen: nat, idByte: byte)
    returns (r: Result<Cursor, ExtensionError>, headerSize: nat)
    requires 0 <= len && pos + len <= |data|
    ensures match PayloadExtent(data, pos, pos + len, trailingShortLen, idByte)
            case Malformed => r == Err(InvalidPacket) || (r.Ok? && r.value.len < 0)
            case Extent(header, total) => r == Ok(Cursor(pos + total, len - total)) && headerSize == header
  {
    hide Lacing, Laced;
    headerSize := 0;
    var id := idByte / 2;
    var lFlag := idByte % 2;
    if (id == 0 && lFlag == 1) || id == 2 {
      return Ok(Cursor(pos, len)), headerSize;
    }
    if id > 0 && id < 32 {
      if len < lFlag {
        return Err(InvalidPacket), headerSize;
      }
      return Ok(Cursor(pos + lFlag, len - lFlag)), headerSize;
    }
    if lFlag == 0 {
      if len < trailingShortLen {
        return Err(InvalidPacket), headerSize;
      }
      return Ok(Cursor(pos + (len - trailingShortLen), trailingShortLen)), headerSize;
    }
    var p, n, bytes := pos, len, 0;
    LacedNothing(Lacing(data, pos, pos + len));
    while true
      invariant 0 <= headerSize <= len && p == pos + headerSize
      invariant n == len - 256 * headerSize && bytes == 255 * headerSize
      invariant Lacing(data, pos, pos + len) == Laced(headerSize, Lacing(data, p, pos + len))
      decreases len - headerSize
    {
      LacedBound(data, p, pos + len, headerSize);
      if n < 1 {
        return Err(InvalidPacket), headerSize;
      }
      LacedStep(data, p, pos + len, headerSize);
      var lacing := data[p];
      p := p + 1;
      headerSize := headerSize + 1;
      n := n - 1 - lacing;
      bytes := bytes + lacing;
      if lacing != 255 {
        break;
      }
    }
    if bytes > |data| - p {
      return Err(InvalidPacket), headerSize;
    }
    return Ok(Cursor(p + bytes, n)), headerSize;
  }

  /** Advances a cursor over one whole extension. */
  method SkipExtension(data: seq<byte>, pos: nat, len: int)
    returns (r: Result<Cursor, ExtensionError>, headerSize: nat)
    requires pos + len <= |data|
    ensures len < 0 ==> r == Err(InvalidPacket)
    ensures len == 0 ==> r == Ok(Cursor(pos, 0)) && headerSize == 0
    ensures len > 0 ==>
              match ExtensionExtent(data, pos, pos + len)
              case Malformed => r == Err(InvalidPacket) || (r.Ok? && r.value.len < 0)
              case Extent(header, total) => r == Ok(Cursor(pos + total, len - total)) && headerSize == header
  {
    if len == 0 {
      return Ok(Cursor(pos, 0)), 0;
    }
    if len < 1 {
      return Err(InvalidPacket), 0;
    }
    var idByte := data[pos];
    r, headerSize := SkipExtensionPayload(data, pos + 1, len - 1, 0, idByte);
    if r.Err? {
      return;
    }
    headerSize := headerSize + 1;
  }
}
