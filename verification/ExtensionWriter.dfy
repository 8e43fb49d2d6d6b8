/** Writing single extensions into a buffer, or only counting their bytes when there is no buffer. */
module ExtensionWriter {
  import opened Wrappers
  import opened ExtensionSyntax
  import opened ExtensionEncoding
  import opened ExtensionFrames

  /** The buffer, if any, begins with `out` and is otherwise as it was `before`. */
  ghost predicate Holds(data: array?<byte>, out: seq<byte>, before: seq<byte>)
    reads data
  {
    data != null ==>
      && data.Length == |before| && |out| <= |before|
      && forall i :: 0 <= i < |before| ==> data[i] == if i < |out| then out[i] else before[i]
  }

  /** Nothing at `len` or behind it has changed. */
  ghost predicate TailKept(data: array?<byte>, len: nat, before: seq<byte>)
    reads data
  {
    data != null ==> data.Length == |before| && forall i :: len <= i < |before| ==> data[i] == before[i]
  }

  method PutByte(data: array?<byte>, pos: nat, b: byte, ghost out: seq<byte>, ghost before: seq<byte>)
    requires Holds(data, out, before) && pos == |out| && (data != null ==> pos < data.Length)
    modifies data
    ensures Holds(data, out + [b], before)
  {
    if data != null {
      data[pos] := b;
    }
  }

  lemma HoldsKeepsTail(data: array?<byte>, out: seq<byte>, before: seq<byte>, len: nat)
    requires Holds(data, out, before) && |out| <= len
    ensures TailKept(data, len, before)
  {}

  /** The bytes of a payload, one by one. */
  lemma PayloadShape(e: Extension, last: bool)
    requires Writable(e)
    ensures var n := if IsLongExt(e) && !last then e.len / 255 + 1 else 0;
            && |LengthField(e, last)| == n && |PayloadBytes(e, last)| == n + e.len
            && (forall k :: 0 <= k < n ==> PayloadBytes(e, last)[k] == if k < e.len / 255 then 255 else e.len % 255)
            && (forall k :: 0 <= k < e.len ==> PayloadBytes(e, last)[n + k] == e.data[k])
  {
    LengthBytesShape(e.len);
  }

  lemma AppendOne(out: seq<byte>, w: seq<byte>, k: nat)
    requires k < |w|
    ensures out + w[..k] + [w[k]] == out + w[..k + 1]
  {}

  lemma AppendAll(out: seq<byte>, w: seq<byte>)
    ensures out + w[..0] == out && out + w[..|w|] == out + w
  {}

  /** Writes the payload of an extension that has passed the checks of the generator. */
  method WriteExtensionPayload(data: array?<byte>, len: nat, pos: nat, ext: Extension, last: bool,
                               ghost out: seq<byte>, ghost before: seq<byte>)
    returns (r: Result<nat, ExtensionError>)
    requires 0 <= ext.len <= |ext.data| && Writable(Cut(ext))
    requires Holds(data, out, before) && pos == |out| <= len && (data != null ==> len <= data.Length)
    modifies data
    ensures r == if pos + |PayloadBytes(Cut(ext), last)| <= len then Ok(pos + |PayloadBytes(Cut(ext), last)|)
                 else Err(BufferTooSmall)
    ensures r.Ok? ==> Holds(data, out + PayloadBytes(Cut(ext), last), before)
    ensures r.Err? ==> Holds(data, out, before)
  {
    hide LengthBytes, PayloadBytes, LengthField, Holds;
    ghost var w := PayloadBytes(Cut(ext), last);
    PayloadShape(Cut(ext), last);
    AppendAll(out, w);
    if ext.id < 32 {
      var need := ext.len;
      if len - pos < need {
        return Err(BufferTooSmall);
      }
      if data != null && need > 0 {
        AppendOne(out, w, 0);
        assert w[0 + 0] == ext.data[0];
        PutByte(data, pos, ext.data[0], out, before);
      } else {
        HoldsNull(data, out, out + w, before);
      }
      return Ok(pos + need);
    } else {
      var extLen := ext.len;
      var lengthBytes := 1 + extLen / 255;
      if last {
        lengthBytes := 0;
      }
      var available := len - pos;
      if available < lengthBytes + extLen {
        return Err(BufferTooSmall);
      }
      if data != null && !last {
        for k := 0 to extLen / 255
          invariant Holds(data, out + w[..k], before)
        {
          AppendOne(out, w, k);
          PutByte(data, pos + k, 255, out + w[..k], before);
        }
        AppendOne(out, w, lengthBytes - 1);
        PutByte(data, pos + lengthBytes - 1, extLen % 255, out + w[..lengthBytes - 1], before);
      }
      if data != null {
        for k := 0 to extLen
          invariant Holds(data, out + w[..lengthBytes + k], before)
        {
          AppendOne(out, w, lengthBytes + k);
          PutByte(data, pos + lengthBytes + k, ext.data[k], out + w[..lengthBytes + k], before);
        }
      } else {
        HoldsNull(data, out, out + w, before);
      }
      return Ok(pos + lengthBytes + extLen);
    }
  }

  lemma HoldsNull(data: array?<byte>, out: seq<byte>, out': seq<byte>, before: seq<byte>)
    requires Holds(data, out, before) && (data == null || out == out')
    ensures Holds(data, out', before)
  {}

  /** Writes a whole extension. */
  method WriteExtension(data: array?<byte>, len: nat, pos: nat, ext: Extension, last: bool,
                        ghost out: seq<byte>, ghost before: seq<byte>)
    returns (r: Result<nat, ExtensionError>)
    requires 0 <= ext.len <= |ext.data| && Writable(Cut(ext))
    requires Holds(data, out, before) && pos == |out| <= len && (data != null ==> len <= data.Length)
    modifies data
    ensures r == if pos + |ExtensionBytes(Cut(ext), last)| <= len then Ok(pos + |ExtensionBytes(Cut(ext), last)|)
                 else Err(BufferTooSmall)
    ensures r.Ok? ==> Holds(data, out + ExtensionBytes(Cut(ext), last), before)
    ensures r.Err? ==> TailKept(data, len, before)
  {
    hide LengthBytes, PayloadBytes, LengthField, Holds, TailKept;
    if len - pos < 1 {
      HoldsKeepsTail(data, out, before, len);
      return Err(BufferTooSmall);
    }
    var lFlag := if ext.id < 32 then ext.len else if last then 0 else 1;
    var b := ext.id * 2 + lFlag;
    PutByte(data, pos, b, out, before);
    assert b == IdByte(Cut(ext), last);
    GlueOut(out, [b], PayloadBytes(Cut(ext), last));
    r := WriteExtensionPayload(data, len, pos + 1, ext, last, out + [b], before);
    if r.Err? {
      HoldsKeepsTail(data, out + [b], before, len);
    }
  }

  lemma GlueOut(a: seq<byte>, b: seq<byte>, c: seq<byte>)
    ensures (a + b) + c == a + (b + c)
  {}
}
