/** A reference decoder for extension padding. It has a single position: it remembers the id bytes
    seen since the last frame boundary, padding included, and replays that list when a repeat
    indicator asks for it. */
module ExtensionDecoding {
  import opened ExtensionSyntax

  /** `nbFrames` frames in the packet, of which only those below `frameMax` are wanted. */
  datatype Config = Config(nbFrames: nat, frameMax: nat)

  /** Everything an iteration yields: extensions one after the other, and then the end of the data
      or an error. */
  datatype Trace = Finished | Failed | Yields(ext: Extension, rest: Trace)

  /** Whether the iteration ends without an error. */
  predicate Complete(t: Trace) {
    t.Finished? || (t.Yields? && Complete(t.rest))
  }

  /** The extensions of frame `g`, in the order in which they are handed out. */
  function OfFrame(t: Trace, g: int): seq<Extension> {
    if !t.Yields? then []
    else if t.ext.frame == g then [t.ext] + OfFrame(t.rest, g)
    else OfFrame(t.rest, g)
  }

  /** Whether a long extension is listed at `k` or later. */
  predicate HasLong(ids: seq<byte>, k: nat)
    decreases |ids| - k
  {
    k < |ids| && (IsLong(ids[k]) || HasLong(ids, k + 1))
  }

  /** Payload bytes that the extension `b` takes if it is a short one. */
  function ShortFlag(b: byte): nat {
    if b <= 3 then 0 else b % 2
  }

  /** Payload bytes of the short extensions after the last long one among the first `n`. */
  function TrailingFlags(ids: seq<byte>, n: nat): nat
    requires n <= |ids|
  {
    if n == 0 || IsLong(ids[n - 1]) then 0 else TrailingFlags(ids, n - 1) + ShortFlag(ids[n - 1])
  }

  function Yield(wanted: bool, id: byte, frame: nat, payload: seq<byte>, t: Trace): Trace {
    if wanted then Yields(Extension(id, frame, payload, |payload|), t) else t
  }

  /** Decodes `data[pos..end]` at frame `frame`; `src` lists the id bytes that a repeat would replay. */
  function Decode(data: seq<byte>, pos: nat, end: nat, frame: nat, src: seq<byte>, c: Config): Trace
    requires pos <= end <= |data|
    decreases end - pos, 0, 0, 0
  {
    if pos == end then Finished
    else match ExtensionExtent(data, pos, end)
      case Malformed => Failed
      case Extent(header, total) =>
        var next := pos + total;
        var id, l := data[pos] / 2, data[pos] % 2;
        if id == 0 then Decode(data, next, end, frame, src + [data[pos]], c)
        else if id == 1 then
          var incr := if l == 0 then 1 else data[pos + 1];
          if incr == 0 then Decode(data, next, end, frame, src + [data[pos]], c)
          else if frame + incr >= c.nbFrames then Failed
          else if frame + incr >= c.frameMax then Finished
          else Decode(data, next, end, frame + incr, [], c)
        else if id == 2 then Replay(data, next, end, frame, src, 0, l, frame + 1, false, c)
        else
          Yield(frame < c.frameMax, id, frame, data[pos + header..next],
                Decode(data, next, end, frame, src + [data[pos]], c))
  }

  /** The id byte in force for the next replayed extension: with L=0, the last long extension of the
      last frame loses its length. */
  function ReplayedId(src: seq<byte>, k: nat, l: byte, g: nat, nbFrames: nat): (b: byte)
    requires k < |src|
    ensures b / 2 == src[k] / 2
  {
    if l == 0 && g + 1 >= nbFrames && IsLong(src[k]) && !HasLong(src, k + 1)
    then src[k] - src[k] % 2 else src[k]
  }

  /** Replays `src` from index `k` for frame `g`, and then all of it for every later frame.
      `resumed` says that a caller has already been handed part of the replay: only then is the
      frame limit looked at when the replay is over. */
  function Replay(data: seq<byte>, pos: nat, end: nat, frame: nat, src: seq<byte>, k: nat, l: byte,
                  g: nat, resumed: bool, c: Config): Trace
    requires pos <= end <= |data| && k <= |src|
    decreases end - pos, 1, if g < c.nbFrames then c.nbFrames - g else 0, |src| - k
  {
    if g >= c.nbFrames then
      var next := if l == 0 then frame + 1 else frame;
      if resumed && next >= c.frameMax then Finished
      else if l == 0 && next >= c.nbFrames then Finished
      else Decode(data, pos, end, next, [], c)
    else if k == |src| then Replay(data, pos, end, frame, src, 0, l, g + 1, resumed, c)
    else if src[k] <= 3 then Replay(data, pos, end, frame, src, k + 1, l, g, resumed, c)
    else
      var b := ReplayedId(src, k, l, g, c.nbFrames);
      match PayloadExtent(data, pos, end, TrailingFlags(src, |src|), b)
      case Malformed => Failed
      case Extent(header, total) =>
        Yield(g < c.frameMax, b / 2, g, data[pos + header..pos + total],
              Replay(data, pos + total, end, frame, src, k + 1, l, g, resumed || g < c.frameMax, c))
  }

  /** What a fresh iteration over `data` yields. */
  function DecodeAll(data: seq<byte>, c: Config): Trace {
    if c.frameMax == 0 then Finished else Decode(data, 0, |data|, 0, [], c)
  }
}
