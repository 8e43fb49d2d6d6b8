/** What the checksum and the segment table of a page are good for. */
module OggIntegrity {
  import opened Wrappers
  import opened OggChecksum
  import opened OggReader

  // ----- damage -----

  ghost function CheckedBytes(p: Page): seq<bv8> {
    Unsealed(p.header) + p.lacing + p.payload
  }

  lemma CheckedAt(p: Page, i: nat)
    requires |p.header| == PAGE_HEADER_LEN && i < |PageBytes(p)|
    ensures |CheckedBytes(p)| == |PageBytes(p)|
    ensures CheckedBytes(p)[i] == if 22 <= i < 26 then 0 else PageBytes(p)[i]
  {}

  lemma BitAt(s: seq<bv8>, k: nat)
    requires k < 8 * |s|
    ensures k / 8 < |s| && Bits(s)[k] == BitOf(s[k / 8], k % 8)
  {}

  /** Damage outside the checksum field is as short without that field. */
  lemma CheckedBurst(p: Page, q: Page, from: nat)
    requires |p.header| == |q.header| == PAGE_HEADER_LEN && |PageBytes(p)| == |PageBytes(q)|
    requires Burst(Bits(PageBytes(p)), Bits(PageBytes(q)), from)
    ensures |CheckedBytes(p)| == |CheckedBytes(q)| && Burst(Bits(CheckedBytes(p)), Bits(CheckedBytes(q)), from)
  {
    hide Bits, BitOf, PageBytes, CheckedBytes;
    SameSizes(p);
    SameSizes(q);
    forall k | 0 <= k < 8 * |PageBytes(p)| && !(from <= k < from + 32)
      ensures Bits(CheckedBytes(p))[k] == Bits(CheckedBytes(q))[k]
    {
      BitAt(PageBytes(p), k);
      BitAt(PageBytes(q), k);
      BitAt(CheckedBytes(p), k);
      BitAt(CheckedBytes(q), k);
      CheckedAt(p, k / 8);
      CheckedAt(q, k / 8);
    }
  }

  lemma SameSizes(p: Page)
    requires |p.header| == PAGE_HEADER_LEN
    ensures |CheckedBytes(p)| == |PageBytes(p)|
  {}

  lemma FieldInjective(a: bv8, b: bv8, c: bv8, d: bv8, a': bv8, b': bv8, c': bv8, d': bv8)
    requires FromLittleEndian(a, b, c, d) == FromLittleEndian(a', b', c', d')
    ensures a == a' && b == b' && c == c' && d == d'
  {}

  lemma SameBytes(p: Page, q: Page)
    requires |p.header| == |q.header| == PAGE_HEADER_LEN && CheckedBytes(p) == CheckedBytes(q)
    requires p.header[22..26] == q.header[22..26]
    ensures PageBytes(p) == PageBytes(q)
  {
    SameSizes(p);
    SameSizes(q);
    forall i | 0 <= i < |PageBytes(p)|
      ensures PageBytes(p)[i] == PageBytes(q)[i]
    {
      CheckedAt(p, i);
      CheckedAt(q, i);
      if 22 <= i < 26 {
        assert p.header[i] == p.header[22..26][i - 22] == q.header[i];
      }
    }
  }

  /** A page that the reader accepts does not become another one that it accepts by damage to at
      most 32 consecutive bits outside the checksum field, nor by any damage to that field alone. */
  lemma DamageDetected(p: Page, q: Page, from: nat)
    requires IsPage(p) && IsPage(q) && Sealed(p) && Sealed(q) && |PageBytes(p)| == |PageBytes(q)|
    requires (p.header[22..26] == q.header[22..26] && Burst(Bits(PageBytes(p)), Bits(PageBytes(q)), from))
             || CheckedBytes(p) == CheckedBytes(q)
    ensures PageBytes(p) == PageBytes(q)
  {
    hide Bits, Checksum, PageBytes, Burst, FromLittleEndian;
    if CheckedBytes(p) == CheckedBytes(q) {
      FieldInjective(p.header[22], p.header[23], p.header[24], p.header[25],
                     q.header[22], q.header[23], q.header[24], q.header[25]);
      assert p.header[22..26] == q.header[22..26];
    } else {
      CheckedBurst(p, q, from);
      assert Field(p.header) == Field(q.header) by {
        assert forall i :: 22 <= i < 26 ==> p.header[i] == p.header[22..26][i - 22] == q.header[i];
      }
      BurstDetected(CheckedBytes(p), CheckedBytes(q), from);
    }
    SameBytes(p, q);
  }

  // ----- sealing and reading back -----

  function LittleEndian(v: bv32): (bytes: seq<bv8>)
    ensures |bytes| == 4
  {
    [(v & 0xff) as bv8, ((v >> 8) & 0xff) as bv8, ((v >> 16) & 0xff) as bv8, (v >> 24) as bv8]
  }

  lemma LittleEndianKept(v: bv32)
    ensures FromLittleEndian((v & 0xff) as bv8, ((v >> 8) & 0xff) as bv8, ((v >> 16) & 0xff) as bv8, (v >> 24) as bv8)
         == v
  {}

  lemma FieldOf(start: seq<bv8>, v: bv32, count: bv8)
    requires |start| == 22
    ensures Field(start + LittleEndian(v) + [count]) == v
  {
    hide FromLittleEndian;
    LittleEndianKept(v);
  }

  /** `lacing` is the segment table of `segments`. */
  ghost predicate Sizes(lacing: seq<bv8>, segments: seq<seq<bv8>>) {
    |lacing| == |segments| && forall i :: 0 <= i < |segments| ==> lacing[i] as int == |segments[i]|
  }

  function Joined(segments: seq<seq<bv8>>, n: nat): seq<bv8>
    requires n <= |segments|
  {
    if n == 0 then [] else Joined(segments, n - 1) + segments[n - 1]
  }

  lemma {:induction false} JoinedTotal(lacing: seq<bv8>, segments: seq<seq<bv8>>, n: nat)
    requires n <= |segments| && Sizes(lacing, segments)
    ensures |Joined(segments, n)| == Total(lacing, n)
  {
    if n > 0 {
      JoinedTotal(lacing, segments, n - 1);
    }
  }

  lemma {:induction false} JoinedPart(segments: seq<seq<bv8>>, i: nat, n: nat)
    requires i < n <= |segments|
    ensures |Joined(segments, i)| <= |Joined(segments, i + 1)| <= |Joined(segments, n)|
    ensures Joined(segments, n)[|Joined(segments, i)|..|Joined(segments, i + 1)|] == segments[i]
    decreases n
  {
    if i < n - 1 {
      JoinedPart(segments, i, n - 1);
    }
  }

  /** A page with the given segments. The first 22 bytes of the header are free, the last one is the
      number of segments. */
  ghost function Sealing(start: seq<bv8>, count: bv8, lacing: seq<bv8>, segments: seq<seq<bv8>>): Page {
    var v := Checksum(start + [0, 0, 0, 0] + ([count] + lacing + Joined(segments, |segments|)));
    Page(start + LittleEndian(v) + [count], lacing, Joined(segments, |segments|))
  }

  ghost predicate Sealable(start: seq<bv8>, count: bv8, lacing: seq<bv8>, segments: seq<seq<bv8>>) {
    |start| == 22 && count as int == |segments| && Sizes(lacing, segments)
  }

  lemma SealedPage(start: seq<bv8>, count: bv8, lacing: seq<bv8>, segments: seq<seq<bv8>>)
    requires Sealable(start, count, lacing, segments)
    ensures var p := Sealing(start, count, lacing, segments);
            && IsPage(p) && Sealed(p) && p.header[..22] == start && p.lacing == lacing
            && p.payload == Joined(segments, |segments|)
  {
    hide Checksum, Field, LittleEndian, Total, Joined;
    var p := Sealing(start, count, lacing, segments);
    JoinedTotal(lacing, segments, |segments|);
    var v := Checksum(start + [0, 0, 0, 0] + ([count] + p.lacing + p.payload));
    FieldOf(start, v, count);
    assert Unsealed(p.header) == start + [0, 0, 0, 0] + [count];
    assert Unsealed(p.header) + p.lacing + p.payload == start + [0, 0, 0, 0] + ([count] + p.lacing + p.payload);
  }

  /** A sealed page is read back, wherever it is in the stream, with the segments that went into it. */
  lemma SealedPageRead(before: seq<bv8>, start: seq<bv8>, count: bv8, lacing: seq<bv8>, segments: seq<seq<bv8>>,
                       after: seq<bv8>, doChecksum: bool)
    requires Sealable(start, count, lacing, segments)
    ensures var p := Sealing(start, count, lacing, segments);
            && PageAt(before + PageBytes(p) + after, |before|, doChecksum) == Ok(p)
            && IsPage(p) && |p.lacing| == |segments|
            && forall i :: 0 <= i < |segments| ==> Segment(p, i) == segments[i]
  {
    hide Sealed, Sealing, PageBytes, PageAt, Total, Joined;
    var p := Sealing(start, count, lacing, segments);
    SealedPage(start, count, lacing, segments);
    WholePage(before + PageBytes(p) + after, |before|, p, doChecksum);
    forall i | 0 <= i < |segments|
      ensures Segment(p, i) == segments[i]
    {
      JoinedTotal(lacing, segments, i);
      JoinedTotal(lacing, segments, i + 1);
      JoinedPart(segments, i, |segments|);
    }
  }
}
