/** The checksum and the page format in literal numbers. */
module OggExample {
  import opened Wrappers
  import opened OggChecksum
  import opened OggReader

  // ----- the polynomial -----

  /** The powers of the generator polynomial (section 6 of RFC 3533). */
  predicate HasPower(e: int) {
    e == 32 || e == 26 || e == 23 || e == 22 || e == 16 || e == 12 || e == 11 || e == 10
    || e == 8 || e == 7 || e == 5 || e == 4 || e == 2 || e == 1 || e == 0
  }

  /** Its coefficients, the highest power first. */
  function Generator(): (bits: seq<bool>)
    ensures |bits| == 33
  {
    seq(33, i => HasPower(32 - i))
  }

  lemma DivideStep(i: nat, c: bv32, next: bv32)
    requires i < 33 && BitStep(c, HasPower(32 - i)) == next
    ensures Divide(c, Generator(), i, 33) == Divide(next, Generator(), i + 1, 33)
  {}

  lemma HighPowers()
    ensures Divide(0x0000_0000, Generator(), 0, 33) == Divide(0x0476_dc00, Generator(), 11, 33)
  {
    hide Divide, Generator;
    DivideStep(0, 0x0000_0000, 0x04c1_1db7);
    DivideStep(1, 0x04c1_1db7, 0x0982_3b6e);
    DivideStep(2, 0x0982_3b6e, 0x1304_76dc);
    DivideStep(3, 0x1304_76dc, 0x2608_edb8);
    DivideStep(4, 0x2608_edb8, 0x4c11_db70);
    DivideStep(5, 0x4c11_db70, 0x9823_b6e0);
    DivideStep(6, 0x9823_b6e0, 0x3047_6dc0);
    DivideStep(7, 0x3047_6dc0, 0x608e_db80);
    DivideStep(8, 0x608e_db80, 0xc11d_b700);
    DivideStep(9, 0xc11d_b700, 0x823b_6e00);
    DivideStep(10, 0x823b_6e00, 0x0476_dc00);
  }

  lemma MiddlePowers()
    ensures Divide(0x0476_dc00, Generator(), 11, 33) == Divide(0xb6e0_0000, Generator(), 22, 33)
  {
    hide Divide, Generator;
    DivideStep(11, 0x0476_dc00, 0x08ed_b800);
    DivideStep(12, 0x08ed_b800, 0x11db_7000);
    DivideStep(13, 0x11db_7000, 0x23b6_e000);
    DivideStep(14, 0x23b6_e000, 0x476d_c000);
    DivideStep(15, 0x476d_c000, 0x8edb_8000);
    DivideStep(16, 0x8edb_8000, 0x1db7_0000);
    DivideStep(17, 0x1db7_0000, 0x3b6e_0000);
    DivideStep(18, 0x3b6e_0000, 0x76dc_0000);
    DivideStep(19, 0x76dc_0000, 0xedb8_0000);
    DivideStep(20, 0xedb8_0000, 0xdb70_0000);
    DivideStep(21, 0xdb70_0000, 0xb6e0_0000);
  }

  lemma LowPowers()
    ensures Divide(0xb6e0_0000, Generator(), 22, 33) == Divide(0xb800_0000, Generator(), 28, 33)
  {
    hide Divide, Generator;
    DivideStep(22, 0xb6e0_0000, 0x6dc0_0000);
    DivideStep(23, 0x6dc0_0000, 0xdb80_0000);
    DivideStep(24, 0xdb80_0000, 0xb700_0000);
    DivideStep(25, 0xb700_0000, 0x6e00_0000);
    DivideStep(26, 0x6e00_0000, 0xdc00_0000);
    DivideStep(27, 0xdc00_0000, 0xb800_0000);
  }

  lemma LastPowers()
    ensures Divide(0xb800_0000, Generator(), 28, 33) == Divide(0x0000_0000, Generator(), 33, 33)
  {
    hide Divide, Generator;
    DivideStep(28, 0xb800_0000, 0x7000_0000);
    DivideStep(29, 0x7000_0000, 0xe000_0000);
    DivideStep(30, 0xe000_0000, 0xc000_0000);
    DivideStep(31, 0xc000_0000, 0x8000_0000);
    DivideStep(32, 0x8000_0000, 0x0000_0000);
  }

  /** The division leaves nothing of the generator polynomial. */
  lemma GeneratorDivides()
    ensures Divide(0, Generator(), 0, 33) == 0
  {
    hide Divide, Generator;
    HighPowers();
    MiddlePowers();
    LowPowers();
    LastPowers();
    NothingLeft();
  }

  lemma NothingLeft()
    ensures Divide(0, Generator(), 33, 33) == 0
  {}

  // ----- a checksum -----

  lemma NextByte(s: seq<bv8>, n: nat, c: bv32, index: bv8, entry: bv32, next: bv32)
    requires n < |s| && Prefix(s, n) == c && index == ((c >> 24) as bv8) ^ s[n]
    requires entry == TableEntry(index) && next == (c << 8) ^ entry
    ensures Prefix(s, n + 1) == next
  {
    hide Prefix, TableEntry, DivideByte;
    PrefixStep(s, n);
    TableStep(c, s[n], index, entry);
  }

  lemma FirstEntries()
    ensures TableEntry(0x0c) == 0x350c_9b64
    ensures TableEntry(0x31) == 0xd0f3_7027
    ensures TableEntry(0x54) == 0x6b93_dddb
    ensures TableEntry(0x5a) == 0x571d_7dd1
    ensures TableEntry(0xe2) == 0xcc2b_1d17
  {}

  lemma LastEntries()
    ensures TableEntry(0x19) == 0x6ed8_2b7f
    ensures TableEntry(0xb4) == 0xae3a_fba2
    ensures TableEntry(0xcc) == 0x6886_0bfd
    ensures TableEntry(0xd5) == 0x065e_2082
  {}

  /** The digits 1 to 9 have the value by which implementations of this checksum are compared. */
  lemma CheckValue()
    ensures Checksum([0x31, 0x32, 0x33, 0x34, 0x35, 0x36, 0x37, 0x38, 0x39]) == 0x89a1_897f
  {
    hide Prefix, Checksum, TableEntry;
    var digits: seq<bv8> := [0x31, 0x32, 0x33, 0x34, 0x35, 0x36, 0x37, 0x38, 0x39];
    FirstEntries();
    LastEntries();
    PrefixNothing(digits);
    NextByte(digits, 0, 0x0000_0000, 0x31, 0xd0f3_7027, 0xd0f3_7027);
    NextByte(digits, 1, 0xd0f3_7027, 0xe2, 0xcc2b_1d17, 0x3f5b_3a17);
    NextByte(digits, 2, 0x3f5b_3a17, 0x0c, 0x350c_9b64, 0x6e36_8c64);
    NextByte(digits, 3, 0x6e36_8c64, 0x5a, 0x571d_7dd1, 0x6191_19d1);
    NextByte(digits, 4, 0x6191_19d1, 0x54, 0x6b93_dddb, 0xfa8a_0cdb);
    NextByte(digits, 5, 0xfa8a_0cdb, 0xcc, 0x6886_0bfd, 0xe28a_d0fd);
    NextByte(digits, 6, 0xe28a_d0fd, 0xd5, 0x065e_2082, 0x8c8e_dd82);
    NextByte(digits, 7, 0x8c8e_dd82, 0xb4, 0xae3a_fba2, 0x20e7_79a2);
    NextByte(digits, 8, 0x20e7_79a2, 0x19, 0x6ed8_2b7f, 0x89a1_897f);
    PrefixAll(digits);
  }

  // ----- a page -----

  /** The bytes that are checked, and the field that they are compared with: the four bytes from 22 on, which
      count as zeros, the low one first. */
  lemma SealedIs(p: Page)
    requires IsPage(p)
    ensures Sealed(p) <==>
              Checksum(p.header[..22] + [0, 0, 0, 0] + [p.header[26]] + p.lacing + p.payload)
              == FromLittleEndian(p.header[22], p.header[23], p.header[24], p.header[25])
  {
    hide Checksum, FromLittleEndian, Total;
    assert Unsealed(p.header) == p.header[..22] + [0, 0, 0, 0] + [p.header[26]];
  }

  lemma LowByteFirst()
    ensures FromLittleEndian(0x12, 0x34, 0x56, 0x78) == 0x7856_3412
  {}

  /** Every field of a header in its place. */
  lemma FieldsAre()
    ensures HeaderOf([0, 1, 2, 3, 4, 5, 6, 7, 8, 9, 10, 11, 12, 13, 14, 15, 16, 17, 18, 19, 20, 21, 22, 23, 24, 25, 26])
         == PageHeader([0, 1, 2, 3], 4, 5, 0x0d0c_0b0a_0908_0706, 0x1110_0f0e, 0x1514_1312, 26)
  {}

  /** A page of two segments, with one byte and with two: 27 bytes of header of which the last one is their
      number, a byte for the size of each, and their bytes. */
  lemma TwoSegments(header: seq<bv8>, a: bv8, b: bv8, c: bv8)
    requires |header| == 27 && header[26] == 2
    ensures PageAt(header + [1, 2, a, b, c], 0, false) == Ok(Page(header, [1, 2], [a, b, c]))
    ensures IsPage(Page(header, [1, 2], [a, b, c]))
    ensures Segment(Page(header, [1, 2], [a, b, c]), 0) == [a]
    ensures Segment(Page(header, [1, 2], [a, b, c]), 1) == [b, c]
    ensures PageAt(header + [1, 2, a, b], 0, false) == Err(Read(UnexpectedEof))
  {
    var p := Page(header, [1, 2], [a, b, c]);
    Sizes([1, 2]);
    WholeBytes(p);
    PageFound(PageBytes(p), 0, 32, p, false);
    assert PageBytes(p) == header + [1, 2, a, b, c];
    CutPage(header, a, b);
  }

  lemma Sizes(lacing: seq<bv8>)
    requires lacing == [1, 2]
    ensures Total(lacing, 0) == 0 && Total(lacing, 1) == 1 && Total(lacing, 2) == 3
  {}

  lemma WholeBytes(p: Page)
    requires IsPage(p) && |p.lacing| == 2 && |p.payload| == 3
    ensures PageRead(PageBytes(p), 0, 32, p)
  {
    hide Total;
    assert p.header[26] == PageBytes(p)[26];
  }

  lemma CutPage(header: seq<bv8>, a: bv8, b: bv8)
    requires |header| == 27 && header[26] == 2
    ensures PageAt(header + [1, 2, a, b], 0, false) == Err(Read(UnexpectedEof))
  {
    var data := header + [1, 2, a, b];
    assert data[26] == 2 && data[27..29] == [1, 2];
    Sizes(data[27..29]);
  }

  // ----- bytes that count -----

  /** The first `i` segments end there. */
  ghost function PartEnd(data: seq<bv8>, pos: nat, i: nat): nat
    requires pos + 27 <= |data| && i <= data[pos + 26] as int && pos + 27 + data[pos + 26] as int <= |data|
  {
    var count := data[pos + 26] as int;
    27 + count + Total(data[pos + 27..pos + 27 + count], i)
  }

  /** Behind nothing, the header, the segment table or a segment. */
  ghost predicate PartBoundary(data: seq<bv8>, pos: nat, n: nat) {
    n == 0
    || (pos + 27 <= |data|
        && (n == 27
            || (pos + 27 + data[pos + 26] as int <= |data|
                && exists i: nat :: i <= data[pos + 26] as int && n == PartEnd(data, pos, i))))
  }

  lemma {:induction false} WholeSegmentsMost(lacing: seq<bv8>, n: nat, left: nat)
    requires n <= |lacing|
    ensures exists i: nat :: n <= i <= |lacing| && WholeSegments(lacing, n, left) == Total(lacing, i) - Total(lacing, n)
    ensures WholeSegments(lacing, n, left) <= left
    ensures forall i: nat :: n <= i <= |lacing| && Total(lacing, i) - Total(lacing, n) <= left ==>
              Total(lacing, i) - Total(lacing, n) <= WholeSegments(lacing, n, left)
    decreases |lacing| - n
  {
    hide Total;
    if n < |lacing| && lacing[n] as int <= left {
      TotalStep(lacing, n);
      WholeSegmentsMost(lacing, n + 1, left - lacing[n] as int);
      var i: nat :| n + 1 <= i <= |lacing|
        && WholeSegments(lacing, n + 1, left - lacing[n] as int) == Total(lacing, i) - Total(lacing, n + 1);
      assert WholeSegments(lacing, n, left) == Total(lacing, i) - Total(lacing, n);
    } else {
      assert WholeSegments(lacing, n, left) == Total(lacing, n) - Total(lacing, n);
      forall i: nat | n <= i <= |lacing| && Total(lacing, i) - Total(lacing, n) <= left
        ensures Total(lacing, i) - Total(lacing, n) <= 0
      {
        if i > n {
          TotalBound(lacing, n + 1, i);
          TotalStep(lacing, n);
        }
      }
    }
  }

  /** The bytes that count are as many as end with a part and have been read. */
  lemma CountedMost(data: seq<bv8>, pos: nat, end: nat)
    requires pos <= end <= |data|
    ensures PartBoundary(data, pos, Counted(data, pos, end)) && Counted(data, pos, end) <= end - pos
    ensures forall n: nat :: PartBoundary(data, pos, n) && n <= end - pos ==> n <= Counted(data, pos, end)
  {
    hide Total, WholeSegments;
    if end - pos >= 27 && end - pos - 27 >= data[pos + 26] as int {
      var count := data[pos + 26] as int;
      var lacing := data[pos + 27..pos + 27 + count];
      TotalZero(lacing);
      WholeSegmentsMost(lacing, 0, end - pos - 27 - count);
      var whole := WholeSegments(lacing, 0, end - pos - 27 - count);
      var i: nat :| i <= count && whole == Total(lacing, i) - Total(lacing, 0);
      assert Counted(data, pos, end) == PartEnd(data, pos, i);
    }
  }

  lemma TotalZero(lacing: seq<bv8>)
    ensures Total(lacing, 0) == 0
  {}
}
