/** The fixed 12-byte DNS message header (section 4.1.1 of RFC 1035):
    a 16-bit ID, a 16-bit flags word and four 16-bit counts, all big-endian.

    The flags word holds, from the most significant bit down, QR (1 bit),
    OPCODE (4), AA (1), TC (1), RD (1), RA (1), Z (3) and RCODE (4).
 */
module MessageHeader {
  import opened Wire

  /** A header as the Python class holds it: every field an unbounded integer. */
  datatype Header = Header(
    id: nat,
    qr: nat, opcode: nat, aa: nat, tc: nat, rd: nat, ra: nat, z: nat, rcode: nat,
    qdcount: nat, ancount: nat, nscount: nat, arcount: nat)

  const HeaderSize: nat := 12

  /** Every field lies within the bits the wire format gives it. */
  predicate WellFormed(h: Header) {
    && h.id < 0x1_0000
    && h.qr < 2 && h.opcode < 0x10 && h.aa < 2 && h.tc < 2
    && h.rd < 2 && h.ra < 2 && h.z < 8 && h.rcode < 0x10
    && h.qdcount < 0x1_0000 && h.ancount < 0x1_0000
    && h.nscount < 0x1_0000 && h.arcount < 0x1_0000
  }

  /** Packing succeeds: the ID and the counts fit 16 bits, and so does every
      flag once shifted into place. A flag wider than its slot but still under
      16 bits after the shift is not refused; it spills into its neighbours.
      `PackableIffFlagsFit` shows this is the bound struct.pack puts on the
      or-ed flags word. */
  predicate Packable(h: Header) {
    && h.id < 0x1_0000
    && h.qr < 0x2 && h.opcode < 0x20 && h.aa < 0x40 && h.tc < 0x80
    && h.rd < 0x100 && h.ra < 0x200 && h.z < 0x1000 && h.rcode < 0x1_0000
    && h.qdcount < 0x1_0000 && h.ancount < 0x1_0000
    && h.nscount < 0x1_0000 && h.arcount < 0x1_0000
  }

  /** The flags word, as Python computes it: each field shifted left to its
      position (`x << k` is `x * 2^k`) and the terms or-ed from left to right. */
  function FlagsWord(h: Header): (f: nat)
  {
    BitOr(BitOr(BitOr(BitOr(BitOr(BitOr(BitOr(
      h.qr * 0x8000, h.opcode * 0x800), h.aa * 0x400), h.tc * 0x200),
      h.rd * 0x100), h.ra * 0x80), h.z * 0x10), h.rcode)
  }

  /** With the ID and the counts in range, `Packable` is exactly the condition
      struct.pack checks on the flags word: the or of the shifted fields fits
      16 bits. */
  lemma PackableIffFlagsFit(h: Header)
    requires h.id < 0x1_0000 && h.qdcount < 0x1_0000 && h.ancount < 0x1_0000
    requires h.nscount < 0x1_0000 && h.arcount < 0x1_0000
    ensures Packable(h) <==> FlagsWord(h) < 0x1_0000
  {
    if Packable(h) {
      FieldsBoundFlags(h);
    }
    if FlagsWord(h) < 0x1_0000 {
      FlagsBoundFields(h);
    }
  }

  /** Every shifted flag that fits 16 bits keeps the or of them all within 16 bits. */
  lemma FieldsBoundFlags(h: Header)
    requires Packable(h)
    ensures FlagsWord(h) < 0x1_0000
  {
    var t1 := BitOr(h.qr * 0x8000, h.opcode * 0x800);
    var t2 := BitOr(t1, h.aa * 0x400);
    var t3 := BitOr(t2, h.tc * 0x200);
    var t4 := BitOr(t3, h.rd * 0x100);
    var t5 := BitOr(t4, h.ra * 0x80);
    var t6 := BitOr(t5, h.z * 0x10);
    assert Pow2(16) == 0x1_0000 by { Pow2Values(); }
    BitOrBelow(h.qr * 0x8000, h.opcode * 0x800, 16);
    BitOrBelow(t1, h.aa * 0x400, 16);
    BitOrBelow(t2, h.tc * 0x200, 16);
    BitOrBelow(t3, h.rd * 0x100, 16);
    BitOrBelow(t4, h.ra * 0x80, 16);
    BitOrBelow(t5, h.z * 0x10, 16);
    BitOrBelow(t6, h.rcode, 16);
  }

  /** A flags word within 16 bits bounds each shifted flag or-ed into it. */
  lemma FlagsBoundFields(h: Header)
    requires FlagsWord(h) < 0x1_0000
    ensures h.qr < 0x2 && h.opcode < 0x20 && h.aa < 0x40 && h.tc < 0x80
    ensures h.rd < 0x100 && h.ra < 0x200 && h.z < 0x1000 && h.rcode < 0x1_0000
  {
    var t1 := BitOr(h.qr * 0x8000, h.opcode * 0x800);
    var t2 := BitOr(t1, h.aa * 0x400);
    var t3 := BitOr(t2, h.tc * 0x200);
    var t4 := BitOr(t3, h.rd * 0x100);
    var t5 := BitOr(t4, h.ra * 0x80);
    var t6 := BitOr(t5, h.z * 0x10);
    assert FlagsWord(h) == BitOr(t6, h.rcode);
  }

  /** `DNSHeader.pack`: twelve bytes, or the failure struct.pack raises. */
  function PackHeader(h: Header): (r: Result<seq<Byte>>)
    ensures r.Ok? <==> Packable(h)
    ensures r.Ok? ==> |r.value| == HeaderSize
  {
    if !Packable(h) then Err(ValueTooLarge)
    else
      Ok(BigEndian(h.id, 2) + BigEndian(FlagsWord(h), 2)
         + BigEndian(h.qdcount, 2) + BigEndian(h.ancount, 2)
         + BigEndian(h.nscount, 2) + BigEndian(h.arcount, 2))
  }

  /** The header whose flags word is f and whose other fields are given:
      `(f >> k) & (2^w - 1)` is `f / 2^k % 2^w` on a non-negative f. */
  function FromFlags(id: nat, f: nat, qdcount: nat, ancount: nat, nscount: nat, arcount: nat): (h: Header) {
    Header(id := id,
           qr := f / 0x8000 % 0x2, opcode := f / 0x800 % 0x10,
           aa := f / 0x400 % 0x2, tc := f / 0x200 % 0x2,
           rd := f / 0x100 % 0x2, ra := f / 0x80 % 0x2,
           z := f / 0x10 % 0x8, rcode := f % 0x10,
           qdcount := qdcount, ancount := ancount, nscount := nscount, arcount := arcount)
  }

  /** `DNSHeader.unpack`: reads the first twelve bytes and ignores the rest;
      fails as struct.unpack does when fewer than twelve are supplied. */
  function UnpackHeader(data: seq<Byte>): (r: Result<Header>)
    ensures r.Ok? <==> |data| >= HeaderSize
    ensures r.Ok? ==> WellFormed(r.value)
  {
    if |data| < HeaderSize then Err(ShortBuffer)
    else
      Ok(FromFlags(FromBigEndian(data[0..2]), FromBigEndian(data[2..4]),
                   FromBigEndian(data[4..6]), FromBigEndian(data[6..8]),
                   FromBigEndian(data[8..10]), FromBigEndian(data[10..12])))
  }

  /** For fields within their widths the or-ed flags word is their weighted sum. */
  lemma FlagsWordSum(h: Header)
    requires WellFormed(h)
    ensures FlagsWord(h) == h.qr * 0x8000 + h.opcode * 0x800 + h.aa * 0x400 + h.tc * 0x200
                            + h.rd * 0x100 + h.ra * 0x80 + h.z * 0x10 + h.rcode
  {
    Pow2Values();
    var a1 := h.qr * 0x10 + h.opcode;
    var a2 := a1 * 2 + h.aa;
    var a3 := a2 * 2 + h.tc;
    var a4 := a3 * 2 + h.rd;
    var a5 := a4 * 2 + h.ra;
    var a6 := a5 * 8 + h.z;
    var t1 := BitOr(h.qr * 0x8000, h.opcode * 0x800);
    BitOrDisjoint(h.qr, h.opcode * 0x800, 15, 0x8000);
    assert t1 == a1 * 0x800;
    var t2 := BitOr(t1, h.aa * 0x400);
    BitOrDisjoint(a1, h.aa * 0x400, 11, 0x800);
    assert t2 == a2 * 0x400;
    var t3 := BitOr(t2, h.tc * 0x200);
    BitOrDisjoint(a2, h.tc * 0x200, 10, 0x400);
    assert t3 == a3 * 0x200;
    var t4 := BitOr(t3, h.rd * 0x100);
    BitOrDisjoint(a3, h.rd * 0x100, 9, 0x200);
    assert t4 == a4 * 0x100;
    var t5 := BitOr(t4, h.ra * 0x80);
    BitOrDisjoint(a4, h.ra * 0x80, 8, 0x100);
    assert t5 == a5 * 0x80;
    var t6 := BitOr(t5, h.z * 0x10);
    BitOrDisjoint(a5, h.z * 0x10, 7, 0x80);
    assert t6 == a6 * 0x10;
    BitOrDisjoint(a6, h.rcode, 4, 0x10);
    assert FlagsWord(h) == BitOr(t6, h.rcode);
  }

  /** The powers of two the flag positions use. */
  lemma Pow2Values()
    ensures Pow2(4) == 0x10 && Pow2(7) == 0x80 && Pow2(8) == 0x100 && Pow2(9) == 0x200
    ensures Pow2(10) == 0x400 && Pow2(11) == 0x800 && Pow2(15) == 0x8000
    ensures Pow2(16) == 0x1_0000
  {
    assert Pow2(11) == 0x800;
    assert Pow2(12) == 2 * Pow2(11) && Pow2(13) == 2 * Pow2(12);
    assert Pow2(14) == 2 * Pow2(13) && Pow2(15) == 2 * Pow2(14);
  }

  /** Shifting and masking a weighted sum of in-range fields picks out each field. */
  lemma ExtractFields(f: nat, qr: nat, opcode: nat, aa: nat, tc: nat, rd: nat, ra: nat, z: nat, rcode: nat)
    requires qr < 2 && opcode < 0x10 && aa < 2 && tc < 2 && rd < 2 && ra < 2 && z < 8 && rcode < 0x10
    requires f == qr * 0x8000 + opcode * 0x800 + aa * 0x400 + tc * 0x200 + rd * 0x100 + ra * 0x80 + z * 0x10 + rcode
    ensures f / 0x8000 % 0x2 == qr && f / 0x800 % 0x10 == opcode
    ensures f / 0x400 % 0x2 == aa && f / 0x200 % 0x2 == tc
    ensures f / 0x100 % 0x2 == rd && f / 0x80 % 0x2 == ra
    ensures f / 0x10 % 0x8 == z && f % 0x10 == rcode
  {
    var a1 := qr * 0x10 + opcode;
    var a2 := a1 * 2 + aa;
    var a3 := a2 * 2 + tc;
    var a4 := a3 * 2 + rd;
    var a5 := a4 * 2 + ra;
    var a6 := a5 * 8 + z;
    assert f / 0x8000 == qr;
    assert f / 0x800 == a1 && a1 % 0x10 == opcode;
    assert f / 0x400 == a2 && a2 % 2 == aa;
    assert f / 0x200 == a3 && a3 % 2 == tc;
    assert f / 0x100 == a4 && a4 % 2 == rd;
    assert f / 0x80 == a5 && a5 % 2 == ra;
    assert f / 0x10 == a6 && a6 % 8 == z;
  }

  /** Unpacking the weighted sum of a well-formed header's flags, with its id
      and counts, gives the header. */
  lemma FromFlagsOfSum(h: Header, f: nat)
    requires WellFormed(h)
    requires f == h.qr * 0x8000 + h.opcode * 0x800 + h.aa * 0x400 + h.tc * 0x200
                  + h.rd * 0x100 + h.ra * 0x80 + h.z * 0x10 + h.rcode
    ensures FromFlags(h.id, f, h.qdcount, h.ancount, h.nscount, h.arcount) == h
  {
    ExtractFields(f, h.qr, h.opcode, h.aa, h.tc, h.rd, h.ra, h.z, h.rcode);
  }

  /** Any word below 2^16 is the weighted sum of the fields shifting and masking pick out of it. */
  lemma SplitFlags(f: nat)
    requires f < 0x1_0000
    ensures f == f / 0x8000 % 0x2 * 0x8000 + f / 0x800 % 0x10 * 0x800 + f / 0x400 % 0x2 * 0x400
                 + f / 0x200 % 0x2 * 0x200 + f / 0x100 % 0x2 * 0x100 + f / 0x80 % 0x2 * 0x80
                 + f / 0x10 % 0x8 * 0x10 + f % 0x10
  {
    assert f / 0x80 == f / 0x10 / 8;
    assert f / 0x100 == f / 0x80 / 2;
    assert f / 0x200 == f / 0x100 / 2;
    assert f / 0x400 == f / 0x200 / 2;
    assert f / 0x800 == f / 0x400 / 2;
    assert f / 0x8000 == f / 0x800 / 0x10;
    assert f / 0x8000 < 2;
  }

  /** Header round trip: a header whose fields fit their widths packs and unpacks to itself. */
  lemma PackUnpack(h: Header)
    requires WellFormed(h)
    ensures PackHeader(h).Ok? && UnpackHeader(PackHeader(h).value) == Ok(h)
  {
    var f := FlagsWord(h);
    assert f == h.qr * 0x8000 + h.opcode * 0x800 + h.aa * 0x400 + h.tc * 0x200
                + h.rd * 0x100 + h.ra * 0x80 + h.z * 0x10 + h.rcode by {
      FlagsWordSum(h);
    }
    FromFlagsOfSum(h, f);
    UnpackWords(h.id, f, h.qdcount, h.ancount, h.nscount, h.arcount);
  }

  /** Six 16-bit words written big-endian unpack to the header those words hold. */
  lemma UnpackWords(id: nat, f: nat, qdcount: nat, ancount: nat, nscount: nat, arcount: nat)
    requires id < 0x1_0000 && f < 0x1_0000 && qdcount < 0x1_0000 && ancount < 0x1_0000
    requires nscount < 0x1_0000 && arcount < 0x1_0000
    ensures UnpackHeader(BigEndian(id, 2) + BigEndian(f, 2) + BigEndian(qdcount, 2) + BigEndian(ancount, 2)
                         + BigEndian(nscount, 2) + BigEndian(arcount, 2))
            == Ok(FromFlags(id, f, qdcount, ancount, nscount, arcount))
  {
    var bytes := BigEndian(id, 2) + BigEndian(f, 2) + BigEndian(qdcount, 2) + BigEndian(ancount, 2)
                 + BigEndian(nscount, 2) + BigEndian(arcount, 2);
    BigEndianRoundTrip(id, 2);
    BigEndianRoundTrip(f, 2);
    BigEndianRoundTrip(qdcount, 2);
    BigEndianRoundTrip(ancount, 2);
    BigEndianRoundTrip(nscount, 2);
    BigEndianRoundTrip(arcount, 2);
    assert bytes[0..2] == BigEndian(id, 2);
    assert bytes[2..4] == BigEndian(f, 2);
    assert bytes[4..6] == BigEndian(qdcount, 2);
    assert bytes[6..8] == BigEndian(ancount, 2);
    assert bytes[8..10] == BigEndian(nscount, 2);
    assert bytes[10..12] == BigEndian(arcount, 2);
  }

  /** The reverse round trip: unpacking any twelve or more bytes and packing
      the result gives back exactly the first twelve bytes. */
  lemma UnpackPack(data: seq<Byte>)
    requires |data| >= HeaderSize
    ensures PackHeader(UnpackHeader(data).value) == Ok(data[..HeaderSize])
  {
    var f := FromBigEndian(data[2..4]);
    var h := UnpackHeader(data).value;
    FlagsWordOfWord(h, f);
    ReadWords(data);
  }

  /** A flags word below 2^16, split into fields and or-ed back together, is itself. */
  lemma FlagsWordOfWord(h: Header, f: nat)
    requires WellFormed(h) && f < 0x1_0000
    requires h == FromFlags(h.id, f, h.qdcount, h.ancount, h.nscount, h.arcount)
    ensures FlagsWord(h) == f
  {
    FlagsWordSum(h);
    SplitFlags(f);
  }

  /** The first twelve bytes are the big-endian forms of the six words they hold. */
  lemma ReadWords(data: seq<Byte>)
    requires |data| >= HeaderSize
    ensures data[..HeaderSize]
            == BigEndian(FromBigEndian(data[0..2]), 2) + BigEndian(FromBigEndian(data[2..4]), 2)
               + BigEndian(FromBigEndian(data[4..6]), 2) + BigEndian(FromBigEndian(data[6..8]), 2)
               + BigEndian(FromBigEndian(data[8..10]), 2) + BigEndian(FromBigEndian(data[10..12]), 2)
  {
    FromBigEndianRoundTrip(data[0..2]);
    FromBigEndianRoundTrip(data[2..4]);
    FromBigEndianRoundTrip(data[4..6]);
    FromBigEndianRoundTrip(data[6..8]);
    FromBigEndianRoundTrip(data[8..10]);
    FromBigEndianRoundTrip(data[10..12]);
    assert data[..HeaderSize] == data[0..2] + data[2..4] + data[4..6] + data[6..8] + data[8..10] + data[10..12];
  }

  /** The round trip whatever follows the packed header: a message that
      starts with a packed header unpacks to that header. */
  lemma PackUnpackPrefix(h: Header, tail: seq<Byte>)
    requires WellFormed(h)
    ensures PackHeader(h).Ok? && UnpackHeader(PackHeader(h).value + tail) == Ok(h)
  {
    PackUnpack(h);
    UnpackIgnoresRest(PackHeader(h).value, tail);
  }

  /** Unpacking looks at the first twelve bytes only: what follows them changes nothing. */
  lemma UnpackIgnoresRest(data: seq<Byte>, rest: seq<Byte>)
    requires |data| >= HeaderSize
    ensures UnpackHeader(data + rest) == UnpackHeader(data)
  {
    var all := data + rest;
    assert all[0..2] == data[0..2] && all[2..4] == data[2..4] && all[4..6] == data[4..6];
    assert all[6..8] == data[6..8] && all[8..10] == data[8..10] && all[10..12] == data[10..12];
  }
}
