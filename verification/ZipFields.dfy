/** What the bytes of an archive are, field by field, at the offsets the format fixes (PKWARE APPNOTE, sections 4.3.7,
    4.3.12 and 4.3.16), and what the reader makes of records that other writers leave. */
module ZipFields {
  import opened Bytes
  import opened Crc32
  import opened ZipFormat
  import opened ZipRoundTrip

  // ---------- numbers and checksums, independent of the program ----------

  /** The number that bytes stand for, least significant first. */
  function LittleEndian(b: seq<byte>): nat {
    if b == [] then 0 else b[0] as int + 256 * LittleEndian(b[1..])
  }

  /** The field of `n` bytes at `at`. */
  function Field(buf: seq<byte>, at: nat, n: nat): nat
    requires at + n <= |buf|
  {
    LittleEndian(buf[at..at + n])
  }

  lemma Field16(buf: seq<byte>, at: nat)
    requires at + 2 <= |buf|
    ensures Field(buf, at, 2) == ReadLE16(buf, at)
  {
    var f := buf[at..at + 2];
    assert f[1..][0] == buf[at + 1] && f[1..][1..] == [];
    assert LittleEndian(f[1..]) == buf[at + 1] as int + 256 * LittleEndian(f[1..][1..]);
  }

  lemma Field32(buf: seq<byte>, at: nat)
    requires at + 4 <= |buf|
    ensures Field(buf, at, 4) == ReadLE32(buf, at)
  {
    var f := buf[at..at + 4];
    var f1, f2, f3 := f[1..], f[2..], f[3..];
    assert f1[1..] == f2 && f2[1..] == f3 && f3[1..] == [];
    assert LittleEndian(f3) == buf[at + 3] as int;
    assert LittleEndian(f2) == buf[at + 2] as int + 256 * LittleEndian(f3);
    assert LittleEndian(f1) == buf[at + 1] as int + 256 * LittleEndian(f2);
    assert LittleEndian(f) == buf[at] as int + 256 * LittleEndian(f1);
  }

  lemma OneByte(c: bv32, b: seq<byte>, k: nat)
    requires k < |b|
    ensures SerialBytes(c, b[k..]) == SerialBytes(SerialBits(c, b[k] as bv32, 8), b[k + 1..])
  {
    hide SerialBits;
    assert b[k..][0] == b[k] && b[k..][1..] == b[k + 1..];
  }

  /** The register while "123" goes in. */
  lemma Registers1To3()
    ensures SerialBits(0xffff_ffff, 0x31, 8) == 0x7c23_1048
    ensures SerialBits(0x7c23_1048, 0x32, 8) == 0xb0ac_bb32
    ensures SerialBits(0xb0ac_bb32, 0x33, 8) == 0x77b7_9c2d
  {
  }

  /** The register while "456" goes in. */
  lemma Registers4To6()
    ensures SerialBits(0x77b7_9c2d, 0x34, 8) == 0x641c_1f5c
    ensures SerialBits(0x641c_1f5c, 0x35, 8) == 0x340a_c5e3
    ensures SerialBits(0x340a_c5e3, 0x36, 8) == 0xf68d_2c9e
  {
  }

  /** The register while "789" goes in. */
  lemma Registers7To9()
    ensures SerialBits(0xf68d_2c9e, 0x37, 8) == 0xaffc_9660
    ensures SerialBits(0xaffc_9660, 0x38, 8) == 0x651f_2550
    ensures SerialBits(0x651f_2550, 0x39, 8) == 0x340b_c6d9
  {
  }

  const DIGITS: seq<byte> := [0x31, 0x32, 0x33, 0x34, 0x35, 0x36, 0x37, 0x38, 0x39]

  lemma FirstWords()
    ensures DIGITS[0] as bv32 == 0x31 && DIGITS[1] as bv32 == 0x32 && DIGITS[2] as bv32 == 0x33
    ensures DIGITS[3] as bv32 == 0x34
  {
  }

  lemma LastWords()
    ensures DIGITS[4] as bv32 == 0x35 && DIGITS[5] as bv32 == 0x36 && DIGITS[6] as bv32 == 0x37
    ensures DIGITS[7] as bv32 == 0x38 && DIGITS[8] as bv32 == 0x39
  {
  }

  lemma FirstFed()
    ensures SerialBytes(ONES, DIGITS) == SerialBytes(0x641c_1f5c, DIGITS[4..])
  {
    hide SerialBits, SerialBytes;
    FirstWords();
    Registers1To3();
    Registers4To6();
    OneByte(ONES, DIGITS, 0);
    OneByte(0x7c23_1048, DIGITS, 1);
    OneByte(0xb0ac_bb32, DIGITS, 2);
    OneByte(0x77b7_9c2d, DIGITS, 3);
    assert DIGITS[0..] == DIGITS;
  }

  lemma LastFed()
    ensures SerialBytes(0x641c_1f5c, DIGITS[4..]) == 0x340b_c6d9
  {
    hide SerialBits, SerialBytes;
    LastWords();
    Registers4To6();
    Registers7To9();
    OneByte(0x641c_1f5c, DIGITS, 4);
    OneByte(0x340a_c5e3, DIGITS, 5);
    OneByte(0xf68d_2c9e, DIGITS, 6);
    OneByte(0xaffc_9660, DIGITS, 7);
    OneByte(0x651f_2550, DIGITS, 8);
    assert DIGITS[9..] == [];
    NoBytes(0x340b_c6d9);
  }

  lemma NoBytes(c: bv32)
    ensures SerialBytes(c, []) == c
  {
  }

  /** The check value of CRC-32, the checksum of the digits "123456789", and the checksum of nothing. */
  lemma CrcCheckValue()
    ensures CrcNumber(DIGITS) == 0xcbf4_3926 && CrcNumber([]) == 0
  {
    hide SerialBytes;
    FirstFed();
    LastFed();
    NoBytes(ONES);
    assert 0x340b_c6d9 ^ ONES == 0xcbf4_3926 && ONES ^ ONES == 0;
  }

  // ---------- the writer's records, byte by byte ----------

  lemma Value16(n: nat)
    requires n < U16
    ensures LittleEndian(LE16(n)) == n
  {
    var f := LE16(n);
    assert f[1..] == [f[1]] && [f[1]][1..] == [];
    assert LittleEndian([f[1]]) == f[1] as int + 256 * LittleEndian([f[1]][1..]);
  }

  lemma Value32(n: nat)
    requires n < U32
    ensures LittleEndian(LE32(n)) == n
  {
    var f := LE32(n);
    LE32At(f, 0, n);
    assert f[0..4] == f;
    Field32(f, 0);
  }

  lemma {:induction false} ValueZero(n: nat)
    ensures LittleEndian(Zeros(n)) == 0
  {
    if n > 0 {
      assert Zeros(n)[1..] == Zeros(n - 1);
      ValueZero(n - 1);
    }
  }

  lemma SameSlice(buf: seq<byte>, at: nat, h: seq<byte>, k: nat, n: nat)
    requires at + |h| <= |buf| && buf[at..at + |h|] == h && k + n <= |h|
    ensures buf[at + k..at + k + n] == h[k..k + n]
  {
    assert h[k..k + n] == buf[at..at + |h|][k..k + n];
    forall i | 0 <= i < n ensures h[k..][i] == buf[at + k + i] {
      assert h[k + i] == buf[at..at + |h|][k + i];
    }
  }

  /** Fields keep their values when a record is embedded in a buffer. */
  lemma FieldInside(buf: seq<byte>, at: nat, h: seq<byte>, k: nat, n: nat)
    requires at + |h| <= |buf| && buf[at..at + |h|] == h && k + n <= |h|
    ensures Field(buf, at + k, n) == Field(h, k, n)
  {
    SameSlice(buf, at, h, k, n);
  }

  /** The nine fields that both headers share, from the version needed to the name length. */
  lemma SharedFieldsAre(kind: nat, crc: nat, csize: nat, usize: nat, nlen: nat)
    requires kind < U16 && crc < U32 && csize < U32 && usize < U32 && nlen < U16
    ensures var h := SharedFields(kind, crc, csize, usize, nlen);
            && Field(h, 0, 2) == 20 && Field(h, 2, 2) == 0x0800 && Field(h, 4, 2) == kind
            && Field(h, 6, 2) == 0 && Field(h, 8, 2) == 0x21 && Field(h, 10, 4) == crc
            && Field(h, 14, 4) == csize && Field(h, 18, 4) == usize && Field(h, 22, 2) == nlen
  {
    hide LE16, LE32, LittleEndian;
    var h := SharedFields(kind, crc, csize, usize, nlen);
    assert h[0..2] == LE16(20) && h[2..4] == LE16(0x0800) && h[4..6] == LE16(kind) && h[6..8] == LE16(0);
    assert h[8..10] == LE16(0x21) && h[10..14] == LE32(crc) && h[14..18] == LE32(csize) && h[18..22] == LE32(usize);
    assert h[22..24] == LE16(nlen);
    Value16(20);
    Value16(0x0800);
    Value16(kind);
    Value16(0);
    Value16(0x21);
    Value32(crc);
    Value32(csize);
    Value32(usize);
    Value16(nlen);
  }

  /** Where the fields stand in a local header. */
  lemma LocalHeaderIs(kind: nat, crc: nat, csize: nat, usize: nat, nlen: nat)
    requires kind < U16 && crc < U32 && csize < U32 && usize < U32 && nlen < U16
    ensures var h := LocalHeader(kind, crc, csize, usize, nlen);
            && Field(h, 0, 4) == 0x0403_4b50 && Field(h, 4, 2) == 20 && Field(h, 6, 2) == 0x0800
            && Field(h, 8, 2) == kind && Field(h, 10, 2) == 0 && Field(h, 12, 2) == 0x21 && Field(h, 14, 4) == crc
            && Field(h, 18, 4) == csize && Field(h, 22, 4) == usize && Field(h, 26, 2) == nlen && Field(h, 28, 2) == 0
  {
    hide LE32, LittleEndian, SharedFields, Zeros, Field;
    var h, s := LocalHeader(kind, crc, csize, usize, nlen), SharedFields(kind, crc, csize, usize, nlen);
    SharedFieldsAre(kind, crc, csize, usize, nlen);
    Value32(0x0403_4b50);
    ValueZero(2);
    assert h[0..4] == LE32(0x0403_4b50) && h[4..28] == s && h[28..30] == Zeros(2);
    SharedInside(h, 4, s);
    FieldIs(h, 0, 4);
    FieldIs(h, 28, 2);
  }

  lemma FieldIs(h: seq<byte>, at: nat, n: nat)
    requires at + n <= |h|
    ensures Field(h, at, n) == LittleEndian(h[at..at + n])
  {
  }

  lemma SharedInside(h: seq<byte>, at: nat, s: seq<byte>)
    requires |s| == 24 && at + 24 <= |h| && h[at..at + 24] == s
    ensures Field(h, at, 2) == Field(s, 0, 2) && Field(h, at + 2, 2) == Field(s, 2, 2)
    ensures Field(h, at + 4, 2) == Field(s, 4, 2) && Field(h, at + 6, 2) == Field(s, 6, 2)
    ensures Field(h, at + 8, 2) == Field(s, 8, 2) && Field(h, at + 10, 4) == Field(s, 10, 4)
    ensures Field(h, at + 14, 4) == Field(s, 14, 4) && Field(h, at + 18, 4) == Field(s, 18, 4)
    ensures Field(h, at + 22, 2) == Field(s, 22, 2)
  {
    hide Field;
    FieldInside(h, at, s, 0, 2);
    FieldInside(h, at, s, 2, 2);
    FieldInside(h, at, s, 4, 2);
    FieldInside(h, at, s, 6, 2);
    FieldInside(h, at, s, 8, 2);
    FieldInside(h, at, s, 10, 4);
    FieldInside(h, at, s, 14, 4);
    FieldInside(h, at, s, 18, 4);
    FieldInside(h, at, s, 22, 2);
  }

  /** Where the fields stand in a central header. */
  lemma CentralHeaderIs(kind: nat, crc: nat, csize: nat, usize: nat, nlen: nat, off: nat)
    requires kind < U16 && crc < U32 && csize < U32 && usize < U32 && nlen < U16 && off < U32
    ensures var h := CentralHeader(kind, crc, csize, usize, nlen, off);
            && Field(h, 0, 4) == 0x0201_4b50 && Field(h, 4, 2) == 0x031e && Field(h, 6, 2) == 20
            && Field(h, 8, 2) == 0x0800 && Field(h, 10, 2) == kind && Field(h, 12, 2) == 0 && Field(h, 14, 2) == 0x21
            && Field(h, 16, 4) == crc && Field(h, 20, 4) == csize && Field(h, 24, 4) == usize
            && Field(h, 28, 2) == nlen && Field(h, 30, 8) == 0 && Field(h, 38, 4) == 0x81a4_0000
            && Field(h, 42, 4) == off
  {
    hide LE32, LE16, LittleEndian, SharedFields, Zeros, Field;
    var h, s := CentralHeader(kind, crc, csize, usize, nlen, off), SharedFields(kind, crc, csize, usize, nlen);
    SharedFieldsAre(kind, crc, csize, usize, nlen);
    Value32(0x0201_4b50);
    Value16(0x031e);
    ValueZero(8);
    Value32(0x81a4_0000);
    Value32(off);
    assert h[0..4] == LE32(0x0201_4b50) && h[4..6] == LE16(0x031e) && h[6..30] == s && h[30..38] == Zeros(8);
    assert h[38..42] == LE32(0x81a4_0000) && h[42..46] == LE32(off);
    SharedInside(h, 6, s);
    FieldIs(h, 0, 4);
    FieldIs(h, 4, 2);
    FieldIs(h, 30, 8);
    FieldIs(h, 38, 4);
    FieldIs(h, 42, 4);
  }

  // ---------- the whole archive ----------

  /** The two ways of storing contents: deflated when that is strictly shorter, as they are otherwise. */
  predicate StoredAs(c: Codec, data: seq<byte>, kind: nat, body: seq<byte>) {
    if |c.deflate(data)| < |data| then kind == 8 && body == c.deflate(data) else kind == 0 && body == data
  }

  /** The local record at `at` describes and holds the member: version 2.0, UTF-8 names, no time, 1 January 1980, the
      checksum and both lengths, no extra field. */
  predicate LocalDescribes(c: Codec, buf: seq<byte>, at: nat, m: Member) {
    var n := c.utf8(m.name);
    && at + 30 + |n| <= |buf|
    && Field(buf, at, 4) == 0x0403_4b50 && Field(buf, at + 4, 2) == 20 && Field(buf, at + 6, 2) == 0x0800
    && Field(buf, at + 10, 2) == 0 && Field(buf, at + 12, 2) == 0x21
    && Field(buf, at + 14, 4) == CrcNumber(m.data)
    && Field(buf, at + 22, 4) == |m.data| && Field(buf, at + 26, 2) == |n| && Field(buf, at + 28, 2) == 0
    && buf[at + 30..at + 30 + |n|] == n
    && var end := at + 30 + |n| + Field(buf, at + 18, 4);
       end <= |buf| && StoredAs(c, m.data, Field(buf, at + 8, 2), buf[at + 30 + |n|..end])
  }

  /** The central record at `at` says the same of the member, marks it a regular file of a Unix host with mode 0644,
      and points to the local record. */
  predicate CentralDescribes(c: Codec, buf: seq<byte>, at: nat, m: Member, local: nat) {
    var n := c.utf8(m.name);
    && at + 46 + |n| <= |buf| && local + 30 <= |buf|
    && Field(buf, at, 4) == 0x0201_4b50 && Field(buf, at + 4, 2) == 0x031e && Field(buf, at + 6, 2) == 20
    && Field(buf, at + 8, 2) == 0x0800 && Field(buf, at + 10, 2) == Field(buf, local + 8, 2)
    && Field(buf, at + 12, 2) == 0 && Field(buf, at + 14, 2) == 0x21
    && Field(buf, at + 16, 4) == CrcNumber(m.data) && Field(buf, at + 20, 4) == Field(buf, local + 18, 4)
    && Field(buf, at + 24, 4) == |m.data| && Field(buf, at + 28, 2) == |n| && Field(buf, at + 30, 8) == 0
    && Field(buf, at + 38, 4) == 0x81a4_0000 && Field(buf, at + 42, 4) == local
    && buf[at + 46..at + 46 + |n|] == n
  }

  lemma LocalRecordIs(c: Codec, buf: seq<byte>, at: nat, m: Member)
    requires MemberFits(c, m) && at + LocalSize(c, m) <= |buf| && buf[at..at + LocalSize(c, m)] == LocalOf(c, m)
    ensures LocalDescribes(c, buf, at, m)
    ensures Field(buf, at + 8, 2) == Method(c, m.data) && Field(buf, at + 18, 4) == |Stored(c, m.data)|
  {
    hide LocalHeader, CrcNumber, Field;
    var n, body, kind, crc := c.utf8(m.name), Stored(c, m.data), Method(c, m.data), CrcNumber(m.data);
    var h, local := LocalHeader(kind, crc, |body|, |m.data|, |n|), LocalOf(c, m);
    assert buf[at..at + 30] == h by {
      assert buf[at..at + 30] == buf[at..at + |local|][..30];
    }
    LocalHeaderIs(kind, crc, |body|, |m.data|, |n|);
    LocalInside(buf, at, h);
    SliceInside(buf, at, local, 30, 30 + |n|);
    SliceInside(buf, at, local, 30 + |n|, 30 + |n| + |body|);
    assert local[30..30 + |n|] == n && local[30 + |n|..30 + |n| + |body|] == body;
  }

  lemma LocalInside(buf: seq<byte>, at: nat, h: seq<byte>)
    requires |h| == 30 && at + 30 <= |buf| && buf[at..at + 30] == h
    ensures Field(buf, at, 4) == Field(h, 0, 4) && Field(buf, at + 4, 2) == Field(h, 4, 2)
    ensures Field(buf, at + 6, 2) == Field(h, 6, 2) && Field(buf, at + 8, 2) == Field(h, 8, 2)
    ensures Field(buf, at + 10, 2) == Field(h, 10, 2) && Field(buf, at + 12, 2) == Field(h, 12, 2)
    ensures Field(buf, at + 14, 4) == Field(h, 14, 4) && Field(buf, at + 18, 4) == Field(h, 18, 4)
    ensures Field(buf, at + 22, 4) == Field(h, 22, 4) && Field(buf, at + 26, 2) == Field(h, 26, 2)
    ensures Field(buf, at + 28, 2) == Field(h, 28, 2)
  {
    hide Field;
    FieldInside(buf, at, h, 0, 4);
    FieldInside(buf, at, h, 28, 2);
    SameSlice(buf, at, h, 4, 24);
    SharedInside(h, 4, h[4..28]);
    SharedInside(buf, at + 4, h[4..28]);
  }

  lemma CentralRecordIs(c: Codec, buf: seq<byte>, at: nat, m: Member, local: nat)
    requires MemberFits(c, m) && local < U32
    requires at + |CentralOf(c, m, local)| <= |buf|
    requires buf[at..at + |CentralOf(c, m, local)|] == CentralOf(c, m, local)
    requires local + 30 <= |buf| && Field(buf, local + 8, 2) == Method(c, m.data)
    requires Field(buf, local + 18, 4) == |Stored(c, m.data)|
    ensures CentralDescribes(c, buf, at, m, local)
  {
    hide CentralHeader, CrcNumber, Field, Method, Stored;
    var n, body, kind, crc := c.utf8(m.name), Stored(c, m.data), Method(c, m.data), CrcNumber(m.data);
    var h, entry := CentralHeader(kind, crc, |body|, |m.data|, |n|, local), CentralOf(c, m, local);
    assert buf[at..at + 46] == h by {
      assert buf[at..at + 46] == buf[at..at + |entry|][..46];
    }
    CentralHeaderIs(kind, crc, |body|, |m.data|, |n|, local);
    CentralInside(buf, at, h);
    SliceInside(buf, at, entry, 46, 46 + |n|);
    assert entry[46..46 + |n|] == n;
  }

  lemma CentralInside(buf: seq<byte>, at: nat, h: seq<byte>)
    requires |h| == 46 && at + 46 <= |buf| && buf[at..at + 46] == h
    ensures Field(buf, at, 4) == Field(h, 0, 4) && Field(buf, at + 4, 2) == Field(h, 4, 2)
    ensures Field(buf, at + 6, 2) == Field(h, 6, 2) && Field(buf, at + 8, 2) == Field(h, 8, 2)
    ensures Field(buf, at + 10, 2) == Field(h, 10, 2) && Field(buf, at + 12, 2) == Field(h, 12, 2)
    ensures Field(buf, at + 14, 2) == Field(h, 14, 2) && Field(buf, at + 16, 4) == Field(h, 16, 4)
    ensures Field(buf, at + 20, 4) == Field(h, 20, 4) && Field(buf, at + 24, 4) == Field(h, 24, 4)
    ensures Field(buf, at + 28, 2) == Field(h, 28, 2) && Field(buf, at + 30, 8) == Field(h, 30, 8)
    ensures Field(buf, at + 38, 4) == Field(h, 38, 4) && Field(buf, at + 42, 4) == Field(h, 42, 4)
  {
    hide Field;
    FieldInside(buf, at, h, 0, 4);
    FieldInside(buf, at, h, 4, 2);
    FieldInside(buf, at, h, 30, 8);
    FieldInside(buf, at, h, 38, 4);
    FieldInside(buf, at, h, 42, 4);
    SameSlice(buf, at, h, 6, 24);
    SharedInside(h, 6, h[6..30]);
    SharedInside(buf, at + 6, h[6..30]);
  }

  /** Every member of an archive has a local and a central record whose fields, at the offsets of the format, are its
      own: the checksum is the bit-serial CRC of its contents, the lengths are the stored and the original one, and the
      central record leads to the local one. */
  lemma EveryMemberIsDescribed(c: Codec, ms: seq<Member>, k: nat)
    requires ArchiveFits(c, ms) && k < |ms|
    ensures AllFit(c, ms[..k])
    ensures var buf := Archive(c, ms);
            && LocalDescribes(c, buf, |Locals(c, ms[..k])|, ms[k])
            && CentralDescribes(c, buf, |Locals(c, ms)| + |Central(c, ms[..k])|, ms[k], |Locals(c, ms[..k])|)
  {
    hide Archive, LocalOf, CentralOf, Locals, Central, AllFit, Offset, MemberFits, Field, LocalDescribes,
      CentralDescribes, Method, Stored;
    ArchiveParts(c, ms, k);
    var buf, at, p := Archive(c, ms), Offset(c, ms[..k]), Offset(c, ms) + |Central(c, ms[..k])|;
    LocalRecordIs(c, buf, at, ms[k]);
    CentralRecordIs(c, buf, p, ms[k], at);
  }

  /** The end record: the last 22 bytes, with both counts, the directory's size and start, one disk and no comment. */
  lemma EndIsDescribed(c: Codec, ms: seq<Member>)
    requires ArchiveFits(c, ms)
    ensures var buf := Archive(c, ms);
            var e := |Locals(c, ms)| + |Central(c, ms)|;
            && |buf| == e + 22 && Field(buf, e, 4) == 0x0605_4b50 && Field(buf, e + 4, 4) == 0
            && Field(buf, e + 8, 2) == |ms| && Field(buf, e + 10, 2) == |ms|
            && Field(buf, e + 12, 4) == |Central(c, ms)| && Field(buf, e + 16, 4) == |Locals(c, ms)|
            && Field(buf, e + 20, 2) == 0
  {
    hide LE32, LE16, LittleEndian, Zeros, Locals, Central, AllFit, Offset;
    var size, off := |Central(c, ms)|, Offset(c, ms);
    var buf, e, h := Archive(c, ms), |Locals(c, ms)| + size, EndRecord(|ms|, size, off);
    Value32(0x0605_4b50);
    ValueZero(4);
    ValueZero(2);
    Value16(|ms|);
    Value32(size);
    Value32(off);
    assert h[0..4] == LE32(0x0605_4b50) && h[4..8] == Zeros(4) && h[8..10] == LE16(|ms|) && h[10..12] == LE16(|ms|);
    assert h[12..16] == LE32(size) && h[16..20] == LE32(off) && h[20..22] == Zeros(2);
    assert buf[e..e + 22] == h;
    FieldInside(buf, e, h, 0, 4);
    FieldInside(buf, e, h, 4, 4);
    FieldInside(buf, e, h, 8, 2);
    FieldInside(buf, e, h, 10, 2);
    FieldInside(buf, e, h, 12, 4);
    FieldInside(buf, e, h, 16, 4);
    FieldInside(buf, e, h, 20, 2);
  }

  /** Member `k` fits: its name, its length and the offset at which it starts. */
  predicate FitsAt(c: Codec, ms: seq<Member>, k: nat)
    requires k < |ms|
  {
    |c.utf8(ms[k].name)| < 0x1_0000 && |ms[k].data| < 0x1_0000_0000 && Offset(c, ms[..k]) < 0x1_0000_0000
  }

  lemma {:induction false} MembersFit(c: Codec, ms: seq<Member>)
    ensures AllFit(c, ms) <==> forall k | 0 <= k < |ms| :: FitsAt(c, ms, k)
  {
    if ms != [] {
      var last := |ms| - 1;
      var front := ms[..last];
      MembersFit(c, front);
      forall k | 0 <= k < last ensures FitsAt(c, front, k) == FitsAt(c, ms, k) {
        assert front[k] == ms[k] && front[..k] == ms[..k];
      }
      assert FitsAt(c, ms, last) <==> MemberFits(c, ms[last]) && Offset(c, front) < U32;
      hide Offset, FitsAt, MemberFits;
      if forall k | 0 <= k < |ms| :: FitsAt(c, ms, k) {
        assert forall k | 0 <= k < last :: FitsAt(c, front, k) == FitsAt(c, ms, k);
      }
      if AllFit(c, ms) {
        assert forall k | 0 <= k < last :: FitsAt(c, ms, k) == FitsAt(c, front, k);
      }
    }
  }

  /** The writer refuses exactly what the fields cannot hold: a name, a length, an offset, a count, a directory or a
      total that is too large. */
  lemma FitsExactly(c: Codec, ms: seq<Member>)
    ensures AllFit(c, ms) <==> forall k | 0 <= k < |ms| :: FitsAt(c, ms, k)
    ensures ArchiveFits(c, ms) <==>
              AllFit(c, ms) && |ms| < 0x1_0000 && |Central(c, ms)| < 0x1_0000_0000 && |Locals(c, ms)| < 0x1_0000_0000
  {
    hide AllFit, FitsAt, Central, Locals, Offset;
    MembersFit(c, ms);
  }

  // ---------- the reader on records of any writer ----------

  predicate EndSignatureAt(buf: seq<byte>, i: nat)
    requires i + 4 <= |buf|
  {
    buf[i..i + 4] == [0x50, 0x4b, 5, 6]
  }

  /** The scan from the end stops at the last place, at or below its start, that carries the signature. */
  lemma {:induction false} FindEndIsLast(buf: seq<byte>, e: int)
    requires e + 4 <= |buf|
    ensures match FindEnd(buf, e)
            case Some(low) => EndSignatureAt(buf, low) && forall i | low < i <= e :: !EndSignatureAt(buf, i)
            case None => forall i | 0 <= i <= e :: !EndSignatureAt(buf, i)
    decreases e + 1
  {
    hide ReadLE32, EndSignatureAt;
    if e >= 0 {
      EndSignature(buf, e);
      FindEndIsLast(buf, e - 1);
    }
  }

  lemma EndSignature(buf: seq<byte>, e: nat)
    requires e + 4 <= |buf|
    ensures ReadLE32(buf, e) == 0x0605_4b50 <==> EndSignatureAt(buf, e)
  {
    SignatureIs(buf, e);
  }

  /** Four bytes are determined by the number they stand for. */
  lemma SignatureIs(buf: seq<byte>, at: nat)
    requires at + 4 <= |buf|
    ensures ReadLE32(buf, at) == 0x0605_4b50 <==> buf[at..at + 4] == [0x50, 0x4b, 5, 6]
    ensures ReadLE32(buf, at) == 0x0201_4b50 <==> buf[at..at + 4] == [0x50, 0x4b, 1, 2]
  {
    var (a, b, c, d) := (buf[at], buf[at + 1], buf[at + 2], buf[at + 3]);
    assert buf[at..at + 4] == [a, b, c, d];
  }

  /** What another writer may put into an archive for one member: extra fields and a comment, and a local header whose
      name and extra field have lengths of their own. */
  datatype Foreign = Foreign(local: nat, kind: nat, name: seq<byte>, extra: nat, comment: nat, localName: nat,
                             localExtra: nat, stored: seq<byte>)

  /** The central record at `p` and the local header it leads to are those of `r`. */
  predicate RecordAt(buf: seq<byte>, p: nat, r: Foreign) {
    var start := r.local + 30 + r.localName + r.localExtra;
    && p + 46 + |r.name| <= |buf| && start + |r.stored| <= |buf|
    && buf[p..p + 4] == [0x50, 0x4b, 1, 2] && buf[p + 46..p + 46 + |r.name|] == r.name
    && Field(buf, p + 10, 2) == r.kind && Field(buf, p + 20, 4) == |r.stored| && Field(buf, p + 28, 2) == |r.name|
    && Field(buf, p + 30, 2) == r.extra && Field(buf, p + 32, 2) == r.comment && Field(buf, p + 42, 4) == r.local
    && Field(buf, r.local + 26, 2) == r.localName && Field(buf, r.local + 28, 2) == r.localExtra
    && buf[start..start + |r.stored|] == r.stored
  }

  function Behind(p: nat, r: Foreign): nat {
    p + 46 + |r.name| + r.extra + r.comment
  }

  /** The contents of a member, unless inflating fails. */
  function Contents(c: Codec, r: Foreign): Option<seq<byte>> {
    if r.kind == 8 then c.inflate(r.stored) else Some(r.stored)
  }

  /** The name comes from the central record, the contents from behind the local extra field, and the next record from
      behind the comment. */
  lemma AnyRecordRead(c: Codec, buf: seq<byte>, p: nat, r: Foreign)
    requires RecordAt(buf, p, r)
    ensures ReadRecord(c, buf, p) == match Contents(c, r)
                                     case None => None
                                     case Some(data) => Some((c.fromUtf8(r.name), data, Behind(p, r)))
  {
    hide Field, ReadLE16, ReadLE32;
    Field16(buf, p + 10);
    Field32(buf, p + 20);
    Field16(buf, p + 28);
    Field16(buf, p + 30);
    Field16(buf, p + 32);
    Field32(buf, p + 42);
    Field16(buf, r.local + 26);
    Field16(buf, r.local + 28);
    SignatureIs(buf, p);
  }

  /** These records, one behind the other. */
  predicate DirectoryAt(buf: seq<byte>, p: nat, rs: seq<Foreign>)
    decreases |rs|
  {
    rs == [] || (RecordAt(buf, p, rs[0]) && DirectoryAt(buf, Behind(p, rs[0]), rs[1..]))
  }

  /** Every member under its name, the later one under a repeated name. */
  function FilesOf(c: Codec, rs: seq<Foreign>): map<Name, seq<byte>>
    requires forall i | 0 <= i < |rs| :: Contents(c, rs[i]).Some?
  {
    if rs == [] then map[]
    else
      var last := |rs| - 1;
      FilesOf(c, rs[..last])[c.fromUtf8(rs[last].name) := Contents(c, rs[last]).value]
  }

  lemma {:induction false} AnyRecordsRead(c: Codec, buf: seq<byte>, p: nat, done: seq<Foreign>, rs: seq<Foreign>)
    requires forall i | 0 <= i < |done + rs| :: Contents(c, (done + rs)[i]).Some?
    requires forall i | 0 <= i < |done| :: Contents(c, done[i]).Some?
    requires DirectoryAt(buf, p, rs)
    ensures ReadRecords(c, buf, p, |rs|, FilesOf(c, done)) == Some(FilesOf(c, done + rs))
    decreases |rs|
  {
    hide ReadRecord, RecordAt, Contents;
    if rs == [] {
      assert done + rs == done;
    } else {
      AnyRecordRead(c, buf, p, rs[0]);
      var more := done + [rs[0]];
      assert more + rs[1..] == done + rs;
      assert (done + rs)[|done|] == rs[0] && forall i | 0 <= i < |done| :: more[i] == (done + rs)[i];
      assert more[..|done|] == done && more[|more| - 1] == rs[0];
      AnyRecordsRead(c, buf, Behind(p, rs[0]), more, rs[1..]);
    }
  }

  /** Any writer's archive: when the last end record names a directory of these records, and all their contents inflate,
      the reader returns the members under their names. */
  lemma AnyArchiveRead(c: Codec, buf: seq<byte>, e: nat, rs: seq<Foreign>)
    requires e + 22 <= |buf| && EndSignatureAt(buf, e)
    requires forall i | e < i <= |buf| - 22 :: !EndSignatureAt(buf, i)
    requires Field(buf, e + 10, 2) == |rs| && DirectoryAt(buf, Field(buf, e + 16, 4), rs)
    requires forall i | 0 <= i < |rs| :: Contents(c, rs[i]).Some?
    ensures Unzipped(c, buf) == Some(FilesOf(c, rs))
  {
    hide Field, ReadLE16, ReadLE32, ReadRecords, DirectoryAt, Contents, EndSignatureAt;
    FindEndIsLast(buf, |buf| - 22);
    Field16(buf, e + 10);
    Field32(buf, e + 16);
    assert [] + rs == rs;
    AnyRecordsRead(c, buf, Field(buf, e + 16, 4), [], rs);
  }

  // ---------- order ----------

  /** The order of the names: one is a proper prefix of the other, or the first place where they differ decides. */
  lemma {:induction false} LessExactly(a: Name, b: Name)
    ensures Less(a, b) <==> a < b || exists k :: 0 <= k < |a| && k < |b| && a[..k] == b[..k] && a[k] < b[k]
  {
    if a != [] && b != [] && a[0] == b[0] {
      var a', b' := a[1..], b[1..];
      LessExactly(a', b');
      assert a == [a[0]] + a' && b == [b[0]] + b';
      assert a < b <==> a' < b';
      if k :| 0 <= k < |a'| && k < |b'| && a'[..k] == b'[..k] && a'[k] < b'[k] {
        assert a[..k + 1] == [a[0]] + a'[..k] && b[..k + 1] == [b[0]] + b'[..k];
        assert a[k + 1] < b[k + 1];
      }
      if k :| 0 <= k < |a| && k < |b| && a[..k] == b[..k] && a[k] < b[k] {
        assert k > 0 && a'[..k - 1] == a[..k][1..] && b'[..k - 1] == b[..k][1..];
        assert a'[k - 1] < b'[k - 1];
      }
    } else if a != [] && b != [] && a[0] < b[0] {
      assert a[..0] == b[..0];
    } else if a != [] && b != [] {
      forall k | 0 < k < |a| && k < |b| ensures a[..k] != b[..k] {
        assert a[..k][0] == a[0] && b[..k][0] == b[0];
      }
    }
  }
}
