/** Reading back what the writer wrote, and independence of the input order. */
module ZipRoundTrip {
  import opened Bytes
  import opened Crc32
  import opened ZipFormat

  // ---------- fields of the records ----------

  lemma ZerosAt(n: nat)
    ensures n >= 2 ==> Zeros(n) == LE16(0) + Zeros(n - 2)
  {
    if n >= 2 {
      assert Zeros(n) == Zeros(2) + Zeros(n - 2);
    }
  }

  lemma SharedParts(kind: nat, crc: nat, csize: nat, usize: nat, nlen: nat)
    requires kind < U16 && crc < U32 && csize < U32 && usize < U32 && nlen < U16
    ensures var h := SharedFields(kind, crc, csize, usize, nlen);
            && h[4..6] == LE16(kind) && h[14..18] == LE32(csize) && h[22..24] == LE16(nlen)
  {
    hide LE16, LE32;
  }

  lemma LocalParts(kind: nat, crc: nat, csize: nat, usize: nat, nlen: nat)
    requires kind < U16 && crc < U32 && csize < U32 && usize < U32 && nlen < U16
    ensures var h := LocalHeader(kind, crc, csize, usize, nlen);
            && ReadLE16(h, 26) == nlen && ReadLE16(h, 28) == 0
  {
    hide LE16, LE32, SharedFields, ReadLE16, Zeros;
    var h := LocalHeader(kind, crc, csize, usize, nlen);
    var shared := SharedFields(kind, crc, csize, usize, nlen);
    SharedParts(kind, crc, csize, usize, nlen);
    assert h[26..28] == shared[22..24];
    LE16At(h, 26, nlen);
    ZerosAt(2);
    assert h[28..30] == Zeros(2);
    assert LE16(0) + Zeros(0) == LE16(0);
    LE16At(h, 28, 0);
  }

  lemma CentralParts(kind: nat, crc: nat, csize: nat, usize: nat, nlen: nat, off: nat)
    requires kind < U16 && crc < U32 && csize < U32 && usize < U32 && nlen < U16 && off < U32
    ensures var h := CentralHeader(kind, crc, csize, usize, nlen, off);
            && ReadLE32(h, 0) == 0x0201_4b50 && ReadLE16(h, 10) == kind && ReadLE32(h, 20) == csize
            && ReadLE16(h, 28) == nlen && ReadLE16(h, 30) == 0 && ReadLE16(h, 32) == 0 && ReadLE32(h, 42) == off
  {
    hide LE16, LE32, SharedFields, ReadLE16, ReadLE32, Zeros;
    var h := CentralHeader(kind, crc, csize, usize, nlen, off);
    var shared := SharedFields(kind, crc, csize, usize, nlen);
    SharedParts(kind, crc, csize, usize, nlen);
    assert h[0..4] == LE32(0x0201_4b50);
    LE32At(h, 0, 0x0201_4b50);
    assert h[10..12] == shared[4..6];
    LE16At(h, 10, kind);
    assert h[20..24] == shared[14..18];
    LE32At(h, 20, csize);
    assert h[28..30] == shared[22..24];
    LE16At(h, 28, nlen);
    ZerosAt(8);
    ZerosAt(6);
    assert h[30..38] == Zeros(8);
    assert h[30..32] == Zeros(8)[0..2] && h[32..34] == Zeros(8)[2..4];
    LE16At(h, 30, 0);
    LE16At(h, 32, 0);
    assert h[42..46] == LE32(off);
    LE32At(h, 42, off);
  }

  lemma EndParts(count: nat, size: nat, off: nat)
    requires count < U16 && size < U32 && off < U32
    ensures var h := EndRecord(count, size, off);
            && ReadLE32(h, 0) == 0x0605_4b50 && ReadLE16(h, 10) == count && ReadLE32(h, 16) == off
  {
    hide LE16, LE32, ReadLE16, ReadLE32, Zeros;
    var h := EndRecord(count, size, off);
    assert h[0..4] == LE32(0x0605_4b50);
    LE32At(h, 0, 0x0605_4b50);
    assert h[10..12] == LE16(count);
    LE16At(h, 10, count);
    assert h[16..20] == LE32(off);
    LE32At(h, 16, off);
  }

  /** Fields keep their values when a record is embedded in a buffer. */
  lemma Embedded(buf: seq<byte>, at: nat, h: seq<byte>)
    requires at + |h| <= |buf| && buf[at..at + |h|] == h
    ensures forall k: nat | k + 2 <= |h| :: ReadLE16(buf, at + k) == ReadLE16(h, k)
    ensures forall k: nat | k + 4 <= |h| :: ReadLE32(buf, at + k) == ReadLE32(h, k)
  {
    assert forall k | 0 <= k < |h| :: buf[at + k] == h[k];
  }

  // ---------- layout ----------

  lemma {:induction false} LocalsAt(c: Codec, ms: seq<Member>, k: nat)
    requires AllFit(c, ms) && k < |ms|
    ensures AllFit(c, ms[..k]) && MemberFits(c, ms[k]) && Offset(c, ms[..k]) < U32
    ensures Offset(c, ms[..k]) + LocalSize(c, ms[k]) <= Offset(c, ms)
    ensures Locals(c, ms)[Offset(c, ms[..k])..Offset(c, ms[..k]) + LocalSize(c, ms[k])] == LocalOf(c, ms[k])
    decreases |ms|
  {
    hide LocalOf, MemberFits, LocalSize;
    var last := |ms| - 1;
    var front := ms[..last];
    var all, before, own := Locals(c, ms), Locals(c, front), LocalOf(c, ms[last]);
    assert all == before + own;
    if k < last {
      LocalsAt(c, front, k);
      assert front[..k] == ms[..k] && front[k] == ms[k];
      SliceOfParts(before, own, [], Offset(c, ms[..k]), Offset(c, ms[..k]) + LocalSize(c, ms[k]));
      assert before + own + [] == before + own;
    } else {
      assert ms[..k] == front && all[|before|..|before| + |own|] == own;
    }
  }

  lemma CentralGrows(c: Codec, ms: seq<Member>, k: nat)
    requires AllFit(c, ms) && k < |ms|
    ensures AllFit(c, ms[..k]) && AllFit(c, ms[..k + 1]) && MemberFits(c, ms[k]) && Offset(c, ms[..k]) < U32
    ensures Central(c, ms[..k + 1]) == Central(c, ms[..k]) + CentralOf(c, ms[k], Offset(c, ms[..k]))
  {
    hide CentralOf;
    TakeOneMore(c, ms, k);
    FitsPrefix(c, ms, k);
    FitsPrefix(c, ms, k + 1);
  }

  lemma {:induction false} CentralPrefix(c: Codec, ms: seq<Member>, k: nat)
    requires AllFit(c, ms) && k <= |ms|
    ensures AllFit(c, ms[..k]) && Central(c, ms[..k]) <= Central(c, ms)
    decreases |ms|
  {
    hide CentralOf;
    FitsPrefix(c, ms, k);
    if k < |ms| {
      var front := ms[..|ms| - 1];
      CentralPrefix(c, front, k);
      assert front[..k] == ms[..k];
    } else {
      assert ms[..k] == ms;
    }
  }

  lemma CentralAt(c: Codec, ms: seq<Member>, k: nat)
    requires AllFit(c, ms) && k < |ms|
    ensures AllFit(c, ms[..k]) && AllFit(c, ms[..k + 1]) && MemberFits(c, ms[k]) && Offset(c, ms[..k]) < U32
    ensures var entry := CentralOf(c, ms[k], Offset(c, ms[..k]));
            var at := |Central(c, ms[..k])|;
            && |Central(c, ms[..k + 1])| == at + |entry| <= |Central(c, ms)|
            && Central(c, ms)[at..at + |entry|] == entry
  {
    hide CentralOf, Central, AllFit;
    CentralGrows(c, ms, k);
    CentralPrefix(c, ms, k + 1);
    var entry, at, upTo := CentralOf(c, ms[k], Offset(c, ms[..k])), |Central(c, ms[..k])|, Central(c, ms[..k + 1]);
    assert Central(c, ms)[at..at + |entry|] == upTo[at..at + |entry|];
  }

  // ---------- reading ----------

  /** The library pairs invert each other on this member: its name is well-formed UTF-16 and inflate undoes deflate. */
  predicate Lawful(c: Codec, m: Member) {
    c.fromUtf8(c.utf8(m.name)) == m.name && c.inflate(c.deflate(m.data)) == Some(m.data)
  }

  lemma SliceInside(buf: seq<byte>, at: nat, part: seq<byte>, lo: nat, hi: nat)
    requires at + |part| <= |buf| && buf[at..at + |part|] == part && lo <= hi <= |part|
    ensures Slice(buf, at + lo, at + hi) == part[lo..hi]
  {
    var cut := buf[at..at + |part|];
    forall k | 0 <= k < hi - lo ensures buf[at + lo..at + hi][k] == part[lo..hi][k] {
      assert cut[lo + k] == buf[at + lo + k];
    }
    assert buf[at + lo..at + hi] == part[lo..hi];
  }

  /** One central record points at its local header, and the member comes out. */
  lemma RecordRead(c: Codec, buf: seq<byte>, m: Member, p: nat, off: nat)
    requires MemberFits(c, m) && off < U32 && Lawful(c, m)
    requires p + |CentralOf(c, m, off)| <= |buf| && buf[p..p + |CentralOf(c, m, off)|] == CentralOf(c, m, off)
    requires off + LocalSize(c, m) <= |buf| && buf[off..off + LocalSize(c, m)] == LocalOf(c, m)
    ensures ReadRecord(c, buf, p) == Some((m.name, m.data, p + |CentralOf(c, m, off)|))
  {
    hide LocalHeader, CentralHeader, CrcNumber, ReadLE16, ReadLE32, Slice;
    var n, body := c.utf8(m.name), Stored(c, m.data);
    var kind, crc := Method(c, m.data), CrcNumber(m.data);
    var ch := CentralHeader(kind, crc, |body|, |m.data|, |n|, off);
    var lh := LocalHeader(kind, crc, |body|, |m.data|, |n|);
    var local := LocalOf(c, m);
    CentralParts(kind, crc, |body|, |m.data|, |n|, off);
    LocalParts(kind, crc, |body|, |m.data|, |n|);
    assert buf[p..p + 46] == ch && buf[off..off + 30] == lh by {
      assert buf[p..p + 46] == buf[p..p + |ch + n|][..46];
      assert buf[off..off + 30] == buf[off..off + |local|][..30];
    }
    Embedded(buf, p, ch);
    Embedded(buf, off, lh);
    SliceInside(buf, p, ch + n, 46, 46 + |n|);
    SliceInside(buf, off, local, 30 + |n|, 30 + |n| + |body|);
    assert (ch + n)[46..46 + |n|] == n;
    assert local[30 + |n|..30 + |n| + |body|] == body;
    assert ReadLE32(buf, p + 0) == ReadLE32(ch, 0);
    FieldsAgree(buf, p, ch, off, lh);
  }

  lemma FieldsAgree(buf: seq<byte>, p: nat, ch: seq<byte>, off: nat, lh: seq<byte>)
    requires |ch| == 46 && |lh| == 30 && p + 46 <= |buf| && off + 30 <= |buf|
    requires buf[p..p + 46] == ch && buf[off..off + 30] == lh
    ensures ReadLE32(buf, p) == ReadLE32(ch, 0) && ReadLE16(buf, p + 10) == ReadLE16(ch, 10)
    ensures ReadLE32(buf, p + 20) == ReadLE32(ch, 20) && ReadLE16(buf, p + 28) == ReadLE16(ch, 28)
    ensures ReadLE16(buf, p + 30) == ReadLE16(ch, 30) && ReadLE16(buf, p + 32) == ReadLE16(ch, 32)
    ensures ReadLE32(buf, p + 42) == ReadLE32(ch, 42)
    ensures ReadLE16(buf, off + 26) == ReadLE16(lh, 26) && ReadLE16(buf, off + 28) == ReadLE16(lh, 28)
  {
    assert forall k | 0 <= k < 46 :: buf[p + k] == ch[k];
    assert forall k | 0 <= k < 30 :: buf[off + k] == lh[k];
  }

  function MapOf(ms: seq<Member>): map<Name, seq<byte>> {
    if ms == [] then map[] else MapOf(ms[..|ms| - 1])[ms[|ms| - 1].name := ms[|ms| - 1].data]
  }

  lemma SliceOfParts<T>(a: seq<T>, b: seq<T>, e: seq<T>, lo: nat, hi: nat)
    requires lo <= hi
    ensures hi <= |a| ==> (a + b + e)[lo..hi] == a[lo..hi]
    ensures hi <= |b| ==> (a + b + e)[|a| + lo..|a| + hi] == b[lo..hi]
  {
  }

  lemma ArchiveParts(c: Codec, ms: seq<Member>, k: nat)
    requires ArchiveFits(c, ms) && k < |ms|
    ensures MemberFits(c, ms[k]) && AllFit(c, ms[..k]) && AllFit(c, ms[..k + 1]) && Offset(c, ms[..k]) < U32
    ensures var buf := Archive(c, ms);
            var off := Offset(c, ms[..k]);
            var entry := CentralOf(c, ms[k], off);
            var p := Offset(c, ms) + |Central(c, ms[..k])|;
            && off + LocalSize(c, ms[k]) <= |buf| && buf[off..off + LocalSize(c, ms[k])] == LocalOf(c, ms[k])
            && p + |entry| <= |buf| && buf[p..p + |entry|] == entry
            && Offset(c, ms) + |Central(c, ms[..k + 1])| == p + |entry|
  {
    hide LocalOf, CentralOf, EndRecord, Locals, Central, AllFit, Offset, LocalSize, MemberFits;
    LocalsAt(c, ms, k);
    CentralAt(c, ms, k);
    var locals, central, end := Locals(c, ms), Central(c, ms), EndRecord(|ms|, |Central(c, ms)|, Offset(c, ms));
    var off, size := Offset(c, ms[..k]), LocalSize(c, ms[k]);
    var at, len := |Central(c, ms[..k])|, |CentralOf(c, ms[k], off)|;
    SliceOfParts(locals, central, end, off, off + size);
    SliceOfParts(locals, central, end, at, at + len);
  }

  lemma {:induction false} RecordsRead(c: Codec, ms: seq<Member>, k: nat)
    requires ArchiveFits(c, ms) && k <= |ms|
    requires forall i | 0 <= i < |ms| :: Lawful(c, ms[i])
    ensures AllFit(c, ms[..k])
    ensures ReadRecords(c, Archive(c, ms), Offset(c, ms) + |Central(c, ms[..k])|, |ms| - k, MapOf(ms[..k]))
         == Some(MapOf(ms))
    decreases |ms| - k
  {
    hide Archive, ReadRecord, CentralOf, LocalOf, Lawful, Central, Offset, MemberFits, LocalSize, Locals;
    FitsPrefix(c, ms, k);
    if k == |ms| {
      assert ms[..k] == ms;
    } else {
      ArchiveParts(c, ms, k);
      RecordRead(c, Archive(c, ms), ms[k], Offset(c, ms) + |Central(c, ms[..k])|, Offset(c, ms[..k]));
      TakeOneMore(c, ms, k);
      RecordsRead(c, ms, k + 1);
    }
  }

  /** The end record is found at length - 22 at the first probe, and carries the count and the directory's start. */
  lemma EndFound(c: Codec, ms: seq<Member>)
    requires ArchiveFits(c, ms)
    ensures var buf := Archive(c, ms);
            && |buf| >= 22 && FindEnd(buf, |buf| - 22) == Some(|buf| - 22)
            && ReadLE16(buf, |buf| - 22 + 10) == |ms| && ReadLE32(buf, |buf| - 22 + 16) == Offset(c, ms)
  {
    hide EndRecord, ReadLE16, ReadLE32, Locals, Central;
    var buf := Archive(c, ms);
    var end := EndRecord(|ms|, |Central(c, ms)|, Offset(c, ms));
    var at := |buf| - 22;
    EndParts(|ms|, |Central(c, ms)|, Offset(c, ms));
    assert buf[at..at + 22] == end;
    Embedded(buf, at, end);
    assert ReadLE32(buf, at + 0) == ReadLE32(end, 0);
  }

  /** Reading an archive back gives the members it was written from. */
  lemma ArchiveRoundTrip(c: Codec, ms: seq<Member>)
    requires ArchiveFits(c, ms)
    requires forall i | 0 <= i < |ms| :: Lawful(c, ms[i])
    ensures Unzipped(c, Archive(c, ms)) == Some(MapOf(ms))
  {
    hide Archive, Lawful, ReadRecords, ReadLE16, ReadLE32, FindEnd, AllFit, Offset, Central, Locals, MapOf;
    EndFound(c, ms);
    RecordsRead(c, ms, 0);
    NoneYet(c, ms);
  }

  lemma NoneYet(c: Codec, ms: seq<Member>)
    requires AllFit(c, ms[..0])
    ensures Central(c, ms[..0]) == [] && MapOf(ms[..0]) == map[]
  {
  }

  // ---------- order ----------

  lemma {:induction false} LessIrreflexive(a: Name)
    ensures !Less(a, a)
  {
    if a != [] {
      LessIrreflexive(a[1..]);
    }
  }

  lemma {:induction false} LessTransitive(a: Name, b: Name, d: Name)
    requires Less(a, b) && Less(b, d)
    ensures Less(a, d)
  {
    if a != [] && a[0] == b[0] == d[0] {
      LessTransitive(a[1..], b[1..], d[1..]);
    }
  }

  lemma {:induction false} LessTotal(a: Name, b: Name)
    ensures a == b || Less(a, b) || Less(b, a)
  {
    if a != [] && b != [] && a[0] == b[0] {
      LessTotal(a[1..], b[1..]);
      assert a == [a[0]] + a[1..] && b == [b[0]] + b[1..];
    }
  }

  predicate DistinctNames(ms: seq<Member>) {
    forall i, j | 0 <= i < j < |ms| :: ms[i].name != ms[j].name
  }

  predicate Ascending(ms: seq<Member>) {
    forall i, j | 0 <= i < j < |ms| :: Less(ms[i].name, ms[j].name)
  }

  lemma {:induction false} InsertKeeps(m: Member, ms: seq<Member>)
    ensures multiset(Insert(m, ms)) == multiset{m} + multiset(ms)
  {
    if ms != [] && !Less(m.name, ms[0].name) {
      InsertKeeps(m, ms[1..]);
      assert ms == [ms[0]] + ms[1..];
    } else if ms != [] {
      assert multiset([m] + ms) == multiset{m} + multiset(ms);
    }
  }

  lemma {:induction false} SortKeeps(ms: seq<Member>)
    ensures multiset(Sort(ms)) == multiset(ms)
  {
    if ms != [] {
      SortKeeps(ms[1..]);
      InsertKeeps(ms[0], Sort(ms[1..]));
      assert ms == [ms[0]] + ms[1..];
    }
  }

  lemma AscendingCons(m: Member, ms: seq<Member>)
    requires Ascending(ms) && forall x | x in ms :: Less(m.name, x.name)
    ensures Ascending([m] + ms)
  {
    hide Less;
  }

  lemma {:induction false} InsertAscends(m: Member, ms: seq<Member>)
    requires Ascending(ms) && forall i | 0 <= i < |ms| :: ms[i].name != m.name
    ensures Ascending(Insert(m, ms))
  {
    if ms != [] {
      hide Less;
      if Less(m.name, ms[0].name) {
        forall x | x in ms ensures Less(m.name, x.name) {
          var k :| 0 <= k < |ms| && ms[k] == x;
          if k > 0 {
            LessTransitive(m.name, ms[0].name, x.name);
          }
        }
        AscendingCons(m, ms);
      } else {
        LessTotal(m.name, ms[0].name);
        InsertAscends(m, ms[1..]);
        InsertKeeps(m, ms[1..]);
        forall x | x in Insert(m, ms[1..]) ensures Less(ms[0].name, x.name) {
          assert x in multiset(Insert(m, ms[1..]));
          if x != m {
            var k :| 0 <= k < |ms| - 1 && ms[1..][k] == x;
            assert Less(ms[0].name, ms[k + 1].name);
          }
        }
        AscendingCons(ms[0], Insert(m, ms[1..]));
      }
    }
  }

  lemma {:induction false} SortAscends(ms: seq<Member>)
    requires DistinctNames(ms)
    ensures Ascending(Sort(ms))
  {
    if ms != [] {
      var rest := Sort(ms[1..]);
      SortAscends(ms[1..]);
      SortKeeps(ms[1..]);
      forall i | 0 <= i < |rest| ensures rest[i].name != ms[0].name {
        assert rest[i] in multiset(rest);
        assert rest[i] in ms[1..];
        var k :| 0 <= k < |ms| - 1 && ms[1..][k] == rest[i];
        assert ms[0].name != ms[k + 1].name;
      }
      InsertAscends(ms[0], rest);
    }
  }

  lemma FirstIsLeast(a: seq<Member>, b: seq<Member>)
    requires Ascending(a) && Ascending(b) && multiset(a) == multiset(b) && a != [] && b != []
    ensures a[0] == b[0]
  {
    assert a[0] in multiset(b) && b[0] in multiset(a);
    var i :| 0 <= i < |b| && b[i] == a[0];
    var j :| 0 <= j < |a| && a[j] == b[0];
    if i > 0 && j > 0 {
      assert Less(a[0].name, a[j].name) && Less(b[0].name, b[i].name);
      LessTransitive(a[0].name, b[0].name, a[0].name);
      LessIrreflexive(a[0].name);
    }
  }

  /** An ascending list is determined by its members. */
  lemma {:induction false} AscendingUnique(a: seq<Member>, b: seq<Member>)
    requires Ascending(a) && Ascending(b) && multiset(a) == multiset(b)
    ensures a == b
  {
    assert |a| == |multiset(a)| == |multiset(b)| == |b|;
    if a != [] {
      FirstIsLeast(a, b);
      assert a == [a[0]] + a[1..] && b == [b[0]] + b[1..];
      assert multiset(a[1..]) == multiset(a) - multiset{a[0]};
      assert multiset(b[1..]) == multiset(b) - multiset{b[0]};
      AscendingUnique(a[1..], b[1..]);
    }
  }

  /** Reproducibility: the same members with distinct names give the same archive in whatever order they are passed. */
  lemma OrderIrrelevant(c: Codec, files: seq<Member>, files': seq<Member>)
    requires DistinctNames(files) && DistinctNames(files') && multiset(files) == multiset(files')
    ensures Sort(files) == Sort(files')
    ensures ArchiveFits(c, Sort(files)) <==> ArchiveFits(c, Sort(files'))
  {
    SortAscends(files);
    SortAscends(files');
    SortKeeps(files);
    SortKeeps(files');
    AscendingUnique(Sort(files), Sort(files'));
  }

  lemma {:induction false} MapOfDistinct(ms: seq<Member>)
    requires DistinctNames(ms)
    ensures forall i | 0 <= i < |ms| :: ms[i].name in MapOf(ms) && MapOf(ms)[ms[i].name] == ms[i].data
    ensures forall n | n in MapOf(ms) :: exists i :: 0 <= i < |ms| && ms[i].name == n
  {
    if ms != [] {
      var front := ms[..|ms| - 1];
      MapOfDistinct(front);
      forall n | n in MapOf(ms) ensures exists i :: 0 <= i < |ms| && ms[i].name == n {
        if n in MapOf(front) {
          var i :| 0 <= i < |front| && front[i].name == n;
          assert ms[i].name == n;
        } else {
          assert ms[|ms| - 1].name == n;
        }
      }
      forall i | 0 <= i < |ms| ensures ms[i].name in MapOf(ms) && MapOf(ms)[ms[i].name] == ms[i].data {
        if i < |front| {
          assert front[i] == ms[i];
        }
      }
    }
  }

  /** The name-to-bytes map of the input. */
  ghost predicate IsMapOf(m: map<Name, seq<byte>>, files: seq<Member>) {
    && (forall f | f in files :: f.name in m && m[f.name] == f.data)
    && (forall n | n in m :: exists f :: f in files && f.name == n)
  }

  lemma AscendingDistinct(ms: seq<Member>)
    requires Ascending(ms)
    ensures DistinctNames(ms)
  {
    forall i, j | 0 <= i < j < |ms| ensures ms[i].name != ms[j].name {
      LessIrreflexive(ms[i].name);
    }
  }

  /** Writing distinctly named members and reading the archive back returns exactly the name-to-bytes map that went in,
      whenever the sizes fit the format's fields. */
  lemma ZipRoundTrips(c: Codec, files: seq<Member>)
    requires DistinctNames(files) && ArchiveFits(c, Sort(files))
    requires forall f | f in files :: Lawful(c, f)
    ensures var r := Unzipped(c, Archive(c, Sort(files)));
            r.Some? && IsMapOf(r.value, files)
  {
    hide Archive, Unzipped, Sort, Lawful, ArchiveFits;
    var ms := Sort(files);
    SortAscends(files);
    SortKeeps(files);
    SameMembers(files, ms);
    AscendingDistinct(ms);
    MapOfDistinct(ms);
    ArchiveRoundTrip(c, ms);
    forall f | f in files ensures f.name in MapOf(ms) && MapOf(ms)[f.name] == f.data {
      assert f in ms;
    }
  }

  lemma SameMembers(a: seq<Member>, b: seq<Member>)
    requires multiset(a) == multiset(b)
    ensures forall m :: m in a <==> m in b
  {
    forall m ensures m in a <==> m in b {
      assert m in a <==> m in multiset(a);
      assert m in b <==> m in multiset(b);
    }
  }
}
