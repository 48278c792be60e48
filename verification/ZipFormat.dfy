/** The archive writer of transports/tools/ntx.mjs and the reader of transports/test/wasm-package.test.mjs
    (PKWARE APPNOTE, sections 4.3.7, 4.3.12, 4.3.16 and 4.4.7). */
module ZipFormat {
  import opened Bytes
  import opened Crc32

  /** A JavaScript string: UTF-16 code units. */
  type Unit = x: int | 0 <= x < 0x1_0000
  type Name = seq<Unit>

  datatype Member = Member(name: Name, data: seq<byte>)

  /** The library calls of both programs: raw deflate and inflate, and UTF-8. */
  datatype Codec = Codec(deflate: seq<byte> -> seq<byte>, inflate: seq<byte> -> Option<seq<byte>>,
                         utf8: Name -> seq<byte>, fromUtf8: seq<byte> -> Name)

  // ---------- order ----------

  /** `a < b` on strings. */
  predicate Less(a: Name, b: Name) {
    if b == [] then false
    else if a == [] then true
    else if a[0] != b[0] then a[0] < b[0]
    else Less(a[1..], b[1..])
  }

  function Insert(m: Member, ms: seq<Member>): (r: seq<Member>)
    ensures |r| == |ms| + 1
  {
    if ms == [] then [m]
    else if Less(m.name, ms[0].name) then [m] + ms
    else [ms[0]] + Insert(m, ms[1..])
  }

  /** `[...files].sort(...)` by name. */
  function Sort(ms: seq<Member>): (r: seq<Member>)
    ensures |r| == |ms|
  {
    if ms == [] then [] else Insert(ms[0], Sort(ms[1..]))
  }

  // ---------- records ----------

  function Zeros(n: nat): (z: seq<byte>)
    ensures |z| == n
  {
    seq(n, _ => 0)
  }

  function Method(c: Codec, data: seq<byte>): (m: nat)
    ensures m < U16
  {
    if |c.deflate(data)| < |data| then 8 else 0
  }

  function Stored(c: Codec, data: seq<byte>): (b: seq<byte>)
    ensures |b| <= |data|
  {
    if |c.deflate(data)| < |data| then c.deflate(data) else data
  }

  /** The sizes that the header fields can hold; Node's buffer writes throw on anything larger. */
  predicate MemberFits(c: Codec, m: Member) {
    |c.utf8(m.name)| < U16 && |m.data| < U32
  }

  /** The nine fields both headers share, from the version needed to the name length. */
  function SharedFields(kind: nat, crc: nat, csize: nat, usize: nat, nlen: nat): (h: seq<byte>)
    requires kind < U16 && crc < U32 && csize < U32 && usize < U32 && nlen < U16
    ensures |h| == 24
  {
    LE16(20) + LE16(0x0800) + LE16(kind) + LE16(0) + LE16(0x21) + LE32(crc) + LE32(csize) + LE32(usize) + LE16(nlen)
  }

  function LocalHeader(kind: nat, crc: nat, csize: nat, usize: nat, nlen: nat): (h: seq<byte>)
    requires kind < U16 && crc < U32 && csize < U32 && usize < U32 && nlen < U16
    ensures |h| == 30
  {
    LE32(0x0403_4b50) + SharedFields(kind, crc, csize, usize, nlen) + Zeros(2)
  }

  function CentralHeader(kind: nat, crc: nat, csize: nat, usize: nat, nlen: nat, off: nat): (h: seq<byte>)
    requires kind < U16 && crc < U32 && csize < U32 && usize < U32 && nlen < U16 && off < U32
    ensures |h| == 46
  {
    LE32(0x0201_4b50) + LE16(0x031e) + SharedFields(kind, crc, csize, usize, nlen)
    + Zeros(8) + LE32(0x81a4_0000) + LE32(off)
  }

  function EndRecord(count: nat, size: nat, off: nat): (h: seq<byte>)
    requires count < U16 && size < U32 && off < U32
    ensures |h| == 22
  {
    LE32(0x0605_4b50) + Zeros(4) + LE16(count) + LE16(count) + LE32(size) + LE32(off) + Zeros(2)
  }

  function LocalOf(c: Codec, m: Member): seq<byte>
    requires MemberFits(c, m)
  {
    LocalHeader(Method(c, m.data), CrcNumber(m.data), |Stored(c, m.data)|, |m.data|, |c.utf8(m.name)|)
    + c.utf8(m.name) + Stored(c, m.data)
  }

  function CentralOf(c: Codec, m: Member, off: nat): seq<byte>
    requires MemberFits(c, m) && off < U32
  {
    CentralHeader(Method(c, m.data), CrcNumber(m.data), |Stored(c, m.data)|, |m.data|, |c.utf8(m.name)|, off)
    + c.utf8(m.name)
  }

  function LocalSize(c: Codec, m: Member): nat {
    30 + |c.utf8(m.name)| + |Stored(c, m.data)|
  }

  /** Where the local header of the next member goes after `ms`. */
  function Offset(c: Codec, ms: seq<Member>): nat {
    if ms == [] then 0 else Offset(c, ms[..|ms| - 1]) + LocalSize(c, ms[|ms| - 1])
  }

  /** The writer's loop gets through `ms` without an out-of-range field. */
  predicate AllFit(c: Codec, ms: seq<Member>) {
    ms == [] || (AllFit(c, ms[..|ms| - 1]) && MemberFits(c, ms[|ms| - 1]) && Offset(c, ms[..|ms| - 1]) < U32)
  }

  function Locals(c: Codec, ms: seq<Member>): (b: seq<byte>)
    requires AllFit(c, ms)
    ensures |b| == Offset(c, ms)
  {
    if ms == [] then [] else Locals(c, ms[..|ms| - 1]) + LocalOf(c, ms[|ms| - 1])
  }

  function Central(c: Codec, ms: seq<Member>): seq<byte>
    requires AllFit(c, ms)
  {
    if ms == [] then []
    else Central(c, ms[..|ms| - 1]) + CentralOf(c, ms[|ms| - 1], Offset(c, ms[..|ms| - 1]))
  }

  predicate ArchiveFits(c: Codec, ms: seq<Member>) {
    AllFit(c, ms) && |ms| < U16 && |Central(c, ms)| < U32 && Offset(c, ms) < U32
  }

  /** The whole archive of members in the given order. */
  function Archive(c: Codec, ms: seq<Member>): seq<byte>
    requires ArchiveFits(c, ms)
  {
    Locals(c, ms) + Central(c, ms) + EndRecord(|ms|, |Central(c, ms)|, Offset(c, ms))
  }

  // ---------- the writer ----------

  /** `buf.writeUInt..LE(v, off)` into the zeroed tail of a buffer whose front is already written. */
  method WriteField(buf: array<byte>, ghost done: seq<byte>, v: seq<byte>, off: nat) returns (ghost after: seq<byte>)
    requires |done| <= off && off + |v| <= buf.Length
    requires buf[..] == done + Zeros(buf.Length - |done|)
    modifies buf
    ensures after == (if off == |done| then done + v else done + Zeros(off - |done|) + v)
    ensures |after| == off + |v| && buf[..] == after + Zeros(buf.Length - |after|)
  {
    for i := 0 to |v|
      invariant forall k | 0 <= k < i :: buf[off + k] == v[k]
      invariant forall k | 0 <= k < buf.Length && !(off <= k < off + i) :: buf[k] == old(buf[k])
    {
      buf[off + i] := v[i];
    }
    after := if off == |done| then done + v else done + Zeros(off - |done|) + v;
    assert forall k | 0 <= k < buf.Length :: old(buf[k]) == old(buf[..])[k];
    assert forall k | 0 <= k < |after| :: buf[k] == after[k];
    assert buf[..] == after + Zeros(buf.Length - |after|);
  }

  method NewBuffer(n: nat) returns (buf: array<byte>)
    ensures fresh(buf) && buf.Length == n && buf[..] == [] + Zeros(n)
  {
    buf := new byte[n](_ => 0);
    assert buf[..] == Zeros(n);
  }

  method WriteShared(buf: array<byte>, ghost done: seq<byte>, kind: nat, crc: nat, csize: nat, usize: nat, nlen: nat,
                     off: nat) returns (ghost after: seq<byte>)
    requires kind < U16 && crc < U32 && csize < U32 && usize < U32 && nlen < U16
    requires |done| == off && off + 24 <= buf.Length
    requires buf[..] == done + Zeros(buf.Length - |done|)
    modifies buf
    ensures after == done + SharedFields(kind, crc, csize, usize, nlen)
    ensures buf[..] == after + Zeros(buf.Length - |after|)
  {
    hide LE16, LE32, Zeros;
    ghost var d := WriteField(buf, done, LE16(20), off);
    d := WriteField(buf, d, LE16(0x0800), off + 2);
    d := WriteField(buf, d, LE16(kind), off + 4);
    d := WriteField(buf, d, LE16(0), off + 6);
    d := WriteField(buf, d, LE16(0x21), off + 8);
    d := WriteField(buf, d, LE32(crc), off + 10);
    d := WriteField(buf, d, LE32(csize), off + 14);
    d := WriteField(buf, d, LE32(usize), off + 18);
    after := WriteField(buf, d, LE16(nlen), off + 22);
    Concat9(done, LE16(20), LE16(0x0800), LE16(kind), LE16(0), LE16(0x21), LE32(crc), LE32(csize), LE32(usize),
            LE16(nlen));
  }

  lemma Concat9<T>(z: seq<T>, a: seq<T>, b: seq<T>, c: seq<T>, d: seq<T>, e: seq<T>, f: seq<T>, g: seq<T>, h: seq<T>,
                   i: seq<T>)
    ensures z + a + b + c + d + e + f + g + h + i == z + (a + b + c + d + e + f + g + h + i)
  {
  }

  method WriteLocalHeader(kind: nat, crc: nat, csize: nat, usize: nat, nlen: nat) returns (lh: array<byte>)
    requires kind < U16 && crc < U32 && csize < U32 && usize < U32 && nlen < U16
    ensures lh[..] == LocalHeader(kind, crc, csize, usize, nlen)
  {
    hide LE16, LE32, Zeros, SharedFields;
    lh := NewBuffer(30);
    ghost var d := WriteField(lh, [], LE32(0x0403_4b50), 0);
    d := WriteShared(lh, d, kind, crc, csize, usize, nlen, 4);
    assert [] + LE32(0x0403_4b50) == LE32(0x0403_4b50);
  }

  lemma NoZeros(d: seq<byte>)
    ensures d + Zeros(0) == d
  {
  }

  method WriteCentralHeader(kind: nat, crc: nat, csize: nat, usize: nat, nlen: nat, off: nat)
    returns (ch: array<byte>)
    requires kind < U16 && crc < U32 && csize < U32 && usize < U32 && nlen < U16 && off < U32
    ensures ch[..] == CentralHeader(kind, crc, csize, usize, nlen, off)
  {
    hide LE16, LE32, Zeros, SharedFields;
    ch := NewBuffer(46);
    ghost var d := WriteField(ch, [], LE32(0x0201_4b50), 0);
    assert [] + LE32(0x0201_4b50) == LE32(0x0201_4b50);
    d := WriteField(ch, d, LE16(0x031e), 4);
    d := WriteShared(ch, d, kind, crc, csize, usize, nlen, 6);
    d := WriteField(ch, d, LE32(0x81a4_0000), 38);
    d := WriteField(ch, d, LE32(off), 42);
    NoZeros(d);
  }

  method WriteEndRecord(count: nat, size: nat, off: nat) returns (end: array<byte>)
    requires count < U16 && size < U32 && off < U32
    ensures end[..] == EndRecord(count, size, off)
  {
    hide LE16, LE32, Zeros;
    end := NewBuffer(22);
    ghost var d := WriteField(end, [], LE32(0x0605_4b50), 0);
    assert [] + LE32(0x0605_4b50) == LE32(0x0605_4b50);
    d := WriteField(end, d, LE16(count), 8);
    d := WriteField(end, d, LE16(count), 10);
    d := WriteField(end, d, LE32(size), 12);
    d := WriteField(end, d, LE32(off), 16);
  }

  lemma {:induction false} FitsPrefix(c: Codec, ms: seq<Member>, k: nat)
    requires AllFit(c, ms) && k <= |ms|
    ensures AllFit(c, ms[..k])
  {
    if k < |ms| {
      FitsPrefix(c, ms[..|ms| - 1], k);
      assert ms[..|ms| - 1][..k] == ms[..k];
    } else {
      assert ms[..k] == ms;
    }
  }

  lemma TakeOneMore(c: Codec, ms: seq<Member>, i: nat)
    requires i < |ms|
    ensures var t := ms[..i + 1];
            t != [] && t[..|t| - 1] == ms[..i] && t[|t| - 1] == ms[i]
  {
  }

  /** One turn of the loop: what is pushed to `parts` and to `central`. */
  method WriteMember(c: Codec, table: array<bv32>, m: Member, off: nat) returns (r: Option<(seq<byte>, seq<byte>)>)
    requires IsTable(table)
    ensures r == if MemberFits(c, m) && off < U32 then Some((LocalOf(c, m), CentralOf(c, m, off))) else None
  {
    hide LocalHeader, CentralHeader, CrcNumber;
    var data := m.data;
    var n := c.utf8(m.name);
    var crc := TableCrc(table, data);
    var def := c.deflate(data);
    var kind, body := 0, data;
    if |def| < |data| {
      kind, body := 8, def;
    }
    if |body| >= U32 || |data| >= U32 || |n| >= U16 || off >= U32 {
      return None;
    }
    NumberOf(data, crc);
    var lh := WriteLocalHeader(kind, crc as int, |body|, |data|, |n|);
    var ch := WriteCentralHeader(kind, crc as int, |body|, |data|, |n|, off);
    r := Some((lh[..] + n + body, ch[..] + n));
  }

  /** `zip(files)`: the archive of the sorted members, or a range error when a size does not fit its field. */
  method Zip(c: Codec, files: seq<Member>) returns (r: Option<seq<byte>>)
    ensures r == if ArchiveFits(c, Sort(files)) then Some(Archive(c, Sort(files))) else None
  {
    hide LocalOf, CentralOf, EndRecord, Sort, IsTable, MemberFits;
    var table := BuildTable();
    var ms := Sort(files);
    var parts, central, off := [], [], 0;
    for i := 0 to |ms|
      invariant IsTable(table)
      invariant AllFit(c, ms[..i])
      invariant parts == Locals(c, ms[..i]) && central == Central(c, ms[..i]) && off == Offset(c, ms[..i])
    {
      TakeOneMore(c, ms, i);
      var member := WriteMember(c, table, ms[i], off);
      if member == None {
        if AllFit(c, ms) {
          FitsPrefix(c, ms, i + 1);
        }
        return None;
      }
      parts := parts + member.value.0;
      central := central + member.value.1;
      off := off + LocalSize(c, ms[i]);
    }
    assert ms[..|ms|] == ms;
    if |ms| >= U16 || |central| >= U32 || off >= U32 {
      return None;
    }
    var end := WriteEndRecord(|ms|, |central|, off);
    r := Some(parts + central + end[..]);
  }

  lemma NumberOf(b: seq<byte>, crc: bv32)
    requires crc == Crc(b)
    ensures crc as int == CrcNumber(b) < U32
  {
  }

  // ---------- the reader ----------

  /** `buf.subarray(lo, hi)` and the range of `buf.toString`: both ends are clamped. */
  function Slice(buf: seq<byte>, lo: nat, hi: nat): seq<byte> {
    var h := if hi <= |buf| then hi else |buf|;
    var l := if lo <= h then lo else h;
    buf[l..h]
  }

  /** The highest position at or below `e` that carries the end-of-central-directory signature. */
  function FindEnd(buf: seq<byte>, e: int): (r: Option<nat>)
    requires e + 4 <= |buf|
    ensures r.Some? ==> r.value <= e
    decreases e + 1
  {
    if e < 0 then None
    else if ReadLE32(buf, e) == 0x0605_4b50 then Some(e)
    else FindEnd(buf, e - 1)
  }

  /** One central record at `p`: the name, the contents, and where the next record starts. */
  function ReadRecord(c: Codec, buf: seq<byte>, p: nat): Option<(Name, seq<byte>, nat)> {
    if p + 46 > |buf| || ReadLE32(buf, p) != 0x0201_4b50 then None
    else
      var kind, csize := ReadLE16(buf, p + 10), ReadLE32(buf, p + 20);
      var nl, xl, cl := ReadLE16(buf, p + 28), ReadLE16(buf, p + 30), ReadLE16(buf, p + 32);
      var lo := ReadLE32(buf, p + 42);
      if lo + 30 > |buf| then None
      else
        var start := lo + 30 + ReadLE16(buf, lo + 26) + ReadLE16(buf, lo + 28);
        var raw := Slice(buf, start, start + csize);
        var data := if kind == 8 then c.inflate(raw) else Some(raw);
        if data == None then None
        else Some((c.fromUtf8(Slice(buf, p + 46, p + 46 + nl)), data.value, p + 46 + nl + xl + cl))
  }

  function ReadRecords(c: Codec, buf: seq<byte>, p: nat, n: nat, files: map<Name, seq<byte>>)
    : Option<map<Name, seq<byte>>>
    decreases n
  {
    if n == 0 then Some(files)
    else match ReadRecord(c, buf, p)
      case None => None
      case Some((name, data, next)) => ReadRecords(c, buf, next, n - 1, files[name := data])
  }

  /** What `unzip` returns; `None` stands for a failed assertion, an out-of-range read or an inflate error. */
  function Unzipped(c: Codec, buf: seq<byte>): Option<map<Name, seq<byte>>> {
    if |buf| < 22 then None
    else match FindEnd(buf, |buf| - 22)
      case None => None
      case Some(e) => ReadRecords(c, buf, ReadLE32(buf, e + 16), ReadLE16(buf, e + 10), map[])
  }

  method Unzip(c: Codec, buf: seq<byte>) returns (r: Option<map<Name, seq<byte>>>)
    ensures r == Unzipped(c, buf)
  {
    hide ReadRecord, ReadLE16, ReadLE32;
    var e := |buf| - 22;
    while e >= 0 && ReadLE32(buf, e) != 0x0605_4b50
      invariant -22 <= e <= |buf| - 22
      invariant |buf| >= 22 ==> e >= -1 && FindEnd(buf, |buf| - 22) == FindEnd(buf, e)
    {
      e := e - 1;
    }
    if e < 0 {
      return None;
    }
    var n := ReadLE16(buf, e + 10);
    var p := ReadLE32(buf, e + 16);
    var files: map<Name, seq<byte>> := map[];
    for i := 0 to n
      invariant Unzipped(c, buf) == ReadRecords(c, buf, p, n - i, files)
    {
      var record := ReadRecord(c, buf, p);
      if record == None {
        return None;
      }
      var (name, data, next) := record.value;
      files := files[name := data];
      p := next;
    }
    r := Some(files);
  }
}
