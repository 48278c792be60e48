/** Bytes, optional values and fixed-width integers, shared by every other module. */
module Bytes {
  datatype Option<+T> = None | Some(value: T)

  type byte = x: int | 0 <= x < 256

  const U16: nat := 0x1_0000
  const U32: nat := 0x1_0000_0000

  function Pow2(k: nat): (p: nat)
    ensures p >= 1
  {
    if k == 0 then 1 else 2 * Pow2(k - 1)
  }

  lemma {:induction false} Pow2Add(a: nat, b: nat)
    ensures Pow2(a + b) == Pow2(a) * Pow2(b)
  {
    if a > 0 {
      Pow2Add(a - 1, b);
    }
  }

  lemma Pow2Values()
    ensures Pow2(8) == 0x100 && Pow2(16) == 0x1_0000 && Pow2(24) == 0x100_0000 && Pow2(32) == 0x1_0000_0000
    ensures Pow2(64) == 0x1_0000_0000_0000_0000
  {
    assert Pow2(4) == 16;
    Pow2Add(4, 4);
    Pow2Add(8, 8);
    Pow2Add(16, 8);
    Pow2Add(16, 16);
    Pow2Add(32, 32);
  }

  predicate Distinct<T(==)>(xs: seq<T>) {
    forall i, j | 0 <= i < j < |xs| :: xs[i] != xs[j]
  }

  /** Concatenation of a list of pieces, as `flat()` and `Buffer.concat` do. */
  function Flatten<T>(pieces: seq<seq<T>>): seq<T> {
    if pieces == [] then [] else pieces[0] + Flatten(pieces[1..])
  }

  lemma {:induction false} FlattenAppend<T>(a: seq<seq<T>>, b: seq<seq<T>>)
    ensures Flatten(a + b) == Flatten(a) + Flatten(b)
  {
    if a == [] {
      assert a + b == b;
    } else {
      assert (a + b)[1..] == a[1..] + b;
      FlattenAppend(a[1..], b);
    }
  }

  lemma FlattenPush<T>(a: seq<seq<T>>, x: seq<T>)
    ensures Flatten(a + [x]) == Flatten(a) + x
  {
    FlattenAppend(a, [x]);
  }

  lemma Assoc<T>(a: seq<T>, b: seq<T>, c: seq<T>)
    ensures a + b + c == a + (b + c)
  {
  }

  lemma AfterFirst(first: byte, mid: seq<byte>, rest: seq<byte>)
    ensures var s := [first] + mid + rest; s[0] == first && s[1..] == mid + rest
  {
    assert [first] + mid + rest == [first] + (mid + rest);
  }

  // ---------- big-endian 32-bit length prefixes ----------

  function BE32(n: nat): (b: seq<byte>)
    ensures |b| == 4
  {
    [n / 0x100_0000 % 256, n / 0x1_0000 % 256, n / 0x100 % 256, n % 256]
  }

  function ReadBE32(b: seq<byte>): (n: nat)
    requires |b| >= 4
  {
    0x100_0000 * b[0] as int + 0x1_0000 * b[1] as int + 0x100 * b[2] as int + b[3] as int
  }

  lemma Byte1(n: nat)
    ensures n / 0x100 == n / 0x100 % 0x100 + 0x100 * (n / 0x1_0000)
  {
  }

  lemma Byte2(n: nat)
    ensures n / 0x1_0000 == n / 0x1_0000 % 0x100 + 0x100 * (n / 0x100_0000)
  {
  }

  lemma Byte3(n: nat)
    ensures n / 0x100_0000 == n / 0x100_0000 % 0x100 + 0x100 * (n / 0x1_0000_0000)
  {
  }

  /** The base-256 digits of a number. */
  lemma Digits(n: nat)
    ensures n == n % 0x100 + 0x100 * (n / 0x100)
    ensures n / 0x100 == n / 0x100 % 0x100 + 0x100 * (n / 0x1_0000)
    ensures n / 0x1_0000 == n / 0x1_0000 % 0x100 + 0x100 * (n / 0x100_0000)
    ensures n / 0x100_0000 == n / 0x100_0000 % 0x100 + 0x100 * (n / 0x1_0000_0000)
  {
    Byte1(n);
    Byte2(n);
    Byte3(n);
  }

  lemma BE32Value(n: nat)
    ensures ReadBE32(BE32(n)) == n % 0x1_0000_0000
  {
    Digits(n);
    assert n == n % 0x1_0000_0000 + 0x1_0000_0000 * (n / 0x1_0000_0000);
  }

  lemma BE32RoundTrip(n: nat, rest: seq<byte>)
    ensures ReadBE32(BE32(n) + rest) == n % 0x1_0000_0000
  {
    BE32Value(n);
    var b := BE32(n);
    assert forall k | 0 <= k < 4 :: (b + rest)[k] == b[k];
  }

  // ---------- little-endian fields ----------

  function LE16(n: nat): (b: seq<byte>)
    requires n < 0x1_0000
    ensures |b| == 2
  {
    [n % 256, n / 256]
  }

  function LE32(n: nat): (b: seq<byte>)
    requires n < 0x1_0000_0000
    ensures |b| == 4
  {
    [n % 256, n / 0x100 % 256, n / 0x1_0000 % 256, n / 0x100_0000]
  }

  function ReadLE16(b: seq<byte>, at: nat): (n: nat)
    requires at + 2 <= |b|
    ensures n < 0x1_0000
  {
    b[at] as int + 256 * b[at + 1] as int
  }

  function ReadLE32(b: seq<byte>, at: nat): (n: nat)
    requires at + 4 <= |b|
    ensures n < 0x1_0000_0000
  {
    b[at] as int + 0x100 * b[at + 1] as int + 0x1_0000 * b[at + 2] as int + 0x100_0000 * b[at + 3] as int
  }

  lemma LE16At(b: seq<byte>, at: nat, n: nat)
    requires n < 0x1_0000 && at + 2 <= |b| && b[at..at + 2] == LE16(n)
    ensures ReadLE16(b, at) == n
  {
    assert b[at] == b[at..at + 2][0] && b[at + 1] == b[at..at + 2][1];
  }

  lemma LE32At(b: seq<byte>, at: nat, n: nat)
    requires n < 0x1_0000_0000 && at + 4 <= |b| && b[at..at + 4] == LE32(n)
    ensures ReadLE32(b, at) == n
  {
    var s := b[at..at + 4];
    assert b[at] == s[0] && b[at + 1] == s[1] && b[at + 2] == s[2] && b[at + 3] == s[3];
    Digits(n);
  }
}
