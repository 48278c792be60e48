/** Base64 as the bridge wraps frames (section 4 of RFC 4648, the standard alphabet with padding), with the lenient
    decoder of Go's `encoding/base64`: line breaks are skipped and unused trailing bits are not checked. */
module Base64 {
  import opened Bytes

  function Digit(v: nat): (c: char)
    requires v < 64
  {
    if v < 26 then (v + 65) as char         // A-Z
    else if v < 52 then (v + 71) as char    // a-z
    else if v < 62 then (v - 4) as char     // 0-9
    else if v == 62 then '+' else '/'
  }

  function Value(c: char): (v: Option<nat>)
    ensures v.Some? ==> v.value < 64
  {
    if 'A' <= c <= 'Z' then Some(c as int - 65)
    else if 'a' <= c <= 'z' then Some(c as int - 71)
    else if '0' <= c <= '9' then Some(c as int + 4)
    else if c == '+' then Some(62) else if c == '/' then Some(63) else None
  }

  lemma ValueOfDigit(v: nat)
    requires v < 64
    ensures Value(Digit(v)) == Some(v) && Digit(v) != '=' && Digit(v) != '\n' && Digit(v) != '\r'
  {
  }

  // ---------- encoding ----------

  function Group(a: byte, b: byte, c: byte): (s: string)
    ensures |s| == 4
  {
    var (x, y, z) := (a as int, b as int, c as int);
    [Digit(x / 4), Digit(x % 4 * 16 + y / 16), Digit(y % 16 * 4 + z / 64), Digit(z % 64)]
  }

  function Encode(f: seq<byte>): string {
    if f == [] then ""
    else if |f| == 1 then Group(f[0], 0, 0)[..2] + "=="
    else if |f| == 2 then Group(f[0], f[1], 0)[..3] + "="
    else Group(f[0], f[1], f[2]) + Encode(f[3..])
  }

  // ---------- decoding ----------

  /** The text without line breaks. */
  function Unbroken(s: string): string {
    if s == "" then ""
    else (if s[0] == '\n' || s[0] == '\r' then "" else [s[0]]) + Unbroken(s[1..])
  }

  function Bytes3(p: nat, q: nat, r: nat, s: nat): (b: seq<byte>)
    requires p < 64 && q < 64 && r < 64 && s < 64
    ensures |b| == 3
  {
    [p * 4 + q / 16, q % 16 * 16 + r / 4, r % 4 * 64 + s]
  }

  /** Groups of four digits; only the last may end in one or two padding characters. */
  function DecodeGroups(s: string): Option<seq<byte>> {
    if s == "" then Some([])
    else if |s| < 4 then None
    else
      match (Value(s[0]), Value(s[1]), Value(s[2]), Value(s[3]))
      case (Some(p), Some(q), Some(r), Some(t)) =>
        (match DecodeGroups(s[4..]) case Some(rest) => Some(Bytes3(p, q, r, t) + rest) case None => None)
      case (Some(p), Some(q), Some(r), None) =>
        if |s| == 4 && s[3] == '=' then Some(Bytes3(p, q, r, 0)[..2]) else None
      case (Some(p), Some(q), None, _) =>
        if |s| == 4 && s[2] == '=' && s[3] == '=' then Some(Bytes3(p, q, 0, 0)[..1]) else None
      case _ => None
  }

  function Decode(s: string): Option<seq<byte>> {
    DecodeGroups(Unbroken(s))
  }

  // ---------- round trip ----------

  lemma GroupInverts(a: byte, b: byte, c: byte)
    ensures var s := Group(a, b, c);
      var (x, y, z) := (a as int, b as int, c as int);
      && Value(s[0]) == Some(x / 4) && Value(s[1]) == Some(x % 4 * 16 + y / 16)
      && Value(s[2]) == Some(y % 16 * 4 + z / 64) && Value(s[3]) == Some(z % 64)
      && Bytes3(x / 4, x % 4 * 16 + y / 16, y % 16 * 4 + z / 64, z % 64) == [a, b, c]
  {
    var (x, y, z) := (a as int, b as int, c as int);
    ValueOfDigit(x / 4);
    ValueOfDigit(x % 4 * 16 + y / 16);
    ValueOfDigit(y % 16 * 4 + z / 64);
    ValueOfDigit(z % 64);
    hide Value, Digit;
    assert (x % 4 * 16 + y / 16) / 16 == x % 4 && (x % 4 * 16 + y / 16) % 16 == y / 16;
    assert (y % 16 * 4 + z / 64) / 4 == y % 16 && (y % 16 * 4 + z / 64) % 4 == z / 64;
  }

  lemma DecodeFull(a: byte, b: byte, c: byte, tail: string)
    ensures DecodeGroups(Group(a, b, c) + tail)
         == match DecodeGroups(tail) case Some(rest) => Some([a, b, c] + rest) case None => None
  {
    GroupInverts(a, b, c);
    var s := Group(a, b, c) + tail;
    assert s[4..] == tail;
    hide Value, Digit, Group, Bytes3;
    var g := Group(a, b, c);
    assert s[0] == g[0] && s[1] == g[1] && s[2] == g[2] && s[3] == g[3];
  }

  lemma DecodeOne(p: nat, q: nat, s: string)
    requires p < 64 && q < 64 && s == [Digit(p), Digit(q), '=', '=']
    ensures DecodeGroups(s) == Some(Bytes3(p, q, 0, 0)[..1])
  {
    ValueOfDigit(p);
    ValueOfDigit(q);
    assert Value('=') == None;
    hide Value, Digit, Bytes3;
  }

  lemma DecodeTwo(p: nat, q: nat, r: nat, s: string)
    requires p < 64 && q < 64 && r < 64 && s == [Digit(p), Digit(q), Digit(r), '=']
    ensures DecodeGroups(s) == Some(Bytes3(p, q, r, 0)[..2])
  {
    ValueOfDigit(p);
    ValueOfDigit(q);
    ValueOfDigit(r);
    assert Value('=') == None;
    hide Value, Digit, Bytes3;
  }

  lemma Bytes3Cut(a: byte, b: byte)
    ensures var (x, y) := (a as int, b as int);
      && Bytes3(x / 4, x % 4 * 16, 0, 0)[..1] == [a]
      && Bytes3(x / 4, x % 4 * 16 + y / 16, y % 16 * 4, 0)[..2] == [a, b]
  {
    var (x, y) := (a as int, b as int);
    assert x % 4 * 16 / 16 == x % 4;
    assert (x % 4 * 16 + y / 16) / 16 == x % 4 && (x % 4 * 16 + y / 16) % 16 == y / 16;
    assert y % 16 * 4 / 4 == y % 16;
  }

  lemma GroupCut(a: byte, b: byte)
    ensures var (x, y) := (a as int, b as int);
      && Group(a, 0, 0)[..2] + "==" == [Digit(x / 4), Digit(x % 4 * 16), '=', '=']
      && Group(a, b, 0)[..3] + "=" == [Digit(x / 4), Digit(x % 4 * 16 + y / 16), Digit(y % 16 * 4), '=']
  {
    hide Digit;
  }

  lemma DecodePadded(a: byte, b: byte)
    ensures DecodeGroups(Group(a, 0, 0)[..2] + "==") == Some([a])
    ensures DecodeGroups(Group(a, b, 0)[..3] + "=") == Some([a, b])
  {
    hide DecodeGroups, Digit, Value, Group, Bytes3;
    var (x, y) := (a as int, b as int);
    GroupCut(a, b);
    Bytes3Cut(a, b);
    DecodeOne(x / 4, x % 4 * 16, [Digit(x / 4), Digit(x % 4 * 16), '=', '=']);
    DecodeTwo(x / 4, x % 4 * 16 + y / 16, y % 16 * 4,
              [Digit(x / 4), Digit(x % 4 * 16 + y / 16), Digit(y % 16 * 4), '=']);
  }

  lemma {:induction false} DecodeEncoded(f: seq<byte>)
    ensures DecodeGroups(Encode(f)) == Some(f)
  {
    hide DecodeGroups, Group;
    if f == [] {
      assert DecodeGroups("") == Some([]) by { DecodeNothing(); }
    } else if |f| >= 3 {
      DecodeFull(f[0], f[1], f[2], Encode(f[3..]));
      DecodeEncoded(f[3..]);
      assert f == [f[0], f[1], f[2]] + f[3..];
    } else if |f| == 2 {
      DecodePadded(f[0], f[1]);
      assert f == [f[0], f[1]];
    } else {
      DecodePadded(f[0], 0);
      assert f == [f[0]];
    }
  }

  lemma DecodeNothing()
    ensures DecodeGroups("") == Some([])
  {
  }

  /** The characters of an encoding: ASCII, no line breaks, nothing that needs escaping in JSON. */
  predicate Plain(s: string) {
    forall i | 0 <= i < |s| :: Value(s[i]).Some? || s[i] == '='
  }

  lemma {:induction false} EncodePlain(f: seq<byte>)
    ensures Plain(Encode(f))
  {
    if f != [] {
      GroupInverts(f[0], if |f| >= 2 then f[1] else 0, if |f| >= 3 then f[2] else 0);
      if |f| >= 3 {
        EncodePlain(f[3..]);
      }
      hide Value, Digit;
    }
  }

  lemma {:induction false} PlainUnbroken(s: string)
    requires Plain(s)
    ensures Unbroken(s) == s
  {
    if s != "" {
      assert s[1..] == s[1..];
      PlainUnbroken(s[1..]);
    }
  }

  /** Round trip: every frame, of any length, comes back from its encoding. */
  lemma Base64RoundTrip(f: seq<byte>)
    ensures Decode(Encode(f)) == Some(f)
  {
    EncodePlain(f);
    PlainUnbroken(Encode(f));
    DecodeEncoded(f);
  }

  /** Four characters for every three bytes begun. */
  lemma {:induction false} EncodedLength(f: seq<byte>)
    ensures |Encode(f)| == 4 * ((|f| + 2) / 3)
  {
    if |f| >= 3 {
      EncodedLength(f[3..]);
      assert (|f| + 2) / 3 == (|f| - 3 + 2) / 3 + 1;
    }
    hide Group;
  }

  // ---------- the alphabet and the texts that decode ----------

  /** The alphabet in order (table 1 of RFC 4648): capital letters, small letters, digits, plus and slash. */
  lemma AlphabetIs(v: nat)
    requires v < 64
    ensures Digit(0) == 'A' && Digit(25) == 'Z' && Digit(26) == 'a' && Digit(51) == 'z' && Digit(52) == '0'
    ensures Digit(61) == '9' && Digit(62) == '+' && Digit(63) == '/'
    ensures v + 1 !in [26, 52, 62, 63, 64] ==> Digit(v + 1) as int == Digit(v) as int + 1
  {
  }

  /** Vectors of section 10 of RFC 4648: "f", "fo" and "foo". */
  lemma ShortVectors()
    ensures Encode([0x66]) == "Zg==" && Encode([0x66, 0x6f]) == "Zm8=" && Encode([0x66, 0x6f, 0x6f]) == "Zm9v"
  {
    assert [0x66, 0x6f, 0x6f][3..] == [];
  }

  /** And "foobar". */
  lemma LongVector()
    ensures Encode([0x66, 0x6f, 0x6f, 0x62, 0x61, 0x72]) == "Zm9vYmFy"
  {
    var foobar: seq<byte> := [0x66, 0x6f, 0x6f, 0x62, 0x61, 0x72];
    assert foobar[3..] == [0x62, 0x61, 0x72] && foobar[3..][3..] == [];
  }

  lemma {:induction false} UnbrokenAppend(a: string, b: string)
    ensures Unbroken(a + b) == Unbroken(a) + Unbroken(b)
  {
    if a == "" {
      assert a + b == b;
    } else {
      assert (a + b)[1..] == a[1..] + b;
      UnbrokenAppend(a[1..], b);
    }
  }

  /** A line break anywhere changes nothing. */
  lemma BreakIgnored(a: string, br: char, b: string)
    requires br == '\n' || br == '\r'
    ensures Decode(a + [br] + b) == Decode(a + b)
  {
    UnbrokenAppend(a + [br], b);
    UnbrokenAppend(a, [br]);
    UnbrokenAppend(a, b);
    assert [br][1..] == "" && Unbroken("") == "";
    assert Unbroken([br]) == "" + Unbroken([br][1..]);
    assert Unbroken(a) + "" == Unbroken(a);
  }

  /** Whole groups of four: digits, then at most two padding characters. */
  predicate Padded(s: string, pad: nat) {
    && |s| % 4 == 0 && pad <= 2 && pad <= |s|
    && (forall i | 0 <= i < |s| - pad :: Value(s[i]).Some?)
    && (forall i | |s| - pad <= i < |s| :: s[i] == '=')
  }

  /** The six bits of the character at `i`; padding has none set. */
  function Sextet(s: string, i: nat): (v: nat)
    ensures v < 64
  {
    if i < |s| && Value(s[i]).Some? then Value(s[i]).value else 0
  }

  /** The byte that the bits 8 `k` to 8 `k` + 7 of the text make up. */
  function ByteAt(s: string, k: nat): nat {
    var j := k + k / 3;
    var pair := Sextet(s, j) * 64 + Sextet(s, j + 1);
    if k % 3 == 0 then pair / 16 else if k % 3 == 1 then pair / 4 % 256 else pair % 256
  }

  lemma ByteOfRest(s: string, k: nat)
    requires |s| >= 4 && k >= 3
    ensures ByteAt(s, k) == ByteAt(s[4..], k - 3)
  {
    hide Value;
    assert k / 3 == (k - 3) / 3 + 1 && k % 3 == (k - 3) % 3;
    var j := k + k / 3;
    assert j < |s| ==> s[j] == s[4..][j - 4];
    assert j + 1 < |s| ==> s[j + 1] == s[4..][j + 1 - 4];
  }

  /** A padded text decodes to the bytes its digits spell, three to a group and one less for each padding character;
      bits left over are not looked at. */
  lemma {:induction false} PaddedDecodes(s: string, pad: nat)
    requires Padded(s, pad)
    ensures DecodeGroups(s).Some?
    ensures var f := DecodeGroups(s).value;
            |f| == |s| / 4 * 3 - pad && forall k | 0 <= k < |f| :: f[k] as int == ByteAt(s, k)
    decreases |s|
  {
    if s != "" {
      assert Value('=') == None;
      hide Value, ByteAt, Bytes3;
      var (p, q, r, t) := (Sextet(s, 0), Sextet(s, 1), Sextet(s, 2), Sextet(s, 3));
      FirstBytes(s);
      if |s| == 4 {
        assert s[4..] == "";
      } else {
        PaddedTail(s, pad);
        PaddedDecodes(s[4..], pad);
        var f, rest := DecodeGroups(s).value, DecodeGroups(s[4..]).value;
        forall k | 3 <= k < |f| ensures f[k] as int == ByteAt(s, k) {
          ByteOfRest(s, k);
          assert f[k] == rest[k - 3];
        }
      }
    }
  }

  lemma PaddedTail(s: string, pad: nat)
    requires Padded(s, pad) && |s| > 4
    ensures Padded(s[4..], pad)
    ensures Value(s[0]).Some? && Value(s[1]).Some? && Value(s[2]).Some? && Value(s[3]).Some?
  {
    hide Value;
    var rest := s[4..];
    assert |s| >= 8;
    assert forall i | 0 <= i < |rest| :: rest[i] == s[i + 4];
  }

  lemma FirstBytes(s: string)
    requires |s| >= 4
    ensures var b := Bytes3(Sextet(s, 0), Sextet(s, 1), Sextet(s, 2), Sextet(s, 3));
            b[0] as int == ByteAt(s, 0) && b[1] as int == ByteAt(s, 1) && b[2] as int == ByteAt(s, 2)
  {
    hide Sextet;
    var (p, q, r, t) := (Sextet(s, 0), Sextet(s, 1), Sextet(s, 2), Sextet(s, 3));
    assert (p * 64 + q) / 16 == p * 4 + q / 16;
    assert (q * 64 + r) / 4 == q * 16 + r / 4 && (q * 16 + r / 4) % 256 == q % 16 * 16 + r / 4;
    assert (r * 64 + t) % 256 == r % 4 * 64 + t;
  }

  lemma {:induction false} DecodedIsPadded(s: string) returns (pad: nat)
    requires DecodeGroups(s).Some?
    ensures Padded(s, pad)
    decreases |s|
  {
    hide Value, Bytes3;
    pad := 0;
    if s != "" {
      if Value(s[2]).None? {
        pad := 2;
      } else if Value(s[3]).None? {
        pad := 1;
      } else {
        pad := DecodedIsPadded(s[4..]);
        assert forall i | 4 <= i < |s| :: s[i] == s[4..][i - 4];
      }
    }
  }

  /** The texts that decode are, line breaks aside, exactly the padded ones, and what they decode to. */
  lemma DecodesExactly(s: string)
    ensures Decode(s).Some? <==> exists pad: nat :: Padded(Unbroken(s), pad)
    ensures forall pad: nat | Padded(Unbroken(s), pad) ::
              Decode(s).Some? && |Decode(s).value| == |Unbroken(s)| / 4 * 3 - pad
              && forall k | 0 <= k < |Decode(s).value| :: Decode(s).value[k] as int == ByteAt(Unbroken(s), k)
  {
    hide DecodeGroups, Unbroken, Padded, ByteAt;
    if Decode(s).Some? {
      var pad := DecodedIsPadded(Unbroken(s));
    }
    forall pad: nat | Padded(Unbroken(s), pad)
      ensures Decode(s).Some? && |Decode(s).value| == |Unbroken(s)| / 4 * 3 - pad
              && forall k | 0 <= k < |Decode(s).value| :: Decode(s).value[k] as int == ByteAt(Unbroken(s), k)
    {
      PaddedDecodes(Unbroken(s), pad);
    }
  }
}
