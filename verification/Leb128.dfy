/** The LEB128 encoders of transports/tools/wasmasm.mjs and the decoders of the
    WebAssembly Core Specification 2.0, section 5.2.2. */
module Leb128 {
  import opened Bytes

  // ---------- unsigned ----------

  function Uleb(n: nat): (o: seq<byte>)
    ensures |o| >= 1
  {
    if n < 128 then [n] else [n % 128 + 128] + Uleb(n / 128)
  }

  function ReadUleb(s: seq<byte>): (r: Option<(nat, seq<byte>)>)
    ensures r.Some? ==> |r.value.1| < |s|
  {
    if s == [] then None
    else if s[0] < 128 then Some((s[0], s[1..]))
    else match ReadUleb(s[1..])
      case None => None
      case Some((high, rest)) => Some((s[0] as int - 128 + 128 * high, rest))
  }

  /** The do-while loop: emit the low seven bits, with the continuation bit set while bits remain. */
  method EncodeUnsigned(n: nat) returns (o: seq<byte>)
    ensures o == Uleb(n)
  {
    o := [];
    var m, more := n, true;
    ghost var tail := Uleb(n);
    while more
      invariant Uleb(n) == o + tail
      invariant tail == if more then Uleb(m) else []
      decreases more, m
    {
      var b: int := m % 128;
      var high := m / 128;
      if high != 0 {
        b := b + 128;
      }
      ghost var after := if high != 0 then Uleb(high) else [];
      assert tail == [b] + after;
      Assoc(o, [b], after);
      o, tail := o + [b], after;
      m, more := high, high != 0;
    }
  }

  /** Decoding what was encoded gives the number back and leaves exactly what followed it. */
  lemma {:induction false} UlebRoundTrip(n: nat, rest: seq<byte>)
    ensures ReadUleb(Uleb(n) + rest) == Some((n, rest))
  {
    if n < 128 {
      assert ([n] + rest)[1..] == rest;
    } else {
      UlebRoundTrip(n / 128, rest);
      AfterFirst(n % 128 + 128, Uleb(n / 128), rest);
    }
  }

  lemma UlebPrefixFree(m: nat, n: nat)
    requires Uleb(m) <= Uleb(n)
    ensures m == n
  {
    UlebRoundTrip(m, Uleb(n)[|Uleb(m)|..]);
    UlebRoundTrip(n, []);
    assert Uleb(n) == Uleb(m) + Uleb(n)[|Uleb(m)|..];
    assert Uleb(n) + [] == Uleb(n);
  }

  /** No byte string that decodes to `n` is shorter than the encoder's. */
  lemma {:induction false} UlebMinimal(s: seq<byte>, n: nat, rest: seq<byte>)
    requires ReadUleb(s) == Some((n, rest))
    ensures |Uleb(n)| + |rest| <= |s|
  {
    if s[0] >= 128 {
      var high := ReadUleb(s[1..]).value.0;
      UlebMinimal(s[1..], high, rest);
      if n >= 128 {
        assert n / 128 == high;
      }
    }
  }

  /** An encoding has at most `k` bytes exactly when the number has at most `7 * k` bits. */
  lemma {:induction false} UlebLength(n: nat, k: nat)
    requires k >= 1
    ensures |Uleb(n)| <= k <==> n < Pow2(7 * k)
  {
    assert Pow2(7) == 128;
    Pow2Add(7, 7 * (k - 1));
    if n >= 128 {
      if k >= 2 {
        UlebLength(n / 128, k - 1);
      }
    } else {
      assert Pow2(7 * k) >= 128;
    }
  }

  // ---------- signed ----------

  /** Distance to the fixpoints 0 and -1 of the arithmetic shift by seven. */
  function Magnitude(n: int): nat {
    if n >= 0 then n else -n - 1
  }

  function Sleb(n: int): (o: seq<byte>)
    ensures |o| >= 1
    decreases Magnitude(n)
  {
    if -64 <= n < 64 then [n % 128] else [n % 128 + 128] + Sleb(n / 128)
  }

  function ReadSleb(s: seq<byte>): (r: Option<(int, seq<byte>)>)
    ensures r.Some? ==> |r.value.1| < |s|
  {
    if s == [] then None
    else if s[0] < 64 then Some((s[0], s[1..]))
    else if s[0] < 128 then Some((s[0] as int - 128, s[1..]))
    else match ReadSleb(s[1..])
      case None => None
      case Some((high, rest)) => Some((s[0] as int - 128 + 128 * high, rest))
  }

  /** The endless loop of `sleb`: it stops once the remaining bits only repeat the sign bit. */
  method EncodeSigned(n: int) returns (o: seq<byte>)
    ensures o == Sleb(n)
  {
    o := [];
    var m, done := n, false;
    ghost var tail := Sleb(n);
    while !done
      invariant Sleb(n) == o + tail
      invariant tail == if done then [] else Sleb(m)
      decreases !done, Magnitude(m)
    {
      var b: int := m % 128;
      var high := m / 128; // BigInt >> rounds towards minus infinity, as / does for a positive divisor
      var sign := b >= 64;
      done := (high == 0 && !sign) || (high == -1 && sign);
      assert done <==> -64 <= m < 64;
      if !done {
        b := b + 128;
      }
      ghost var after := if done then [] else Sleb(high);
      assert tail == [b] + after;
      Assoc(o, [b], after);
      o, tail, m := o + [b], after, high;
    }
  }

  lemma {:induction false} SlebRoundTrip(n: int, rest: seq<byte>)
    ensures ReadSleb(Sleb(n) + rest) == Some((n, rest))
    decreases Magnitude(n)
  {
    if -64 <= n < 64 {
      assert ([n % 128] + rest)[1..] == rest;
    } else {
      var high := n / 128;
      SlebRoundTrip(high, rest);
      AfterFirst(n % 128 + 128, Sleb(high), rest);
      assert n % 128 + 128 * high == n;
    }
  }

  lemma SlebPrefixFree(m: int, n: int)
    requires Sleb(m) <= Sleb(n)
    ensures m == n
  {
    SlebRoundTrip(m, Sleb(n)[|Sleb(m)|..]);
    SlebRoundTrip(n, []);
    assert Sleb(n) == Sleb(m) + Sleb(n)[|Sleb(m)|..];
    assert Sleb(n) + [] == Sleb(n);
  }

  lemma {:induction false} SlebMinimal(s: seq<byte>, n: int, rest: seq<byte>)
    requires ReadSleb(s) == Some((n, rest))
    ensures |Sleb(n)| + |rest| <= |s|
  {
    if s[0] >= 128 {
      var high := ReadSleb(s[1..]).value.0;
      SlebMinimal(s[1..], high, rest);
      if !(-64 <= n < 64) {
        assert n / 128 == high;
      }
    }
  }

  /** An encoding has at most `k` bytes exactly when the number fits `7 * k` bits of two's complement. */
  lemma {:induction false} SlebLength(n: int, k: nat)
    requires k >= 1
    ensures |Sleb(n)| <= k <==> 0 - Pow2(7 * k - 1) <= n < Pow2(7 * k - 1)
    decreases k
  {
    assert Pow2(7) == 128 && Pow2(6) == 64;
    if k >= 2 {
      Pow2Add(7, 7 * (k - 1) - 1);
      assert 7 * k - 1 == 7 + (7 * (k - 1) - 1);
      if !(-64 <= n < 64) {
        SlebLength(n / 128, k - 1);
      }
    }
  }
}
