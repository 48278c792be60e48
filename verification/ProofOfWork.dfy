/** Leading zero bits and the solvers: scripts/solve.py, shard/worker.js and router/router.js share the check. */
module ProofOfWork {
  import opened Bytes

  /** Zero bits above the highest set bit of a non-zero byte. */
  function ByteZeros(x: nat): (z: nat)
    requires 0 < x < 256
    ensures z <= 7
  {
    if x >= 128 then 0 else if x >= 64 then 1 else if x >= 32 then 2 else if x >= 16 then 3 else if x >= 8 then 4
    else if x >= 4 then 5 else if x >= 2 then 6 else 7
  }

  function LeadingZeros(d: seq<byte>): nat {
    if d == [] then 0 else if d[0] == 0 then 8 + LeadingZeros(d[1..]) else ByteZeros(d[0])
  }

  /** The digest read as a big-endian number. */
  function BigEndian(d: seq<byte>): nat {
    if d == [] then 0 else d[0] * Pow2(8 * (|d| - 1)) + BigEndian(d[1..])
  }

  method LeadingZeroBits(bytes: seq<byte>) returns (bits: nat)
    ensures bits == LeadingZeros(bytes)
  {
    bits := 0;
    for i := 0 to |bytes|
      invariant LeadingZeros(bytes) == bits + LeadingZeros(bytes[i..])
    {
      var b := bytes[i];
      if b == 0 {
        bits := bits + 8;
        continue;
      }
      var x: int := b;
      while x / 128 % 2 == 0
        invariant 0 < x < 256
        invariant LeadingZeros(bytes) == bits + ByteZeros(x)
        decreases 256 - x
      {
        bits := bits + 1;
        x := x * 2;
      }
      return;
    }
    assert bytes[|bytes|..] == [];
  }

  lemma {:induction false} BigEndianBound(d: seq<byte>)
    ensures BigEndian(d) < Pow2(8 * |d|)
  {
    if d != [] {
      var p := Pow2(8 * (|d| - 1));
      BigEndianBound(d[1..]);
      Pow2Add(8, 8 * (|d| - 1));
      Pow2Values();
      hide Pow2;
      assert d[0] as int * p + p == (d[0] as int + 1) * p;
      Scale(d[0] as int + 1, 256, p);
    }
  }

  lemma Scale(a: nat, b: nat, p: nat)
    requires a <= b
    ensures a * p <= b * p
  {
  }

  lemma ByteZerosExact(x: nat, k: nat)
    requires 0 < x < 256 && k <= 8
    ensures ByteZeros(x) >= k <==> x < Pow2(8 - k)
  {
    assert Pow2(0) == 1 && Pow2(1) == 2 && Pow2(2) == 4 && Pow2(3) == 8 && Pow2(4) == 16;
    assert Pow2(5) == 32 && Pow2(6) == 64 && Pow2(7) == 128 && Pow2(8) == 256;
  }

  lemma {:induction false} Pow2Monotone(a: nat, b: nat)
    requires a <= b
    ensures Pow2(a) <= Pow2(b)
    decreases b
  {
    if a < b {
      Pow2Monotone(a, b - 1);
    }
  }

  lemma FirstByteDecides(x: nat, low: nat, p: nat, k: nat)
    requires 0 < x < 256 && low < p && k <= 8
    ensures x * p + low < Pow2(8 - k) * p <==> x < Pow2(8 - k)
  {
    hide Pow2;
    var q := Pow2(8 - k);
    if x < q {
      Scale(x + 1, q, p);
      assert (x + 1) * p == x * p + p;
    } else {
      Scale(q, x, p);
    }
  }

  /** A zero byte in front: the rest decides. */
  lemma ZeroByteDecides(rest: nat, big: nat, m: nat, k: nat)
    requires big < Pow2(m) && k <= 8 + m
    requires k > 8 ==> (rest >= k - 8 <==> big < Pow2(m - (k - 8)))
    ensures 8 + rest >= k <==> big < Pow2(8 + m - k)
  {
    if k <= 8 {
      Pow2Monotone(m, 8 + m - k);
    }
  }

  /** A non-zero byte in front decides. */
  lemma OtherByteDecides(x: nat, big: nat, m: nat, k: nat)
    requires 0 < x < 256 && big < Pow2(m) && k <= 8 + m
    ensures ByteZeros(x) >= k <==> x * Pow2(m) + big < Pow2(8 + m - k)
  {
    hide Pow2;
    if k <= 8 {
      Pow2Add(8 - k, m);
      ByteZerosExact(x, k);
      FirstByteDecides(x, big, Pow2(m), k);
    } else {
      Pow2Monotone(8 + m - k, m);
      Scale(1, x, Pow2(m));
    }
  }

  /** A digest has at least `k` leading zero bits exactly when, read as a big-endian number, it is below 2^(8n - k). */
  lemma {:induction false} LeadingZerosExact(d: seq<byte>, k: nat)
    requires k <= 8 * |d|
    ensures LeadingZeros(d) >= k <==> BigEndian(d) < Pow2(8 * |d| - k)
  {
    if d == [] {
      assert Pow2(0) == 1;
    } else {
      hide Pow2, ByteZeros;
      var m := 8 * (|d| - 1);
      BigEndianBound(d[1..]);
      assert 8 * |d| == 8 + m;
      if d[0] == 0 {
        if k > 8 {
          LeadingZerosExact(d[1..], k - 8);
        }
        ZeroByteDecides(LeadingZeros(d[1..]), BigEndian(d[1..]), m, k);
      } else {
        OtherByteDecides(d[0], BigEndian(d[1..]), m, k);
      }
    }
  }

  // ---------- the solvers ----------

  /** `digest(i)` is the hash of the nonce, the shard URL and the decimal form of `i`. */
  predicate Solves(digest: nat -> seq<byte>, difficulty: int, i: nat) {
    LeadingZeros(digest(i)) >= difficulty
  }

  /** The least solution, if there is one below the attempt budget (shard/worker.js gives up after it). */
  method SolveWithin(digest: nat -> seq<byte>, difficulty: int, budget: nat) returns (r: Option<nat>)
    ensures r.Some? ==> r.value < budget && Solves(digest, difficulty, r.value)
                        && forall j | 0 <= j < r.value :: !Solves(digest, difficulty, j)
    ensures r.None? ==> forall j | 0 <= j < budget :: !Solves(digest, difficulty, j)
  {
    for i := 0 to budget
      invariant forall j | 0 <= j < i :: !Solves(digest, difficulty, j)
    {
      var bits := LeadingZeroBits(digest(i));
      if bits >= difficulty {
        return Some(i);
      }
    }
    return None;
  }

  /** The unbounded search of scripts/solve.py; `some` witnesses that it stops. */
  method Solve(digest: nat -> seq<byte>, difficulty: int, ghost some: nat) returns (r: nat)
    requires Solves(digest, difficulty, some)
    ensures Solves(digest, difficulty, r) && forall j | 0 <= j < r :: !Solves(digest, difficulty, j)
  {
    var i := 0;
    while true
      invariant i <= some && forall j | 0 <= j < i :: !Solves(digest, difficulty, j)
      decreases some - i
    {
      var bits := LeadingZeroBits(digest(i));
      if bits >= difficulty {
        return i;
      }
      i := i + 1;
    }
  }
}
