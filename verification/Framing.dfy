/** Length-prefixed frames as the queue module and the bridge write them, and the host-side decoder of
    transports/tools/verify-wasm.mjs. */
module Framing {
  import opened Bytes

  function Frames(fs: seq<seq<byte>>): seq<byte> {
    if fs == [] then [] else BE32(|fs[0]|) + fs[0] + Frames(fs[1..])
  }

  lemma {:induction false} FramesAppend(a: seq<seq<byte>>, b: seq<seq<byte>>)
    ensures Frames(a + b) == Frames(a) + Frames(b)
  {
    if a == [] {
      assert a + b == b;
    } else {
      assert (a + b)[1..] == a[1..] + b;
      FramesAppend(a[1..], b);
      Assoc(BE32(|a[0]|) + a[0], Frames(a[1..]), Frames(b));
    }
  }

  lemma FramesPush(fs: seq<seq<byte>>, f: seq<byte>)
    ensures Frames(fs + [f]) == Frames(fs) + BE32(|f|) + f
  {
    FramesAppend(fs, [f]);
    assert Frames([f]) == BE32(|f|) + f + Frames([]);
    Assoc(Frames(fs), BE32(|f|), f);
  }

  const MAX_FRAME: nat := 40960

  /** What `frames` returns for a blob, and whether it reported no defect. */
  datatype Decoded = Decoded(frames: seq<seq<byte>>, ok: bool)

  function DecodeFrames(b: seq<byte>): Decoded
    decreases |b|
  {
    if b == [] then Decoded([], true)
    else if |b| < 4 then Decoded([], false)
    else
      var n := ReadBE32(b);
      if 0 < n <= MAX_FRAME && 4 + n <= |b|
      then var rest := DecodeFrames(b[4 + n..]); Decoded([b[4..4 + n]] + rest.frames, rest.ok)
      else Decoded([], false)
  }

  lemma DecodeFrom(b: seq<byte>, i: nat)
    requires i < |b|
    ensures i + 4 > |b| ==> DecodeFrames(b[i..]) == Decoded([], false)
    ensures i + 4 <= |b| ==>
      var n := ReadBE32(b[i..]);
      DecodeFrames(b[i..])
      == if 0 < n <= MAX_FRAME && i + 4 + n <= |b|
         then var rest := DecodeFrames(b[i + 4 + n..]); Decoded([b[i + 4..i + 4 + n]] + rest.frames, rest.ok)
         else Decoded([], false)
  {
    hide ReadBE32;
    if i + 4 <= |b| {
      var n := ReadBE32(b[i..]);
      if i + 4 + n <= |b| {
        assert b[i..][4..4 + n] == b[i + 4..i + 4 + n] && b[i..][4 + n..] == b[i + 4 + n..];
      }
    }
  }

  /** What is left to decode at `i`, in front of it what has been. */
  predicate DecodedUpTo(b: seq<byte>, o: seq<seq<byte>>, i: nat)
    requires i <= |b|
  {
    DecodeFrames(b) == Decoded(o + DecodeFrames(b[i..]).frames, DecodeFrames(b[i..]).ok)
  }

  lemma DecodedOneMore(b: seq<byte>, o: seq<seq<byte>>, i: nat, n: nat)
    requires i + 4 + n <= |b| && n == ReadBE32(b[i..]) && 0 < n <= MAX_FRAME && DecodedUpTo(b, o, i)
    ensures DecodedUpTo(b, o + [b[i + 4..i + 4 + n]], i + 4 + n)
  {
    hide DecodeFrames, ReadBE32;
    DecodeFrom(b, i);
    Assoc(o, [b[i + 4..i + 4 + n]], DecodeFrames(b[i + 4 + n..]).frames);
  }

  lemma DecodedToEnd(b: seq<byte>, o: seq<seq<byte>>, i: nat)
    requires i <= |b| && DecodedUpTo(b, o, i)
    ensures DecodeFrames(b[i..]) == Decoded([], false) ==> DecodeFrames(b) == Decoded(o, false)
    ensures i == |b| ==> DecodeFrames(b) == Decoded(o, true)
  {
    assert o + [] == o;
    assert i == |b| ==> b[i..] == [];
  }

  /** The host's loop over a polled blob. */
  method HostFrames(b: seq<byte>) returns (r: Decoded)
    ensures r == DecodeFrames(b)
  {
    hide DecodedUpTo, DecodeFrames, ReadBE32;
    var o, i := [], 0;
    assert DecodedUpTo(b, o, 0) by { NothingDecoded(b); }
    while i < |b|
      invariant i <= |b| && DecodedUpTo(b, o, i)
      decreases |b| - i
    {
      DecodeFrom(b, i);
      DecodedToEnd(b, o, i);
      if i + 4 > |b| {
        return Decoded(o, false);
      }
      var n := ReadBE32(b[i..]);
      i := i + 4;
      if !(n > 0 && n <= MAX_FRAME && i + n <= |b|) {
        return Decoded(o, false);
      }
      DecodedOneMore(b, o, i - 4, n);
      o := o + [b[i..i + n]];
      i := i + n;
    }
    DecodedToEnd(b, o, i);
    return Decoded(o, true);
  }

  lemma NothingDecoded(b: seq<byte>)
    ensures DecodedUpTo(b, [], 0)
  {
    assert b[0..] == b;
    assert [] + DecodeFrames(b).frames == DecodeFrames(b).frames;
  }

  /** The frames in front of the first empty one. */
  function BeforeEmpty(fs: seq<seq<byte>>): seq<seq<byte>> {
    if fs == [] || fs[0] == [] then [] else [fs[0]] + BeforeEmpty(fs[1..])
  }

  predicate NoneEmpty(fs: seq<seq<byte>>) {
    forall k | 0 <= k < |fs| :: fs[k] != []
  }

  lemma NoneEmptyStep(fs: seq<seq<byte>>)
    requires fs != []
    ensures NoneEmpty(fs) <==> fs[0] != [] && NoneEmpty(fs[1..])
  {
    if fs[0] != [] && NoneEmpty(fs[1..]) {
      forall k | 0 <= k < |fs| ensures fs[k] != [] {
        assert k > 0 ==> fs[k] == fs[1..][k - 1];
      }
    }
  }

  lemma DecodeHead(b: seq<byte>, f: seq<byte>, tail: seq<byte>)
    requires |b| >= 4 && ReadBE32(b) == |f| <= MAX_FRAME && b[4..] == f + tail
    ensures DecodeFrames(b)
         == if f == [] then Decoded([], false)
            else Decoded([f] + DecodeFrames(tail).frames, DecodeFrames(tail).ok)
  {
    hide ReadBE32;
    assert b[4..4 + |f|] == b[4..][..|f|] == f;
    assert b[4 + |f|..] == b[4..][|f|..] == tail;
  }

  lemma DecodeStep(f: seq<byte>, tail: seq<byte>)
    requires |f| <= MAX_FRAME
    ensures DecodeFrames(BE32(|f|) + f + tail)
         == if f == [] then Decoded([], false)
            else Decoded([f] + DecodeFrames(tail).frames, DecodeFrames(tail).ok)
  {
    hide BE32, ReadBE32, DecodeFrames;
    Assoc(BE32(|f|), f, tail);
    BE32RoundTrip(|f|, f + tail);
    var b := BE32(|f|) + (f + tail);
    assert b[4..] == f + tail;
    DecodeHead(b, f, tail);
  }

  /** The decoder inverts the framing up to the first empty frame; it reports success exactly when there is none. */
  lemma {:induction false} DecodeExact(fs: seq<seq<byte>>)
    requires forall k | 0 <= k < |fs| :: |fs[k]| <= MAX_FRAME
    ensures DecodeFrames(Frames(fs)) == Decoded(BeforeEmpty(fs), NoneEmpty(fs))
  {
    if fs != [] {
      hide DecodeFrames, BE32;
      DecodeStep(fs[0], Frames(fs[1..]));
      NoneEmptyStep(fs);
      DecodeExact(fs[1..]);
    } else {
      assert Frames(fs) == [];
    }
  }

  lemma {:induction false} NoEmptyNoLoss(fs: seq<seq<byte>>)
    ensures NoneEmpty(fs) <==> BeforeEmpty(fs) == fs
  {
    if fs != [] {
      NoEmptyNoLoss(fs[1..]);
      NoneEmptyStep(fs);
      if BeforeEmpty(fs) == fs {
        assert BeforeEmpty(fs)[1..] == BeforeEmpty(fs[1..]);
      }
    }
  }

  // ---------- frames behind an empty one ----------

  function NonEmpty(fs: seq<seq<byte>>): seq<seq<byte>> {
    if fs == [] then [] else (if fs[0] == [] then [] else [fs[0]]) + NonEmpty(fs[1..])
  }

  /** Nothing but empty frames behind an empty one. */
  predicate EmptyLast(fs: seq<seq<byte>>) {
    forall i, j | 0 <= i < j < |fs| :: fs[i] == [] ==> fs[j] == []
  }

  lemma {:induction false} NonEmptyAppend(a: seq<seq<byte>>, b: seq<seq<byte>>)
    ensures NonEmpty(a + b) == NonEmpty(a) + NonEmpty(b)
  {
    if a == [] {
      assert a + b == b;
    } else {
      assert (a + b)[1..] == a[1..] + b;
      NonEmptyAppend(a[1..], b);
    }
  }

  lemma {:induction false} NonEmptyNone(fs: seq<seq<byte>>)
    ensures NonEmpty(fs) == [] <==> forall k | 0 <= k < |fs| :: fs[k] == []
  {
    if fs != [] {
      NonEmptyNone(fs[1..]);
      assert forall k | 1 <= k < |fs| :: fs[k] == fs[1..][k - 1];
      assert fs[0] != [] ==> ([fs[0]] + NonEmpty(fs[1..]))[0] == fs[0];
    }
  }

  /** The frames before the first empty one are all the non-empty frames if and only if the empty ones come last. */
  lemma {:induction false} BeforeEmptyExact(fs: seq<seq<byte>>)
    ensures |BeforeEmpty(fs)| <= |NonEmpty(fs)|
    ensures |BeforeEmpty(fs)| == |NonEmpty(fs)| <==> EmptyLast(fs)
    ensures BeforeEmpty(fs) == NonEmpty(fs) <==> EmptyLast(fs)
  {
    if fs != [] {
      BeforeEmptyExact(fs[1..]);
      NonEmptyNone(fs);
      assert forall k | 1 <= k < |fs| :: fs[k] == fs[1..][k - 1];
      if fs[0] != [] {
        EmptyLastCons(fs);
      } else {
        assert EmptyLast(fs) <==> forall k | 0 <= k < |fs| :: fs[k] == [];
      }
    }
  }

  lemma EmptyLastCons(fs: seq<seq<byte>>)
    requires fs != [] && fs[0] != []
    ensures EmptyLast(fs) <==> EmptyLast(fs[1..])
  {
    if EmptyLast(fs) {
      forall i, j | 0 <= i < j < |fs| - 1 && fs[1..][i] == [] ensures fs[1..][j] == [] {
        assert fs[i + 1] == [] && fs[j + 1] == fs[1..][j];
      }
    }
    if EmptyLast(fs[1..]) {
      forall i, j | 0 <= i < j < |fs| && fs[i] == [] ensures fs[j] == [] {
        assert fs[1..][i - 1] == [] && fs[1..][j - 1] == fs[j];
      }
    }
  }

  lemma EmptyLastPush(fs: seq<seq<byte>>, f: seq<byte>)
    ensures EmptyLast(fs + [f]) <==> EmptyLast(fs) && (f == [] || NoneEmpty(fs))
    ensures NoneEmpty(fs + [f]) <==> NoneEmpty(fs) && f != []
  {
    var all := fs + [f];
    assert all[|fs|] == f && forall k | 0 <= k < |fs| :: all[k] == fs[k];
    if EmptyLast(all) && f != [] {
      forall k | 0 <= k < |fs| ensures fs[k] != [] {
        assert all[k] == fs[k];
      }
    }
  }

  // ---------- any blob ----------

  /** The number that bytes stand for, most significant first. */
  function BigEndian(b: seq<byte>): nat {
    if b == [] then 0 else 256 * BigEndian(b[..|b| - 1]) + b[|b| - 1] as int
  }

  lemma ReadIsBigEndian(b: seq<byte>)
    requires |b| == 4
    ensures BigEndian(b) == ReadBE32(b)
  {
    var b3, b2, b1 := b[..3], b[..2], b[..1];
    assert b3[..2] == b2 && b2[..1] == b1 && b1[..0] == [];
    assert BigEndian(b1) == b[0] as int && BigEndian(b2) == 256 * BigEndian(b1) + b[1] as int;
    assert BigEndian(b3) == 256 * BigEndian(b2) + b[2] as int;
  }

  /** A length prefix is the length in network order. */
  lemma PrefixIs(n: nat)
    requires n < U32
    ensures BigEndian(BE32(n)) == n
  {
    hide BE32, ReadBE32, BigEndian;
    ReadIsBigEndian(BE32(n));
    BE32Value(n);
  }

  predicate ValidFrames(fs: seq<seq<byte>>) {
    forall k | 0 <= k < |fs| :: 0 < |fs[k]| <= 40960
  }

  lemma BE32OfRead(b: seq<byte>)
    requires |b| >= 4
    ensures BE32(ReadBE32(b)) == b[..4]
  {
    var (x, y, z, w) := (b[0] as int, b[1] as int, b[2] as int, b[3] as int);
    var n := ReadBE32(b);
    assert n / 0x100_0000 == x && n / 0x1_0000 == 0x100 * x + y && n / 0x100 == 0x1_0000 * x + 0x100 * y + z;
  }

  /** For any blob at all: what the decoder yields are frames of permitted lengths whose framing the blob begins with,
      and it is the whole blob exactly when the decoder reports no defect. */
  lemma {:induction false} DecodeSound(b: seq<byte>)
    ensures var r := DecodeFrames(b);
            && ValidFrames(r.frames) && Frames(r.frames) <= b && (r.ok <==> Frames(r.frames) == b)
    decreases |b|
  {
    hide BE32, ReadBE32;
    if |b| >= 4 {
      var n := ReadBE32(b);
      if 0 < n <= MAX_FRAME && 4 + n <= |b| {
        var rest := DecodeFrames(b[4 + n..]);
        DecodeSound(b[4 + n..]);
        BE32OfRead(b);
        assert b == b[..4] + b[4..4 + n] + b[4 + n..];
        assert ([b[4..4 + n]] + rest.frames)[1..] == rest.frames;
        assert Frames([b[4..4 + n]] + rest.frames) == b[..4] + b[4..4 + n] + Frames(rest.frames);
        assert ValidFrames([b[4..4 + n]] + rest.frames);
      }
    }
  }

  /** So a blob is accepted if and only if it is the framing of some frames of permitted lengths, and then it is those
      that come out. */
  lemma AcceptedExactly(b: seq<byte>)
    ensures DecodeFrames(b).ok <==> exists fs :: ValidFrames(fs) && Frames(fs) == b
    ensures forall fs | ValidFrames(fs) && Frames(fs) == b :: DecodeFrames(b).frames == fs
  {
    hide DecodeFrames;
    DecodeSound(b);
    forall fs | ValidFrames(fs) && Frames(fs) == b ensures DecodeFrames(b) == Decoded(fs, true) {
      DecodeExact(fs);
      NoEmptyNoLoss(fs);
    }
  }
}
