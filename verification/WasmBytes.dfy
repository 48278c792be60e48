/** The bytes themselves, for the encoders and the emitted bodies: the numbers that the WebAssembly Core Specification
    (chapter 5) assigns, written out. */
module WasmBytes {
  import opened Bytes
  import opened Leb128
  import opened WasmSyntax
  import opened WasmQueue
  import opened WasmModule

  /** The examples that are usually given for LEB128. */
  lemma Leb128Examples()
    ensures Uleb(624485) == [0xe5, 0x8e, 0x26] && Sleb(-123456) == [0xc0, 0xbb, 0x78]
    ensures Uleb(127) == [0x7f] && Uleb(128) == [0x80, 0x01] && Sleb(63) == [0x3f] && Sleb(64) == [0xc0, 0x00]
    ensures Sleb(-1) == [0x7f] && Sleb(-64) == [0x40] && Sleb(-65) == [0xbf, 0x7f]
  {
  }

  lemma AckBytes()
    ensures EncodeBody(AckBody()) ==
      [0x04, 0x00, 0x41, 0x00, 0x0b]
  {
  }

  lemma CapsBytes()
    ensures EncodeBody(CapsBody(7)) ==
      [0x09, 0x00, 0x42, 0x87, 0x80, 0x80, 0x80, 0x80, 0x20, 0x0b]
  {
  }

  lemma StartBytes()
    ensures EncodeBody(StartBody()) ==
      [0x08, 0x00, 0x41, 0x01, 0x24, 0x00, 0x41, 0x00, 0x0b]
  {
  }

  lemma StopBytes()
    ensures EncodeBody(StopBody()) ==
      [0x08, 0x00, 0x41, 0x00, 0x24, 0x00, 0x41, 0x00, 0x0b]
  {
  }

  lemma StatusBytes()
    ensures EncodeBody(StatusBody()) ==
      [0x04, 0x00, 0x23, 0x00, 0x0b]
  {
  }

  lemma {:induction false} EncodeAppend(a: Code, c: Code)
    ensures EncodeCode(Append(a, c)) == EncodeCode(a) + EncodeCode(c)
  {
    hide EncodeSimple;
    if a.Then? {
      EncodeAppend(a.tail, c);
      var first := if a.head.If? then [0x04, 0x40] + EncodeCode(a.head.body) + [0x0b] else EncodeSimple(a.head);
      Assoc(first, EncodeCode(a.tail), EncodeCode(c));
    }
  }

  lemma EncodeThree(a: Code, c: Code, d: Code)
    ensures EncodeCode(Append(a, Append(c, d))) == EncodeCode(a) + EncodeCode(c) + EncodeCode(d)
  {
    hide EncodeCode, Append;
    EncodeAppend(a, Append(c, d));
    EncodeAppend(c, d);
    Assoc(EncodeCode(a), EncodeCode(c), EncodeCode(d));
  }

  // ---------- the pieces of the longer bodies ----------

  lemma BytesLoadBump()
    ensures EncodeCode(LoadBump()) ==
      [0x23, 0x02, 0x21, 0x01]
  {
  }

  lemma BytesPastHeap()
    ensures EncodeCode(PastHeap(HEAP_LIMIT)) ==
      [0x20, 0x01, 0x20, 0x00, 0x6a, 0x41, 0x80, 0xfe, 0x00, 0x4b]
  {
  }

  lemma BytesRewind()
    ensures EncodeCode(Rewind()) ==
      [0x04, 0x40, 0x41, 0x80, 0x20, 0x21, 0x01, 0x0b]
  {
  }

  lemma BytesEndPlus7()
    ensures EncodeCode(EndPlus7()) ==
      [0x20, 0x01, 0x20, 0x00, 0x6a, 0x41, 0x07, 0x6a]
  {
  }

  lemma BytesMaskAndStore()
    ensures EncodeCode(MaskAndStore()) ==
      [0x41, 0x78, 0x71, 0x24, 0x02, 0x20, 0x01]
  {
  }

  lemma BytesRefuseStopped()
    ensures EncodeCode(RefuseStopped()) ==
      [0x23, 0x00, 0x45, 0x04, 0x40, 0x41, 0x01, 0x0f, 0x0b]
  {
  }

  lemma BytesNeededBytes()
    ensures EncodeCode(NeededBytes()) ==
      [0x23, 0x01, 0x20, 0x01, 0x6a, 0x41, 0x04, 0x6a]
  {
  }

  lemma BytesRefuseFull()
    ensures EncodeCode(RefuseFull()) ==
      [0x41, 0x80, 0x80, 0x01, 0x4b, 0x04, 0x40, 0x41, 0x03, 0x0f, 0x0b]
  {
  }

  lemma BytesSetDestination()
    ensures EncodeCode(SetDestination(QUEUE)) ==
      [0x41, 0x80, 0x80, 0x01, 0x23, 0x01, 0x6a, 0x21, 0x04]
  {
  }

  lemma BytesStoreShifted24()
    ensures EncodeCode(StoreShifted(24, 0)) ==
      [0x20, 0x04, 0x20, 0x01, 0x41, 0x18, 0x76, 0x3a, 0x00, 0x00]
  {
  }

  lemma BytesStoreShifted16()
    ensures EncodeCode(StoreShifted(16, 1)) ==
      [0x20, 0x04, 0x20, 0x01, 0x41, 0x10, 0x76, 0x3a, 0x00, 0x01]
  {
  }

  lemma BytesStoreShifted8()
    ensures EncodeCode(StoreShifted(8, 2)) ==
      [0x20, 0x04, 0x20, 0x01, 0x41, 0x08, 0x76, 0x3a, 0x00, 0x02]
  {
  }

  lemma BytesStoreLow()
    ensures EncodeCode(StoreLow()) ==
      [0x20, 0x04, 0x20, 0x01, 0x3a, 0x00, 0x03]
  {
  }

  lemma BytesCopyPayload()
    ensures EncodeCode(CopyPayload()) ==
      [0x20, 0x04, 0x41, 0x04, 0x6a, 0x20, 0x00, 0x20, 0x01, 0xfc, 0x0a, 0x00, 0x00]
  {
  }

  lemma BytesSetLength()
    ensures EncodeCode(SetLength()) ==
      [0x24, 0x01]
  {
  }

  lemma BytesConst32()
    ensures EncodeCode(Const32(0)) ==
      [0x41, 0x00]
  {
  }

  lemma BytesCopyOut()
    ensures EncodeCode(CopyOut(OUT, QUEUE)) ==
      [0x41, 0x80, 0x80, 0x02, 0x41, 0x80, 0x80, 0x01, 0x23, 0x01, 0xfc, 0x0a, 0x00, 0x00]
  {
  }

  lemma BytesPackAddress()
    ensures EncodeCode(PackAddress(OUT)) ==
      [0x41, 0x80, 0x80, 0x02, 0xad, 0x42, 0x20, 0x86]
  {
  }

  lemma BytesPackLength()
    ensures EncodeCode(PackLength()) ==
      [0x23, 0x01, 0xad, 0x84]
  {
  }

  lemma BytesResetLength()
    ensures EncodeCode(ResetLength()) ==
      [0x41, 0x00, 0x24, 0x01]
  {
  }

  /** `ntx_alloc`, one row for each line of the source. */
  lemma AllocBytes()
    ensures EncodeBody(AllocBody(HEAP_LIMIT)) ==
      [0x29, 0x01, 0x01, 0x7f]
      + [0x23, 0x02, 0x21, 0x01]
      + [0x20, 0x01, 0x20, 0x00, 0x6a, 0x41, 0x80, 0xfe, 0x00, 0x4b]
      + [0x04, 0x40, 0x41, 0x80, 0x20, 0x21, 0x01, 0x0b]
      + [0x20, 0x01, 0x20, 0x00, 0x6a, 0x41, 0x07, 0x6a]
      + [0x41, 0x78, 0x71, 0x24, 0x02, 0x20, 0x01] + [0x0b]
  {
    hide Append, EncodeCode, EndPlus7, LoadBump, MaskAndStore, PastHeap, Rewind, Uleb, Vec;
    BytesLoadBump();
    BytesPastHeap();
    BytesRewind();
    BytesEndPlus7();
    BytesMaskAndStore();
    EncodeAppend(LoadBump(), Append(PastHeap(HEAP_LIMIT), Append(Rewind(), Append(EndPlus7(), MaskAndStore()))));
    EncodeAppend(PastHeap(HEAP_LIMIT), Append(Rewind(), Append(EndPlus7(), MaskAndStore())));
    EncodeAppend(Rewind(), Append(EndPlus7(), MaskAndStore()));
    EncodeAppend(EndPlus7(), MaskAndStore());
    OneLocal();
  }

  /** `ntx_poll`, one row for each line of the source. */
  lemma PollBytes()
    ensures EncodeBody(PollBody(OUT, QUEUE)) ==
      [0x20, 0x00]
      + [0x41, 0x80, 0x80, 0x02, 0x41, 0x80, 0x80, 0x01, 0x23, 0x01, 0xfc, 0x0a, 0x00, 0x00]
      + [0x41, 0x80, 0x80, 0x02, 0xad, 0x42, 0x20, 0x86]
      + [0x23, 0x01, 0xad, 0x84]
      + [0x41, 0x00, 0x24, 0x01] + [0x0b]
  {
    hide Append, EncodeCode, CopyOut, PackAddress, PackLength, ResetLength;
    BytesCopyOut();
    BytesPackAddress();
    BytesPackLength();
    BytesResetLength();
    EncodeAppend(CopyOut(OUT, QUEUE), Append(PackAddress(OUT), Append(PackLength(), ResetLength())));
    EncodeAppend(PackAddress(OUT), Append(PackLength(), ResetLength()));
    EncodeAppend(PackLength(), ResetLength());
    assert Uleb(32) == [32];
  }

  /** The length prefix of `ntx_send`, one row for each line of the source. */
  lemma StorePrefixBytes()
    ensures EncodeCode(StorePrefix()) ==
      [0x20, 0x04, 0x20, 0x01, 0x41, 0x18, 0x76, 0x3a, 0x00, 0x00]
      + [0x20, 0x04, 0x20, 0x01, 0x41, 0x10, 0x76, 0x3a, 0x00, 0x01]
      + [0x20, 0x04, 0x20, 0x01, 0x41, 0x08, 0x76, 0x3a, 0x00, 0x02]
      + [0x20, 0x04, 0x20, 0x01, 0x3a, 0x00, 0x03]
  {
    hide Append, EncodeCode, StoreLow, StoreShifted;
    BytesStoreShifted24();
    BytesStoreShifted16();
    BytesStoreShifted8();
    BytesStoreLow();
    EncodeThree(StoreShifted(24, 0), StoreShifted(16, 1), Append(StoreShifted(8, 2), StoreLow()));
    EncodeAppend(StoreShifted(8, 2), StoreLow());
  }

  lemma EncodeSix(a: Code, b: Code, c: Code, d: Code, e: Code, f: Code)
    ensures EncodeCode(Append(a, Append(b, Append(c, Append(d, Append(e, f))))))
         == EncodeCode(a) + EncodeCode(b) + EncodeCode(c) + (EncodeCode(d) + EncodeCode(e) + EncodeCode(f))
  {
    hide EncodeCode, Append;
    EncodeThree(d, e, f);
    EncodeThree(a, b, Append(c, Append(d, Append(e, f))));
    EncodeAppend(c, Append(d, Append(e, f)));
  }

  /** The part of `ntx_send` behind its checks. */
  lemma EnqueueBytes()
    ensures EncodeCode(Enqueue(QUEUE)) ==
      [0x41, 0x80, 0x80, 0x01, 0x23, 0x01, 0x6a, 0x21, 0x04]
      + EncodeCode(StorePrefix())
      + [0x20, 0x04, 0x41, 0x04, 0x6a, 0x20, 0x00, 0x20, 0x01, 0xfc, 0x0a, 0x00, 0x00]
      + ([0x23, 0x01, 0x20, 0x01, 0x6a, 0x41, 0x04, 0x6a]
         + [0x24, 0x01]
         + [0x41, 0x00])
  {
    hide Append, EncodeCode, Const32, CopyPayload, NeededBytes, SetDestination, SetLength, StorePrefix;
    BytesSetDestination();
    BytesCopyPayload();
    BytesNeededBytes();
    BytesSetLength();
    BytesConst32();
    EncodeSix(SetDestination(QUEUE), StorePrefix(), CopyPayload(), NeededBytes(), SetLength(), Const32(0));
  }

  /** `ntx_send`: its checks, one row for each line of the source, and the rest. */
  lemma SendBytes()
    ensures EncodeBody(SendBody(QUEUE)) ==
      [0x67, 0x01, 0x01, 0x7f]
      + ([0x23, 0x00, 0x45, 0x04, 0x40, 0x41, 0x01, 0x0f, 0x0b]
         + [0x23, 0x01, 0x20, 0x01, 0x6a, 0x41, 0x04, 0x6a]
         + ([0x41, 0x80, 0x80, 0x01, 0x4b, 0x04, 0x40, 0x41, 0x03, 0x0f, 0x0b]
            + EncodeCode(Enqueue(QUEUE))))
      + [0x0b]
  {
    hide Append, EncodeCode, NeededBytes, RefuseFull, RefuseStopped, Enqueue, Uleb, Vec;
    BytesRefuseStopped();
    BytesNeededBytes();
    BytesRefuseFull();
    EnqueueLength();
    OneLocal();
    EncodeThree(RefuseStopped(), NeededBytes(), Append(RefuseFull(), Enqueue(QUEUE)));
    EncodeAppend(RefuseFull(), Enqueue(QUEUE));
  }

  lemma EnqueueLength()
    ensures |EncodeCode(Enqueue(QUEUE))| == 71
  {
    hide EncodeCode, Enqueue, StorePrefix;
    StorePrefixBytes();
    EnqueueBytes();
  }

  lemma OneLocal()
    ensures Uleb(41) == [41] && Uleb(103) == [103] && Vec([[1, 0x7f]]) == [1, 1, 0x7f]
  {
  }

  // ---------- the first sections ----------

  lemma TypeBytes()
    ensures EncodeFuncType(Types()[0]) == [0x60, 0x00, 0x01, 0x7f]
    ensures EncodeFuncType(Types()[1]) == [0x60, 0x02, 0x7f, 0x7f, 0x01, 0x7f]
    ensures EncodeFuncType(Types()[2]) == [0x60, 0x00, 0x01, 0x7e]
  {
  }

  lemma FlattenThree(a: seq<byte>, b: seq<byte>, c: seq<byte>)
    ensures Flatten([a, b, c]) == a + b + c
  {
    assert [a, b, c][1..] == [b, c] && [b, c][1..] == [c];
    assert Flatten([b, c]) == b + Flatten([c]);
    assert Flatten([c]) == c + Flatten([c][1..]);
  }

  lemma MoreTypeBytes()
    ensures EncodeFuncType(Types()[5]) == [0x60, 0x01, 0x7f, 0x01, 0x7f]
    ensures EncodeFuncType(Types()[6]) == [0x60, 0x03, 0x7f, 0x7f, 0x7f, 0x01, 0x7e]
  {
    assert Types()[5] == FuncType([I32], [I32]) && Types()[6] == FuncType([I32, I32, I32], [I64]);
    assert Each(EncodeType, [I32]) == [[0x7f]] && Each(EncodeType, [I64]) == [[0x7e]];
    var one: seq<byte> := [0x7f];
    assert Each(EncodeType, [I32, I32, I32]) == [one, one, one];
    FlattenThree(one, one, one);
  }

  lemma MemoryBytes()
    ensures Sec(5, Vec([[0x00, 2]])) == [0x05, 0x03, 0x01, 0x00, 0x02]
  {
    var item: seq<byte> := [0x00, 2];
    assert Flatten([item]) == item + Flatten([]) == item;
    assert Uleb(1) == [1] && Uleb(3) == [3];
    assert Vec([item]) == [1] + item == [1, 0, 2];
  }

  lemma SectionBytes(caps: seq<byte>)
    ensures var m := QueueModule(caps);
            && m.memoryMin == 2
            && EncodeGlobal(m.globals[2]) == [0x7f, 0x01, 0x41, 0x80, 0x20, 0x0b]
            && EncodeExport(m.exports[10]) == [0x06, 0x6d, 0x65, 0x6d, 0x6f, 0x72, 0x79, 0x02, 0x00]
  {
    hide Fns, Types;
    var name := Ascii("memory");
    assert name == [0x6d, 0x65, 0x6d, 0x6f, 0x72, 0x79] && Uleb(0) == [0];
    NameBytes(name);
    assert QueueModule(caps).exports[10] == Export(name, 2, 0);
    assert [0x06] + name + [0x02] + [0x00] == [0x06, 0x6d, 0x65, 0x6d, 0x6f, 0x72, 0x79, 0x02, 0x00];
  }

  lemma NameBytes(name: seq<byte>)
    requires |name| == 6
    ensures Str(name) == [0x06] + name
  {
  }
}
