/** `buildQueueModule` of transports/tools/wasmasm.mjs: the module it means, the bytes it assembles, and what a host
    gets when it instantiates them. */
module WasmModule {
  import opened Bytes
  import opened Leb128
  import opened WasmSyntax
  import opened WasmRoundTrip
  import opened WasmMachine
  import opened WasmQueue

  const CAPS_AT: nat := 0x100
  const MAX_CAPS: nat := 32

  function Ascii(s: string): (b: seq<byte>)
    ensures |b| == |s|
  {
    seq(|s|, i requires 0 <= i < |s| => s[i] as int % 128)
  }

  function Types(): (t: seq<FuncType>)
    ensures |t| == 7
  {
    [FuncType([], [I32]), FuncType([I32, I32], [I32]), FuncType([], [I64]), FuncType([I32, I32, I32, I32], [I32]),
     FuncType([I32, I32, I32, I32, I32, I32], [I32]), FuncType([I32], [I32]), FuncType([I32, I32, I32], [I64])]
  }

  /** One row of the source's `fns` table. */
  datatype Fn = Fn(typeIdx: nat, name: seq<byte>, body: Body)

  function Fns(capsLength: nat): (fns: seq<Fn>)
    ensures |fns| == 10
  {
    [Fn(1, Ascii("ntx_init"), AckBody()),
     Fn(2, Ascii("ntx_caps"), CapsBody(capsLength)),
     Fn(0, Ascii("ntx_start"), StartBody()),
     Fn(0, Ascii("ntx_stop"), StopBody()),
     Fn(0, Ascii("ntx_status"), StatusBody()),
     Fn(5, Ascii("ntx_alloc"), AllocBody(HEAP_LIMIT)),
     Fn(3, Ascii("ntx_send"), SendBody(QUEUE)),
     Fn(4, Ascii("ntx_attach"), AckBody()),
     Fn(5, Ascii("ntx_detach"), AckBody()),
     Fn(6, Ascii("ntx_poll"), PollBody(OUT, QUEUE))]
  }

  function Exports(fns: seq<Fn>): (r: seq<Export>)
    ensures |r| == |fns| + 1
  {
    seq(|fns|, i requires 0 <= i < |fns| => Export(fns[i].name, 0x00, i)) + [Export(Ascii("memory"), 0x02, 0)]
  }

  /** The module with the given capability string. */
  function QueueModule(caps: seq<byte>): Module {
    var fns := Fns(|caps|);
    Module(Types(),
           seq(|fns|, i requires 0 <= i < |fns| => fns[i].typeIdx),
           2,
           [Const32(0), Const32(0), Const32(HEAP)],
           Exports(fns),
           seq(|fns|, i requires 0 <= i < |fns| => fns[i].body),
           [Data(Const32(CAPS_AT), caps)])
  }

  // ---------- the module is encodable ----------

  function Count(c: Code): nat {
    match c
    case Done => 0
    case Then(i, tail) => 1 + (if i.If? then Count(i.body) else 0) + Count(tail)
  }

  lemma U32Length(n: nat)
    requires n < U32
    ensures |Uleb(n)| <= 5
  {
    hide Pow2;
    Pow2Values();
    Pow2Add(32, 3);
    UlebLength(n, 5);
    assert Pow2(3) >= 1;
    assert Pow2(32) * Pow2(3) >= Pow2(32);
  }

  lemma SimpleLength(i: Instr)
    requires !i.If? && SimpleOk(i)
    ensures |EncodeSimple(i)| <= 11
  {
    match i {
      case I32Const(v) => ConstLength(v);
      case I64Const(v) => ConstLength(v);
      case LocalGet(k) => U32Length(k);
      case LocalSet(k) => U32Length(k);
      case GlobalGet(k) => U32Length(k);
      case GlobalSet(k) => U32Length(k);
      case I32Store8(k) => U32Length(k);
      case _ =>
    }
  }

  lemma ConstLength(v: int)
    requires -0x8000_0000_0000_0000 <= v < 0x8000_0000_0000_0000
    ensures |Sleb(v)| <= 10
  {
    hide Pow2;
    Pow2Values();
    Pow2Add(64, 5);
    SlebLength(v, 10);
    assert Pow2(5) >= 1;
    assert Pow2(64) * Pow2(5) >= Pow2(64);
  }

  lemma {:induction false} CodeLength(c: Code)
    requires CodeOk(c)
    ensures |EncodeCode(c)| <= 11 * Count(c)
    decreases c
  {
    hide EncodeSimple, SimpleOk;
    match c {
      case Done =>
      case Then(i, tail) =>
        CodeLength(tail);
        if i.If? {
          CodeLength(i.body);
        } else {
          SimpleLength(i);
        }
    }
  }

  lemma {:induction false} AppendOk(a: Code, b: Code)
    requires CodeOk(a) && CodeOk(b)
    ensures CodeOk(Append(a, b)) && Count(Append(a, b)) == Count(a) + Count(b)
    decreases a
  {
    if a.Then? {
      AppendOk(a.tail, b);
    }
  }

  predicate BodyOk(b: Body) {
    CodeOk(b.code) && Count(b.code) <= 60 && b.locals <= 1
  }

  lemma HighStoresOk()
    ensures CodeOk(StoreShifted(24, 0)) && Count(StoreShifted(24, 0)) == 5
    ensures CodeOk(StoreShifted(16, 1)) && Count(StoreShifted(16, 1)) == 5
  {
  }

  lemma LowStoresOk()
    ensures CodeOk(StoreShifted(8, 2)) && Count(StoreShifted(8, 2)) == 5
    ensures CodeOk(StoreLow()) && Count(StoreLow()) == 3
  {
  }

  lemma StoresOk()
    ensures CodeOk(StorePrefix()) && Count(StorePrefix()) == 18
  {
    hide Append, CodeOk, Count, StoreShifted, StoreLow;
    HighStoresOk();
    LowStoresOk();
    var last := Append(StoreShifted(8, 2), StoreLow());
    AppendOk(StoreShifted(8, 2), StoreLow());
    AppendOk(StoreShifted(16, 1), last);
    AppendOk(StoreShifted(24, 0), Append(StoreShifted(16, 1), last));
  }

  lemma ChecksOk()
    ensures CodeOk(RefuseStopped()) && Count(RefuseStopped()) == 5
    ensures CodeOk(NeededBytes()) && Count(NeededBytes()) == 5
    ensures CodeOk(RefuseFull()) && Count(RefuseFull()) == 5
  {
  }

  lemma CopiesOk()
    ensures CodeOk(SetDestination(QUEUE)) && Count(SetDestination(QUEUE)) == 4
    ensures CodeOk(CopyPayload()) && Count(CopyPayload()) == 6
    ensures CodeOk(SetLength()) && Count(SetLength()) == 1
    ensures CodeOk(Const32(0)) && Count(Const32(0)) == 1
  {
  }

  lemma EnqueueOk()
    ensures CodeOk(Enqueue(QUEUE)) && Count(Enqueue(QUEUE)) == 35
  {
    hide Append, CodeOk, Count, StorePrefix, SetDestination, CopyPayload, NeededBytes, SetLength, Const32;
    ChecksOk();
    CopiesOk();
    StoresOk();
    var end := Append(SetLength(), Const32(0));
    var finish := Append(NeededBytes(), end);
    AppendOk(SetLength(), Const32(0));
    AppendOk(NeededBytes(), end);
    AppendOk(CopyPayload(), finish);
    AppendOk(StorePrefix(), Append(CopyPayload(), finish));
    AppendOk(SetDestination(QUEUE), Append(StorePrefix(), Append(CopyPayload(), finish)));
  }

  lemma SendOk()
    ensures BodyOk(SendBody(QUEUE))
  {
    hide Append, CodeOk, Count, Enqueue, RefuseStopped, NeededBytes, RefuseFull;
    ChecksOk();
    CopiesOk();
    EnqueueOk();
    AppendOk(RefuseFull(), Enqueue(QUEUE));
    AppendOk(NeededBytes(), Append(RefuseFull(), Enqueue(QUEUE)));
    AppendOk(RefuseStopped(), Append(NeededBytes(), Append(RefuseFull(), Enqueue(QUEUE))));
  }

  lemma AllocTestsOk()
    ensures CodeOk(LoadBump()) && Count(LoadBump()) == 2
    ensures CodeOk(PastHeap(HEAP_LIMIT)) && Count(PastHeap(HEAP_LIMIT)) == 5
    ensures CodeOk(Rewind()) && Count(Rewind()) == 3
  {
  }

  lemma AllocEndsOk()
    ensures CodeOk(EndPlus7()) && Count(EndPlus7()) == 5
    ensures CodeOk(MaskAndStore()) && Count(MaskAndStore()) == 4
  {
  }

  lemma AllocOk()
    ensures BodyOk(AllocBody(HEAP_LIMIT))
  {
    hide Append, CodeOk, Count, LoadBump, PastHeap, Rewind, EndPlus7, MaskAndStore;
    AllocTestsOk();
    AllocEndsOk();
    var end := Append(EndPlus7(), MaskAndStore());
    AppendOk(EndPlus7(), MaskAndStore());
    AppendOk(Rewind(), end);
    AppendOk(PastHeap(HEAP_LIMIT), Append(Rewind(), end));
    AppendOk(LoadBump(), Append(PastHeap(HEAP_LIMIT), Append(Rewind(), end)));
  }

  lemma PollPiecesOk()
    ensures CodeOk(CopyOut(OUT, QUEUE)) && CodeOk(PackAddress(OUT)) && CodeOk(PackLength()) && CodeOk(ResetLength())
    ensures Count(CopyOut(OUT, QUEUE)) + Count(PackAddress(OUT)) + Count(PackLength()) + Count(ResetLength()) <= 60
  {
  }

  lemma PollOk()
    ensures BodyOk(PollBody(OUT, QUEUE))
  {
    hide Append, CodeOk, Count, CopyOut, PackAddress, PackLength, ResetLength;
    PollPiecesOk();
    var end := Append(PackLength(), ResetLength());
    AppendOk(PackLength(), ResetLength());
    AppendOk(PackAddress(OUT), end);
    AppendOk(CopyOut(OUT, QUEUE), Append(PackAddress(OUT), end));
  }

  lemma SmallOk(n: nat)
    requires n <= MAX_CAPS
    ensures BodyOk(AckBody()) && BodyOk(CapsBody(n)) && BodyOk(StartBody()) && BodyOk(StopBody())
    ensures BodyOk(StatusBody())
  {
  }

  lemma FnsOk(n: nat)
    requires n <= MAX_CAPS
    ensures forall k | 0 <= k < 10 :: BodyOk(Fns(n)[k].body) && |Fns(n)[k].name| <= 10 && Fns(n)[k].typeIdx < 7
  {
    hide BodyOk, AckBody, CapsBody, StartBody, StopBody, StatusBody, AllocBody, SendBody, PollBody;
    SmallOk(n);
    AllocOk();
    SendOk();
    PollOk();
  }

  lemma {:induction false} FlattenBound<T(!new)>(f: T -> seq<byte>, xs: seq<T>, k: nat)
    requires forall i | 0 <= i < |xs| :: |f(xs[i])| <= k
    ensures |Flatten(Each(f, xs))| <= k * |xs|
  {
    if xs != [] {
      forall i | 0 <= i < |xs| - 1 ensures |f(xs[1..][i])| <= k {
        assert xs[1..][i] == xs[i + 1];
      }
      FlattenBound(f, xs[1..], k);
      assert k * |xs| == k + k * (|xs| - 1);
    }
  }

  lemma VecBound<T(!new)>(f: T -> seq<byte>, xs: seq<T>, k: nat)
    requires |xs| < U32
    requires forall i | 0 <= i < |xs| :: |f(xs[i])| <= k
    ensures |Vec(Each(f, xs))| <= 5 + k * |xs|
  {
    FlattenBound(f, xs, k);
    U32Length(|xs|);
  }

  lemma TypeLength(t: FuncType)
    requires |t.params| <= 6 && |t.results| <= 1
    ensures |EncodeFuncType(t)| <= 18
  {
    VecBound(EncodeType, t.params, 1);
    VecBound(EncodeType, t.results, 1);
  }

  lemma BodyLength(b: Body)
    requires BodyOk(b)
    ensures |EncodeBody(b)| <= 680
  {
    CodeLength(b.code);
    U32Length(|BodyContent(b)|) by {
      assert Flatten([[b.locals % 256, 0x7f as byte]]) == [b.locals % 256, 0x7f];
    }
  }

  lemma TypesFit()
    ensures |Vec(Each(EncodeFuncType, Types()))| < U32
  {
    forall k | 0 <= k < |Types()| ensures |EncodeFuncType(Types()[k])| <= 18 {
      TypeLength(Types()[k]);
    }
    hide EncodeFuncType;
    VecBound(EncodeFuncType, Types(), 18);
  }

  lemma FuncsFit(m: Module)
    requires |m.funcs| <= 10 && forall k | 0 <= k < |m.funcs| :: m.funcs[k] < 7
    ensures |Vec(Each(Uleb, m.funcs))| < U32
  {
    VecBound(Uleb, m.funcs, 1);
  }

  lemma GlobalsFit(m: Module)
    requires |m.globals| <= 3 && forall k | 0 <= k < |m.globals| :: CodeOk(m.globals[k]) && Count(m.globals[k]) <= 1
    ensures |Vec(Each(EncodeGlobal, m.globals))| < U32
  {
    forall k | 0 <= k < |m.globals| ensures |EncodeGlobal(m.globals[k])| <= 14 {
      CodeLength(m.globals[k]);
    }
    VecBound(EncodeGlobal, m.globals, 14);
  }

  lemma ExportsFit(m: Module)
    requires |m.exports| <= 11
    requires forall k | 0 <= k < |m.exports| :: |m.exports[k].name| <= 10 && m.exports[k].index < U32
    ensures |Vec(Each(EncodeExport, m.exports))| < U32
  {
    forall k | 0 <= k < |m.exports| ensures |EncodeExport(m.exports[k])| <= 21 {
      U32Length(|m.exports[k].name|);
      U32Length(m.exports[k].index);
    }
    VecBound(EncodeExport, m.exports, 21);
  }

  lemma BodiesFit(m: Module)
    requires |m.bodies| <= 10 && forall k | 0 <= k < |m.bodies| :: BodyOk(m.bodies[k])
    ensures |Vec(Each(EncodeBody, m.bodies))| < U32
  {
    forall k | 0 <= k < |m.bodies| ensures |EncodeBody(m.bodies[k])| <= 680 {
      BodyLength(m.bodies[k]);
    }
    hide EncodeBody;
    VecBound(EncodeBody, m.bodies, 680);
  }

  lemma DataFits(m: Module)
    requires |m.data| <= 1
    requires forall k | 0 <= k < |m.data| ::
               CodeOk(m.data[k].offset) && Count(m.data[k].offset) <= 1 && |m.data[k].init| <= MAX_CAPS
    ensures |Vec(Each(EncodeData, m.data))| < U32
  {
    forall k | 0 <= k < |m.data| ensures |EncodeData(m.data[k])| <= 50 {
      CodeLength(m.data[k].offset);
      U32Length(|m.data[k].init|);
    }
    VecBound(EncodeData, m.data, 50);
  }

  lemma QueueModuleOk(caps: seq<byte>)
    requires |caps| <= MAX_CAPS
    ensures ModuleOk(QueueModule(caps))
  {
    hide Fns, Types, Vec, Each, AllocBody, SendBody, PollBody;
    var m := QueueModule(caps);
    FnsOk(|caps|);
    TypesFit();
    FuncsFit(m);
    GlobalsFit(m);
    ExportsFit(m);
    BodiesFit(m);
    DataFits(m);
  }

  /** Parsing the emitted bytes recovers exactly the intended module, for every capability string that fits. */
  lemma QueueModuleParses(caps: seq<byte>)
    requires |caps| <= MAX_CAPS
    ensures ReadModule(EncodeModule(QueueModule(caps))) == Some(QueueModule(caps))
  {
    hide *;
    QueueModuleOk(caps);
    ModuleRoundTrip(QueueModule(caps));
  }

  // ---------- instantiation ----------

  function InitialGlobals(inits: seq<Code>): Option<seq<u32>> {
    if inits == [] then Some([])
    else
      match Exec(inits[0], State(Store([], []), [], Empty))
      case Next(s) =>
        if s.stack.Push? && s.stack.top.V32?
        then (match InitialGlobals(inits[1..]) case None => None case Some(gs) => Some([s.stack.top.x] + gs))
        else None
      case _ => None
  }

  function InitialMemory(mem: seq<byte>, data: seq<Data>): Option<seq<byte>>
    decreases |data|
  {
    if data == [] then Some(mem)
    else
      match Exec(data[0].offset, State(Store([], []), [], Empty))
      case Next(s) =>
        if s.stack.Push? && s.stack.top.V32? && s.stack.top.x + |data[0].init| <= |mem|
        then InitialMemory(Splice(mem, s.stack.top.x, data[0].init), data[1..])
        else None
      case _ => None
  }

  /** Globals from their initialisers, zeroed memory, then the data segments. */
  function Instantiate(m: Module): Option<Store> {
    match InitialGlobals(m.globals)
    case None => None
    case Some(gs) =>
      match InitialMemory(seq(0x1_0000 * m.memoryMin, _ => 0), m.data)
      case None => None
      case Some(mem) => Some(Store(gs, mem))
  }

  function FreshStore(caps: seq<byte>): (st: Store)
    requires |caps| <= MAX_CAPS
    ensures |st.mem| == MEMORY
  {
    Store([0, 0, HEAP], Splice(seq(MEMORY, _ => 0), CAPS_AT, caps))
  }

  lemma ConstGives(v: nat)
    requires v < 0x8000_0000
    ensures Exec(Const32(v), State(Store([], []), [], Empty)) == Next(State(Store([], []), [], Push(V32(v), Empty)))
  {
    ExecLast(I32Const(v), State(Store([], []), [], Empty));
  }

  lemma GlobalsStep(v: nat, rest: seq<Code>, gs: seq<u32>)
    requires v < 0x8000_0000 && InitialGlobals(rest) == Some(gs)
    ensures InitialGlobals([Const32(v)] + rest) == Some([v] + gs)
  {
    hide Exec, Const32;
    ConstGives(v);
    assert ([Const32(v)] + rest)[1..] == rest;
  }

  lemma QueueModuleInstantiates(caps: seq<byte>)
    requires |caps| <= MAX_CAPS
    ensures Instantiate(QueueModule(caps)) == Some(FreshStore(caps))
  {
    hide Exec, Const32, Splice, Fns, Types, Exports;
    ConstGives(CAPS_AT);
    GlobalsStep(HEAP, [], []);
    assert [HEAP as u32] + [] == [HEAP] && [0 as u32] + [HEAP] == [0, HEAP];
    GlobalsStep(0, [Const32(HEAP)] + [], [HEAP]);
    GlobalsStep(0, [Const32(0)] + ([Const32(HEAP)] + []), [0, HEAP]);
    assert [Const32(0)] + ([Const32(0)] + ([Const32(HEAP)] + [])) == [Const32(0), Const32(0), Const32(HEAP)];
    assert [0] + [0, HEAP] == [0, 0, HEAP];
    var zero := seq(MEMORY, _ => 0 as byte);
    var d := [Data(Const32(CAPS_AT), caps)];
    assert d[1..] == [];
    assert InitialMemory(zero, d) == Some(Splice(zero, CAPS_AT, caps));
  }
}
