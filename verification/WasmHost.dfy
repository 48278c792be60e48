/** Hosts that keep to the layout: what they allocate fits below the queue, what they write lies in the heap, and what
    they send comes from there. */
module WasmHost {
  import opened Bytes
  import opened WasmSyntax
  import opened WasmMachine
  import opened WasmQueue
  import opened Framing
  import opened WasmModule
  import opened WasmExports
  import opened WasmRun

  // ---------- the bump pointer ----------

  predicate SmallBlocks(op: Op) {
    match op
    case Alloc(n) => n <= HEAP_LIMIT - HEAP
    case Put(data) => |data| <= HEAP_LIMIT - HEAP
    case _ => true
  }

  predicate BumpOk(store: Store) {
    StoreOk(store) && HEAP <= store.globals[2] <= HEAP_LIMIT && store.globals[2] % 8 == 0
  }

  /** Whatever the host does, the queue length stays within its region, and only allocation moves the bump pointer. */
  lemma StepKeepsStore(store: Store, caps: seq<byte>, op: Op)
    requires StoreOk(store) && |caps| <= MAX_CAPS
    ensures var store' := Perform(QueueModule(caps), op, store).1;
            && StoreOk(store')
            && store'.globals[2] == match op
                                    case Alloc(n) => NextBump(AllocAt(store.globals[2], n), n)
                                    case Put(data) =>
                                      var n := |data| % 0x1_0000_0000;
                                      NextBump(AllocAt(store.globals[2], n), n)
                                    case _ => store.globals[2]
  {
    hide QueueModule, Entry, I32s, Invoke, AllocBody, SendBody, PollBody, StartBody, StopBody, AckBody,
         CapsBody, StatusBody, AllocAt, NextBump, Splice, Copied, BE32;
    NamedEntries(caps);
    match op {
      case Alloc(n) => AllocCall(store, n);
      case Put(data) => AllocCall(store, |data| % 0x1_0000_0000);
      case Start => StartStopCalls(store);
      case Stop => StartStopCalls(store);
      case Send(fp, fl, rp, rl) => SendCall(store, fp, fl, rp, rl);
      case Poll(limit, mp, count) => PollCall(store, limit, mp, count);
      case Init(cp, cl) => AckCall(store, [cp, cl]);
      case Caps => CapsCall(store, |caps|, []);
      case Status => StatusCall(store, []);
      case Attach(mp, sp, up, ul, rp, rl) => AckCall(store, [mp, sp, up, ul, rp, rl]);
      case Detach(mp) => AckCall(store, [mp]);
      case Write(_, _) =>
    }
  }

  lemma StepKeepsBump(caps: seq<byte>, op: Op, store: Store)
    requires |caps| <= MAX_CAPS && BumpOk(store) && SmallBlocks(op)
    ensures BumpOk(Perform(QueueModule(caps), op, store).1)
  {
    hide QueueModule, Perform, AllocAt, NextBump;
    StepKeepsStore(store, caps, op);
    match op {
      case Alloc(n) => AllocStaysInHeap(store.globals[2], n);
      case Put(data) => AllocStaysInHeap(store.globals[2], |data|);
      case _ =>
    }
  }

  /** In every state that a run reaches with blocks of at most 0x2f00 bytes, whatever else the host does, the queue
      length is within its region and the bump pointer is a multiple of eight in [0x1000, 0x3f00]. */
  lemma {:induction false} BumpStaysInHeap(caps: seq<byte>, ops: seq<Op>, l: Ledger)
    requires |caps| <= MAX_CAPS && BumpOk(l.store) && forall k | 0 <= k < |ops| :: SmallBlocks(ops[k])
    ensures BumpOk(Run(QueueModule(caps), ops, l).store)
    decreases |ops|
  {
    hide QueueModule, Perform, BumpOk, SmallBlocks, Intact, Frame, ReachesOutput, BlobOf;
    if ops != [] {
      StepKeepsBump(caps, ops[0], l.store);
      BumpStaysInHeap(caps, ops[1..], Record(QueueModule(caps), ops[0], l));
    }
  }

  // ---------- polite runs ----------

  predicate Polite(op: Op) {
    match op
    case Alloc(n) => n <= QUEUE - HEAP
    case Put(data) => |data| <= QUEUE - HEAP
    case Write(at, bytes) => HEAP <= at && at + |bytes| <= QUEUE
    case Send(fp, fl, _, _) => fp + fl <= QUEUE
    case _ => true
  }

  /** A run so far in which nothing failed, every frame was intact, and the output region was left alone. */
  ghost predicate Clean(l: Ledger, q: Fifo, batches: seq<seq<seq<byte>>>, caps: seq<byte>) {
    && Explained(l, q, batches, l.accepted, caps) && l.intact && l.kept && !l.failed && HeapOk(l.store.globals[2])
  }

  lemma PoliteIsTame(store: Store, op: Op)
    requires StoreOk(store) && HeapOk(store.globals[2]) && Polite(op)
    ensures Tame(op, store)
  {
  }

  lemma PoliteSendIntact(store: Store, fp: u32, fl: u32)
    requires StoreOk(store) && fp + fl <= QUEUE
    ensures Intact(store, fp, fl) && SentFrame(store, fp, fl) == Frame(store, fp, fl)
  {
    IntactExactly(store, fp, fl);
  }

  lemma PoliteReply(store: Store, q: Fifo, caps: seq<byte>, op: Op, reply: Reply, store': Store)
    requires Refines(store, q, caps) && HeapOk(store.globals[2]) && Polite(op)
    requires Answers(reply, op, q, store, store', caps)
    ensures !reply.Failed?
  {
    match op {
      case Put(data) => AllocStaysInHeap(store.globals[2], |data|);
      case _ =>
    }
  }

  lemma PoliteStep(l: Ledger, q: Fifo, batches: seq<seq<seq<byte>>>, caps: seq<byte>, op: Op)
    requires Clean(l, q, batches, caps) && Polite(op)
    ensures StoreOk(l.store) && Tame(op, l.store)
    ensures Clean(Record(QueueModule(caps), op, l), SpecStep(q, op, l.store),
                  if op.Poll? then batches + [q.queued] else batches, caps)
  {
    hide QueueModule, Perform, Refines, SpecStep, Tame, AllocAt, NextBump, SentFrame, Intact, Answers, Frame, HolesTold,
         OutputTold;
    RefinesStore(l.store, q, caps);
    CapsFit(l.store, q, caps);
    PoliteIsTame(l.store, op);
    RecordExplained(l, q, batches, l.accepted, caps, op);
    StepRefines(l.store, q, caps, op);
    var (reply, store') := Perform(QueueModule(caps), op, l.store);
    PoliteReply(l.store, q, caps, op, reply, store');
    PoliteHeap(l.store, caps, op);
    match op {
      case Put(data) => AllocStaysInHeap(l.store.globals[2], |data|);
      case Send(fp, fl, _, _) => PoliteSendIntact(l.store, fp, fl);
      case _ =>
    }
    assert l.accepted + [] == l.accepted;
  }

  lemma PoliteHeap(store: Store, caps: seq<byte>, op: Op)
    requires |caps| <= MAX_CAPS && StoreOk(store) && HeapOk(store.globals[2]) && Polite(op)
    ensures var store' := Perform(QueueModule(caps), op, store).1; StoreOk(store') && HeapOk(store'.globals[2])
  {
    hide QueueModule, Perform, AllocAt, NextBump;
    StepKeepsStore(store, caps, op);
    match op {
      case Alloc(n) => AllocStaysInHeap(store.globals[2], n);
      case Put(data) => AllocStaysInHeap(store.globals[2], |data|);
      case _ =>
    }
  }

  lemma CapsFit(store: Store, q: Fifo, caps: seq<byte>)
    requires Refines(store, q, caps)
    ensures |caps| <= MAX_CAPS
  {
  }

  lemma {:induction false} PoliteRun(l: Ledger, q: Fifo, batches: seq<seq<seq<byte>>>, caps: seq<byte>, ops: seq<Op>)
    returns (q': Fifo, batches': seq<seq<seq<byte>>>)
    requires Clean(l, q, batches, caps) && forall k | 0 <= k < |ops| :: Polite(ops[k])
    ensures TameRun(QueueModule(caps), ops, l) && Clean(Run(QueueModule(caps), ops, l), q', batches', caps)
    decreases |ops|
  {
    hide QueueModule, Record, Clean, Tame, SpecStep, Polite;
    NamedEntries(caps);
    if ops == [] {
      q', batches' := q, batches;
    } else {
      var op := ops[0];
      PoliteStep(l, q, batches, caps, op);
      var next := if op.Poll? then batches + [q.queued] else batches;
      q', batches' := PoliteRun(Record(QueueModule(caps), op, l), SpecStep(q, op, l.store), next, caps, ops[1..]);
    }
  }

  /** Over any run of a polite host nothing fails, every frame is copied intact, what was polled and what is queued
      frame the accepted frames in order, and the last polled blob is still where the poll said. */
  lemma PoliteRunConserves(caps: seq<byte>, ops: seq<Op>)
    requires |caps| <= MAX_CAPS && forall k | 0 <= k < |ops| :: Polite(ops[k])
    ensures var l := Run(QueueModule(caps), ops, Fresh(caps));
            && !l.failed && l.intact && Flatten(l.blobs) + QueueRegion(l.store) == Frames(l.accepted)
            && (l.blobs != [] ==> LastBlobHeld(l))
  {
    hide Run, TameRun, Explained, QueueModule, LastBlobHeld;
    FreshExplained(caps);
    var _, _ := PoliteRun(Fresh(caps), Fifo(false, [], []), [], caps, ops);
    QueueConserves(caps, ops);
    BlobSurvives(caps, ops);
  }

  // ---------- two blocks on one heap ----------

  function Up8(n: nat): nat {
    (n + 7) / 8 * 8
  }

  predicate PutsDisjoint(bump: u32, n1: u32, n2: u32) {
    var p1 := AllocAt(bump, n1);
    var p2 := AllocAt(NextBump(p1, n1), n2);
    p1 + n1 <= p2 || p2 + n2 <= p1
  }

  lemma Up8Bounds(n: nat)
    ensures n <= Up8(n) <= n + 7 && Up8(n) % 8 == 0
  {
  }

  lemma Up8Within(n: nat, room: nat)
    requires n <= room && room % 8 == 0
    ensures Up8(n) <= room
  {
  }

  lemma Up8Shift(p: nat, n: nat)
    requires p % 8 == 0
    ensures p + n + 7 - (p + n + 7) % 8 == p + Up8(n)
  {
  }

  lemma AllocFits(bump: u32, n: u32)
    requires HEAP <= bump <= HEAP_LIMIT && bump % 8 == 0 && n <= HEAP_LIMIT - HEAP
    ensures AllocAt(bump, n) == if bump + n > HEAP_LIMIT then HEAP else bump
    ensures AllocAt(bump, n) % 8 == 0 && HEAP <= AllocAt(bump, n) && AllocAt(bump, n) + n <= HEAP_LIMIT
  {
  }

  lemma NextAfter(p: u32, n: u32)
    requires p <= HEAP_LIMIT && p % 8 == 0 && n <= HEAP_LIMIT
    ensures NextBump(p, n) == p + Up8(n)
  {
    hide Up8;
    Up8Shift(p, n);
    assert Add32(p, n) == p + n;
    assert Add32(p + n, 7) == p + n + 7;
  }

  lemma PutsAt(bump: u32, n: u32)
    requires HEAP <= bump <= HEAP_LIMIT && bump % 8 == 0 && n <= HEAP_LIMIT - HEAP
    ensures AllocAt(bump, n) == if bump + n > HEAP_LIMIT then HEAP else bump
    ensures NextBump(AllocAt(bump, n), n) == AllocAt(bump, n) + Up8(n)
    ensures AllocAt(bump, n) % 8 == 0 && n <= Up8(n) <= n + 7 && Up8(n) % 8 == 0
    ensures AllocAt(bump, n) + Up8(n) <= HEAP_LIMIT
  {
    hide AllocAt, NextBump, Up8;
    AllocFits(bump, n);
    NextAfter(AllocAt(bump, n), n);
    Up8Bounds(n);
    Up8Within(n, HEAP_LIMIT - AllocAt(bump, n));
  }

  /** Both pointers are multiples of eight, so a second block that rewinds ends before the first if it is small. */
  lemma PutsApart(bump: u32, n1: u32, n2: u32)
    requires HEAP <= bump <= HEAP_LIMIT && bump % 8 == 0
    requires 0 < n1 <= HEAP_LIMIT - HEAP && 0 < n2 <= HEAP_LIMIT - HEAP
    requires Up8(n1) + Up8(n2) + n2 <= HEAP_LIMIT - HEAP + 8
    ensures PutsDisjoint(bump, n1, n2)
  {
    hide AllocAt, NextBump, Up8;
    PutsAt(bump, n1);
    var p1 := AllocAt(bump, n1);
    PutsAt(p1 + Up8(n1), n2);
    PutsAt(HEAP, n2);
    if p1 + Up8(n1) + n2 > HEAP_LIMIT {
      RoundedGap(p1 - HEAP, Up8(n2));
    }
  }

  lemma RoundedGap(a: int, b: int)
    requires a % 8 == 0 && b % 8 == 0 && a > b - 8
    ensures a >= b
  {
  }

  /** The host copies a frame and then a key before it calls `ntx_send`; the bump heap rewinds, so the key can land on
      the frame. It never does, wherever the bump pointer stands, exactly when the two sizes satisfy this bound. */
  lemma TwoPutsNeverOverlap(n1: u32, n2: u32)
    requires 0 < n1 <= HEAP_LIMIT - HEAP && 0 < n2 <= HEAP_LIMIT - HEAP
    ensures (forall bump: u32 | HEAP <= bump <= HEAP_LIMIT && bump % 8 == 0 :: PutsDisjoint(bump, n1, n2))
       <==> Up8(n1) + Up8(n2) + n2 <= HEAP_LIMIT - HEAP + 8
  {
    if Up8(n1) + Up8(n2) + n2 <= HEAP_LIMIT - HEAP + 8 {
      forall bump: u32 | HEAP <= bump <= HEAP_LIMIT && bump % 8 == 0 ensures PutsDisjoint(bump, n1, n2) {
        PutsApart(bump, n1, n2);
      }
    } else {
      var last := HEAP + Up8(n2) - 8;
      var bump: u32 := if last <= HEAP_LIMIT - Up8(n1) then last else HEAP_LIMIT - Up8(n1);
      PutsCollide(bump, n1, n2);
    }
  }

  lemma PutsCollide(bump: u32, n1: u32, n2: u32)
    requires 0 < n1 <= HEAP_LIMIT - HEAP && 0 < n2 <= HEAP_LIMIT - HEAP
    requires Up8(n1) + Up8(n2) + n2 > HEAP_LIMIT - HEAP + 8
    requires var last := HEAP + Up8(n2) - 8;
             bump == if last <= HEAP_LIMIT - Up8(n1) then last else HEAP_LIMIT - Up8(n1)
    ensures HEAP <= bump <= HEAP_LIMIT && bump % 8 == 0 && !PutsDisjoint(bump, n1, n2)
  {
    hide AllocAt, NextBump, Up8;
    Up8Within(n1, HEAP_LIMIT - HEAP);
    Up8Bounds(n1);
    Up8Bounds(n2);
    PutsAt(bump, n1);
    PutsAt(bump + Up8(n1), n2);
  }

  // ---------- what a host sends is what it polls ----------

  /** What `verify-wasm.mjs` and the hosts do: put a frame and a key and send them, poll, start and stop. */
  datatype HostCall =
    | Deliver(frame: seq<byte>, key: seq<byte>)
    | Drain(limit: u32, mp: u32, count: u32)
    | Switch(on: bool)

  /** The pointer that `Put` is given. */
  function Pointer(m: Module, data: seq<byte>, store: Store): u32
  {
    match Perform(m, Put(data), store).0
    case Answer(V32(p)) => p
    case _ => 0
  }

  /** The history of the calls, and the frames of the deliveries that were answered 0. */
  datatype HostLedger = HostLedger(l: Ledger, delivered: seq<seq<byte>>)

  function HostStep(m: Module, h: HostCall, hl: HostLedger): HostLedger
  {
    match h
    case Drain(limit, mp, count) => hl.(l := Record(m, Poll(limit, mp, count), hl.l))
    case Switch(on) => hl.(l := Record(m, if on then Start else Stop, hl.l))
    case Deliver(frame, key) =>
      var p1 := Pointer(m, frame, hl.l.store);
      var l1 := Record(m, Put(frame), hl.l);
      var p2 := Pointer(m, key, l1.store);
      var l2 := Record(m, Put(key), l1);
      var send := Op.Send(p1, |frame| % 0x1_0000_0000, p2, |key| % 0x1_0000_0000);
      var answered := Perform(m, send, l2.store).0 == Answer(V32(0));
      HostLedger(Record(m, send, l2), if answered then hl.delivered + [frame] else hl.delivered)
  }

  function HostRun(m: Module, hs: seq<HostCall>, hl: HostLedger): HostLedger
  {
    if hs == [] then hl else HostRun(m, hs[1..], HostStep(m, hs[0], hl))
  }

  /** The bound under which the key never lands on the frame. */
  predicate Fits(h: HostCall) {
    h.Deliver? ==>
      && 0 < |h.frame| <= HEAP_LIMIT - HEAP && 0 < |h.key| <= HEAP_LIMIT - HEAP
      && Up8(|h.frame|) + Up8(|h.key|) + |h.key| <= HEAP_LIMIT - HEAP + 8
  }

  ghost predicate HostClean(hl: HostLedger, q: Fifo, batches: seq<seq<seq<byte>>>, caps: seq<byte>) {
    && Clean(hl.l, q, batches, caps) && hl.l.store.globals[2] <= HEAP_LIMIT
    && hl.l.accepted == hl.delivered && NoneEmpty(hl.delivered)
  }

  lemma PutEffect(store: Store, caps: seq<byte>, data: seq<byte>)
    requires StoreOk(store) && HeapOk(store.globals[2]) && |data| <= QUEUE - HEAP
    ensures var p := AllocAt(store.globals[2], |data|);
            && HEAP <= p && p + |data| <= QUEUE
            && Pointer(QueueModule(caps), data, store) == p
            && Perform(QueueModule(caps), Put(data), store)
               == (Answer(V32(p)), SetGlobal(store, 2, NextBump(p, |data|)).(mem := Splice(store.mem, p, data)))
  {
    hide QueueModule, Entry, I32s, Invoke, AllocBody, Frames, AllocAt, NextBump, Splice;
    NamedEntries(caps);
    assert |data| % 0x1_0000_0000 == |data|;
    AllocCall(store, |data|);
    AllocStaysInHeap(store.globals[2], |data|);
  }

  /** After both puts the frame is where the first pointer says. */
  lemma BothPuts(store: Store, caps: seq<byte>, frame: seq<byte>, key: seq<byte>)
    requires BumpOk(store) && Fits(Deliver(frame, key))
    ensures var m := QueueModule(caps);
            var p1, s1 := Pointer(m, frame, store), Perform(m, Put(frame), store).1;
            var s2 := Perform(m, Put(key), s1).1;
            BumpOk(s1) && BumpOk(s2) && p1 + |frame| <= QUEUE && Frame(s2, p1, |frame|) == frame
  {
    hide QueueModule, Perform, Pointer, AllocAt, NextBump, Splice, Up8;
    var n1: u32, n2: u32 := |frame|, |key|;
    var p1 := AllocAt(store.globals[2], n1);
    PutEffect(store, caps, frame);
    AllocStaysInHeap(store.globals[2], n1);
    var s1 := Perform(QueueModule(caps), Put(frame), store).1;
    PutEffect(s1, caps, key);
    AllocStaysInHeap(s1.globals[2], n2);
    PutsApart(store.globals[2], n1, n2);
    SpliceHere(store.mem, p1, frame);
    SpliceFrame(s1.mem, AllocAt(s1.globals[2], n2), key, p1, p1 + n1);
  }

  /** The history after both puts of a delivery, with the frame in its block. */
  lemma DeliverPuts(l: Ledger, q: Fifo, batches: seq<seq<seq<byte>>>, caps: seq<byte>, h: HostCall)
    returns (q': Fifo)
    requires Clean(l, q, batches, caps) && l.store.globals[2] <= HEAP_LIMIT && h.Deliver? && Fits(h)
    ensures var m := QueueModule(caps);
            var p1, l2 := Pointer(m, h.frame, l.store), Record(m, Put(h.key), Record(m, Put(h.frame), l));
            && Clean(l2, q', batches, caps) && BumpOk(l2.store) && l2.accepted == l.accepted
            && p1 + |h.frame| <= QUEUE && Frame(l2.store, p1, |h.frame|) == h.frame
  {
    hide QueueModule, Perform, Pointer, Explained, SpecStep, Tame, Intact, Up8, Frame, ReachesOutput;
    ExplainedStore(l, q, batches, caps);
    BothPuts(l.store, caps, h.frame, h.key);
    var m := QueueModule(caps);
    PoliteStep(l, q, batches, caps, Put(h.frame));
    var l1, q1 := Record(m, Put(h.frame), l), SpecStep(q, Put(h.frame), l.store);
    PoliteStep(l1, q1, batches, caps, Put(h.key));
    q' := SpecStep(q1, Put(h.key), l1.store);
  }

  lemma DeliverStep(hl: HostLedger, q: Fifo, batches: seq<seq<seq<byte>>>, caps: seq<byte>, h: HostCall)
    returns (q': Fifo)
    requires HostClean(hl, q, batches, caps) && h.Deliver? && Fits(h)
    ensures HostClean(HostStep(QueueModule(caps), h, hl), q', batches, caps)
  {
    hide QueueModule, Perform, Pointer, Explained, SpecStep, Tame, Intact, Up8, Frame, ReachesOutput, NoneEmpty;
    var q2 := DeliverPuts(hl.l, q, batches, caps, h);
    var m := QueueModule(caps);
    var p1 := Pointer(m, h.frame, hl.l.store);
    var l1 := Record(m, Put(h.frame), hl.l);
    var p2 := Pointer(m, h.key, l1.store);
    var l2 := Record(m, Put(h.key), l1);
    var send := Op.Send(p1, |h.frame| % 0x1_0000_0000, p2, |h.key| % 0x1_0000_0000);
    PoliteStep(l2, q2, batches, caps, send);
    q' := SpecStep(q2, send, l2.store);
    ExplainedStore(l2, q2, batches, caps);
    StepKeepsStore(l2.store, caps, send);
    NoneEmptyAppend(hl.delivered, [h.frame]);
    assert NoneEmpty([h.frame]) by { OneFull(h.frame); }
  }

  lemma OneFull(f: seq<byte>)
    requires f != []
    ensures NoneEmpty([f])
  {
  }

  lemma ExplainedStore(l: Ledger, q: Fifo, batches: seq<seq<seq<byte>>>, caps: seq<byte>)
    requires Explained(l, q, batches, l.accepted, caps)
    ensures Refines(l.store, q, caps) && StoreOk(l.store) && |caps| <= MAX_CAPS
  {
  }

  lemma HostStepClean(hl: HostLedger, q: Fifo, batches: seq<seq<seq<byte>>>, caps: seq<byte>, h: HostCall)
    returns (q': Fifo, batches': seq<seq<seq<byte>>>)
    requires HostClean(hl, q, batches, caps) && Fits(h)
    ensures HostClean(HostStep(QueueModule(caps), h, hl), q', batches', caps)
  {
    hide QueueModule, Perform, Pointer, Explained, SpecStep, Tame, Intact, Up8, NoneEmpty;
    if h.Deliver? {
      q' := DeliverStep(hl, q, batches, caps, h);
      batches' := batches;
    } else {
      ExplainedStore(hl.l, q, batches, caps);
      var op := if h.Drain? then Poll(h.limit, h.mp, h.count) else if h.on then Start else Stop;
      PoliteStep(hl.l, q, batches, caps, op);
      StepKeepsStore(hl.l.store, caps, op);
      q' := SpecStep(q, op, hl.l.store);
      batches' := if op.Poll? then batches + [q.queued] else batches;
    }
  }

  lemma {:induction false} HostRunClean(hl: HostLedger, q: Fifo, batches: seq<seq<seq<byte>>>, caps: seq<byte>,
                                        hs: seq<HostCall>)
    returns (q': Fifo, batches': seq<seq<seq<byte>>>)
    requires HostClean(hl, q, batches, caps) && forall k | 0 <= k < |hs| :: Fits(hs[k])
    ensures HostClean(HostRun(QueueModule(caps), hs, hl), q', batches', caps)
    decreases |hs|
  {
    hide QueueModule, HostClean, HostStep, Fits;
    NamedEntries(caps);
    if hs == [] {
      q', batches' := q, batches;
    } else {
      q', batches' := HostStepClean(hl, q, batches, caps, hs[0]);
      q', batches' := HostRunClean(HostStep(QueueModule(caps), hs[0], hl), q', batches', caps, hs[1..]);
    }
  }

  /** Over any run of deliveries within the bound, polls, starts and stops, nothing fails, and the frames that the host
      decodes from its polls, followed by those still queued, are the frames it delivered, in order. */
  lemma DeliveredFramesComeBack(caps: seq<byte>, hs: seq<HostCall>)
    requires |caps| <= MAX_CAPS && forall k | 0 <= k < |hs| :: Fits(hs[k])
    ensures var hl := HostRun(QueueModule(caps), hs, HostLedger(Fresh(caps), []));
            && !hl.l.failed
            && DecodeAll(hl.l.blobs) + DecodeFrames(QueueRegion(hl.l.store)).frames == hl.delivered
  {
    hide HostRun, Explained, QueueModule;
    FreshExplained(caps);
    var q, batches := HostRunClean(HostLedger(Fresh(caps), []), Fifo(false, [], []), [], caps, hs);
    var hl := HostRun(QueueModule(caps), hs, HostLedger(Fresh(caps), []));
    LedgerConserves(hl.l, q, batches, hl.l.accepted, caps);
  }
}
