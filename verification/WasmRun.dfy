/** Whole runs of host calls against the emitted bytecode: they refine a bounded FIFO of byte strings, and no region of
    the memory layout leaks into another. */
module WasmRun {
  import opened Bytes
  import opened WasmSyntax
  import opened WasmMachine
  import opened WasmQueue
  import opened Framing
  import opened WasmModule
  import opened WasmExports

  // ---------- the host ----------

  /** One step of a host. `Put` is the host's `put`: allocate, then copy bytes to the returned address. */
  datatype Op =
    | Alloc(n: u32)
    | Put(data: seq<byte>)
    | Write(at: nat, bytes: seq<byte>)
    | Start
    | Stop
    | Send(fp: u32, fl: u32, rp: u32, rl: u32)
    | Poll(limit: u32, mp: u32, count: u32)
    | Init(cp: u32, cl: u32)
    | Caps
    | Status
    | Attach(mp: u32, sp: u32, up: u32, ul: u32, rp: u32, rl: u32)
    | Detach(mp: u32)

  /** The calls that change nothing. */
  predicate Inert(op: Op) {
    op.Init? || op.Caps? || op.Status? || op.Attach? || op.Detach?
  }

  datatype Reply = Answer(value: Val) | Silent | Failed

  function Called(r: Result, before: Store): (Reply, Store) {
    match r
    case Done(v, st) => (Answer(v), st)
    case Trapped(st) => (Failed, st)
    case Invalid => (Failed, before)
  }

  function HostWrite(store: Store, at: nat, bytes: seq<byte>): (Reply, Store) {
    if at + |bytes| <= |store.mem| then (Silent, store.(mem := Splice(store.mem, at, bytes))) else (Failed, store)
  }

  /** A host step against a module: every call goes by the name of an export. */
  function Perform(m: Module, op: Op, store: Store): (Reply, Store) {
    match op
    case Alloc(n) => Called(Call(m, "ntx_alloc", [n], store), store)
    case Put(data) =>
      var (r, st) := Called(Call(m, "ntx_alloc", [|data| % 0x1_0000_0000], store), store);
      if r.Answer? && r.value.V32? then
        var (w, st') := HostWrite(st, r.value.x, data);
        (if w.Failed? then w else r, st')
      else (Failed, st)
    case Write(at, bytes) => HostWrite(store, at, bytes)
    case Start => Called(Call(m, "ntx_start", [], store), store)
    case Stop => Called(Call(m, "ntx_stop", [], store), store)
    case Send(fp, fl, rp, rl) => Called(Call(m, "ntx_send", [fp, fl, rp, rl], store), store)
    case Poll(limit, mp, count) => Called(Call(m, "ntx_poll", [limit, mp, count], store), store)
    case Init(cp, cl) => Called(Call(m, "ntx_init", [cp, cl], store), store)
    case Caps => Called(Call(m, "ntx_caps", [], store), store)
    case Status => Called(Call(m, "ntx_status", [], store), store)
    case Attach(mp, sp, up, ul, rp, rl) => Called(Call(m, "ntx_attach", [mp, sp, up, ul, rp, rl], store), store)
    case Detach(mp) => Called(Call(m, "ntx_detach", [mp], store), store)
  }

  // ---------- the specification ----------

  datatype Fifo = Fifo(running: bool, queued: seq<seq<byte>>, polled: seq<byte>)

  /** The bytes that the caller of `ntx_send` names. */
  function Frame(store: Store, fp: nat, fl: nat): seq<byte> {
    if fp + fl <= |store.mem| then store.mem[fp..fp + fl] else []
  }

  /** The bytes that are there when they are copied: the length prefix has been written by then. */
  function SentFrame(store: Store, fp: nat, fl: u32): seq<byte>
    requires StoreOk(store)
  {
    if fp + fl <= MEMORY then WithPrefix(store, fl)[fp..fp + fl] else []
  }

  /** Where a source overlaps the four bytes of the prefix, it already holds the prefix. */
  predicate Intact(store: Store, fp: nat, fl: u32)
    requires StoreOk(store)
  {
    var at := QUEUE + store.globals[1];
    forall i | fp <= i < fp + fl && at <= i < at + 4 :: store.mem[i] == BE32(fl)[i - at]
  }

  /** The answer of a bounded FIFO whose size check adds in 32 bits and whose frames must lie in memory. */
  function SendReply(q: Fifo, fp: nat, fl: nat): Reply {
    if !q.running then Answer(V32(1))
    else if (|Frames(q.queued)| + fl + 4) % 0x1_0000_0000 > CAPACITY then Answer(V32(3))
    else if fp + fl <= MEMORY then Answer(V32(0)) else Failed
  }

  predicate Misses(at: nat, n: nat, lo: nat, hi: nat) {
    n == 0 || at + n <= lo || hi <= at
  }

  /** Where a host write goes: `Put` writes to the block it has just been given. */
  function Landing(op: Op, store: Store): (nat, seq<byte>)
    requires |store.globals| == 3 && (op.Write? || op.Put?)
  {
    if op.Write? then (op.at, op.bytes) else (AllocAt(store.globals[2], |op.data| % 0x1_0000_0000), op.data)
  }

  /** Every call is allowed, with any argument; host writes that happen leave the capability string and the queued bytes
      alone. */
  predicate Tame(op: Op, store: Store)
    requires |store.globals| == 3
  {
    op.Write? || op.Put? ==>
      var (at, bytes) := Landing(op, store);
      || at + |bytes| > |store.mem|
      || (Misses(at, |bytes|, CAPS_AT, CAPS_AT + MAX_CAPS) && Misses(at, |bytes|, QUEUE, QUEUE + store.globals[1]))
  }

  /** `polled` is the last blob as long as it survives: a host write into the output region ends it, and so does a
      trapped send whose prefix spills over the end of a full queue. */
  function SpecStep(q: Fifo, op: Op, store: Store): Fifo
    requires StoreOk(store)
  {
    match op
    case Start => q.(running := true)
    case Stop => q.(running := false)
    case Send(fp, fl, _, _) =>
      var reply := SendReply(q, fp, fl);
      if reply == Answer(V32(0)) then q.(queued := q.queued + [SentFrame(store, fp, fl)])
      else if reply.Failed? && |Frames(q.queued)| + 4 > CAPACITY then q.(polled := [])
      else q
    case Poll(_, _, _) => q.(polled := Frames(q.queued), queued := [])
    case Write(_, _) => AfterWrite(q, op, store)
    case Put(_) => AfterWrite(q, op, store)
    case _ => q
  }

  function AfterWrite(q: Fifo, op: Op, store: Store): Fifo
    requires StoreOk(store) && (op.Write? || op.Put?)
  {
    var (at, bytes) := Landing(op, store);
    if at + |bytes| > MEMORY || Misses(at, |bytes|, OUT, OUT + CAPACITY) then q else q.(polled := [])
  }

  predicate HeapOk(bump: nat) {
    HEAP <= bump <= QUEUE && bump % 8 == 0
  }

  /** The abstraction relation, with every region of the layout where it belongs. */
  ghost predicate Refines(store: Store, q: Fifo, caps: seq<byte>) {
    && StoreOk(store)
    && store.globals[0] == (if q.running then 1 else 0)
    && store.globals[1] == |Frames(q.queued)|
    && |q.polled| <= CAPACITY
    && |caps| <= MAX_CAPS
    && store.mem[CAPS_AT..CAPS_AT + |caps|] == caps
    && store.mem[QUEUE..QUEUE + store.globals[1]] == Frames(q.queued)
    && store.mem[OUT..OUT + |q.polled|] == q.polled
  }

  /** What the caller of a step sees, in terms of the FIFO. */
  ghost predicate Answers(reply: Reply, op: Op, q: Fifo, store: Store, store': Store, caps: seq<byte>)
    requires StoreOk(store)
  {
    match op
    case Alloc(n) => reply == Answer(V32(AllocAt(store.globals[2], n)))
    case Put(data) =>
      var p := AllocAt(store.globals[2], |data| % 0x1_0000_0000);
      if p + |data| > MEMORY then reply == Failed
      else reply == Answer(V32(p)) && |store'.mem| == MEMORY && store'.mem[p..p + |data|] == data
    case Write(at, bytes) => reply == if at + |bytes| > MEMORY then Failed else Silent
    case Send(fp, fl, _, _) => reply == SendReply(q, fp, fl)
    case Poll(_, _, _) =>
      && reply.Answer? && reply.value.V64?
      && BlobOf(reply.value.y, store') == Frames(q.queued)
    case Start => reply == Answer(V32(0))
    case Stop => reply == Answer(V32(0))
    case Init(_, _) => reply == Answer(V32(0))
    case Caps => reply.Answer? && reply.value.V64? && BlobOf(reply.value.y, store') == caps
    case Status => reply == Answer(V32(if q.running then 1 else 0))
    case Attach(_, _, _, _, _, _) => reply == Answer(V32(0))
    case Detach(_) => reply == Answer(V32(0))
  }

  /** The host's `blob`: the memory slice named by a packed address and length, clamped to the memory. */
  function BlobOf(packed: u64, store: Store): seq<byte> {
    var p, l := packed / 0x1_0000_0000, packed % 0x1_0000_0000;
    var lo := if p < |store.mem| then p else |store.mem|;
    var hi := if p + l < |store.mem| then p + l else |store.mem|;
    store.mem[lo..hi]
  }

  // ---------- one step ----------

  lemma SpliceFrame(mem: seq<byte>, at: nat, data: seq<byte>, lo: nat, hi: nat)
    requires at + |data| <= |mem| && lo <= hi <= |mem|
    requires hi <= at || at + |data| <= lo
    ensures Splice(mem, at, data)[lo..hi] == mem[lo..hi]
  {
  }

  lemma SpliceHere(mem: seq<byte>, at: nat, data: seq<byte>)
    requires at + |data| <= |mem|
    ensures Splice(mem, at, data)[at..at + |data|] == data
  {
  }

  lemma SpliceMisses(mem: seq<byte>, at: nat, data: seq<byte>, lo: nat, hi: nat)
    requires at + |data| <= |mem| && lo <= hi <= |mem| && Misses(at, |data|, lo, hi)
    ensures Splice(mem, at, data)[lo..hi] == mem[lo..hi]
  {
    if data == [] {
      assert Splice(mem, at, data) == mem;
    }
  }

  lemma MissesPart(at: nat, n: nat, lo: nat, hi: nat, lo': nat, hi': nat)
    requires Misses(at, n, lo, hi) && lo <= lo' && hi' <= hi
    ensures Misses(at, n, lo', hi')
  {
  }

  /** A host write that lands is invisible to the queue and the capability string, and ends the last blob only if it
      reaches the output region. */
  lemma HostWriteKeeps(store: Store, q: Fifo, caps: seq<byte>, at: nat, data: seq<byte>)
    requires Refines(store, q, caps) && at + |data| <= MEMORY
    requires Misses(at, |data|, CAPS_AT, CAPS_AT + MAX_CAPS) && Misses(at, |data|, QUEUE, QUEUE + store.globals[1])
    ensures Refines(store.(mem := Splice(store.mem, at, data)),
                    if Misses(at, |data|, OUT, OUT + CAPACITY) then q else q.(polled := []), caps)
  {
    hide Frames, Splice;
    MissesPart(at, |data|, CAPS_AT, CAPS_AT + MAX_CAPS, CAPS_AT, CAPS_AT + |caps|);
    SpliceMisses(store.mem, at, data, CAPS_AT, CAPS_AT + |caps|);
    SpliceMisses(store.mem, at, data, QUEUE, QUEUE + store.globals[1]);
    if Misses(at, |data|, OUT, OUT + CAPACITY) {
      MissesPart(at, |data|, OUT, OUT + CAPACITY, OUT, OUT + |q.polled|);
      SpliceMisses(store.mem, at, data, OUT, OUT + |q.polled|);
    }
  }

  /** The block handed out lies in the heap, whatever valid bump pointer it starts from; and with at most 0x2f00 bytes
      requested the bump pointer never passes the heap limit. */
  lemma AllocStaysInHeap(bump: u32, n: u32)
    requires HeapOk(bump) && n <= QUEUE - HEAP
    ensures var p := AllocAt(bump, n);
            HEAP <= p && p + n <= QUEUE && HeapOk(NextBump(p, n))
    ensures bump <= HEAP_LIMIT && n <= HEAP_LIMIT - HEAP ==> NextBump(AllocAt(bump, n), n) <= HEAP_LIMIT
  {
  }

  /** The bound is exact: a longer block, of any length, always reaches into the queue or beyond. */
  lemma LongBlockReachesQueue(bump: u32, n: u32)
    requires HeapOk(bump) && n > QUEUE - HEAP
    ensures AllocAt(bump, n) + n > QUEUE
  {
  }

  lemma AllocRefines(store: Store, q: Fifo, caps: seq<byte>, n: u32)
    requires Refines(store, q, caps)
    ensures var p := AllocAt(store.globals[2], n);
            && Invoke(AllocBody(HEAP_LIMIT), [n], store)
               == Result.Done(V32(p), SetGlobal(store, 2, NextBump(p, n)))
            && Refines(SetGlobal(store, 2, NextBump(p, n)), q, caps)
  {
    hide Invoke, AllocBody, Frames, NextBump, AllocAt;
    AllocCall(store, n);
  }

  lemma CopiedIsSplice(mem: seq<byte>, dst: nat, src: nat, n: nat)
    requires src + n <= |mem| && dst + n <= |mem|
    ensures Copied(mem, dst, src, n) == Splice(mem, dst, mem[src..src + n])
  {
  }

  /** Two adjacent splices behind `lo..at` leave the region followed by both pieces. */
  lemma SplicedRegion(mem: seq<byte>, lo: nat, at: nat, a: seq<byte>, b: seq<byte>)
    requires lo <= at && at + |a| + |b| <= |mem|
    ensures var mem2 := Splice(Splice(mem, at, a), at + |a|, b);
            mem2[lo..at + |a| + |b|] == mem[lo..at] + a + b
  {
  }

  /** The frame that is copied is the one the caller named if and only if the prefix did not change it. */
  lemma IntactExactly(store: Store, fp: nat, fl: u32)
    requires StoreOk(store)
    ensures |SentFrame(store, fp, fl)| == |Frame(store, fp, fl)| == if fp + fl <= MEMORY then fl else 0
    ensures fp + fl <= MEMORY ==> (SentFrame(store, fp, fl) == Frame(store, fp, fl) <==> Intact(store, fp, fl))
  {
    if fp + fl <= MEMORY {
      hide BE32;
      var at, mem := QUEUE + store.globals[1], WithPrefix(store, fl);
      var sent, frame := mem[fp..fp + fl], store.mem[fp..fp + fl];
      assert forall i | 0 <= i < MEMORY :: mem[i] == if at <= i < at + 4 then BE32(fl)[i - at] else store.mem[i];
      if sent == frame {
        forall i | fp <= i < fp + fl && at <= i < at + 4 ensures store.mem[i] == BE32(fl)[i - at] {
          assert sent[i - fp] == mem[i] && frame[i - fp] == store.mem[i];
        }
      }
    }
  }

  /** A source that does not overlap the prefix, such as any in the heap, is intact. */
  lemma ApartIsIntact(store: Store, fp: nat, fl: u32)
    requires StoreOk(store) && Misses(fp, fl, QUEUE + store.globals[1], QUEUE + store.globals[1] + 4)
    ensures Intact(store, fp, fl)
  {
  }

  lemma SendRefines(store: Store, q: Fifo, caps: seq<byte>, fp: u32, fl: u32)
    requires Refines(store, q, caps)
    ensures var r := WasmQueue.Send(store, fp, fl);
            && Called(r, store).0 == SendReply(q, fp, fl)
            && Refines(Called(r, store).1, SpecStep(q, Op.Send(fp, fl, 0, 0), store), caps)
  {
    hide Frames, Splice, Copied, BE32, WithPrefix, SentFrame, Needed;
    var qlen := store.globals[1];
    NeededWraps(qlen, fl);
    if SendReply(q, fp, fl) == Answer(V32(0)) {
      SendAccepted(store, q, caps, fp, fl);
    } else if SendReply(q, fp, fl).Failed? {
      TrapRefines(store, q, caps, fl);
    }
  }

  lemma NeededWraps(qlen: u32, fl: u32)
    ensures Needed(qlen, fl) == (qlen + fl + 4) % 0x1_0000_0000
    ensures qlen <= CAPACITY && fl <= MEMORY ==> Needed(qlen, fl) == qlen + fl + 4
  {
  }

  lemma TrapRefines(store: Store, q: Fifo, caps: seq<byte>, fl: u32)
    requires Refines(store, q, caps)
    ensures Refines(store.(mem := WithPrefix(store, fl)),
                    if store.globals[1] + 4 > CAPACITY then q.(polled := []) else q, caps)
  {
    hide Frames, Splice, BE32;
    var at, prefix := QUEUE + store.globals[1], BE32(fl);
    SpliceFrame(store.mem, at, prefix, CAPS_AT, CAPS_AT + |caps|);
    SpliceFrame(store.mem, at, prefix, QUEUE, at);
    if store.globals[1] + 4 <= CAPACITY {
      SpliceFrame(store.mem, at, prefix, OUT, OUT + |q.polled|);
    }
  }

  lemma SendAccepted(store: Store, q: Fifo, caps: seq<byte>, fp: u32, fl: u32)
    requires Refines(store, q, caps) && fp + fl <= MEMORY
    requires store.globals[1] + fl + 4 <= CAPACITY
    ensures var qlen := store.globals[1];
            var after := Store(store.globals[1 := qlen + fl + 4],
                               Copied(WithPrefix(store, fl), QUEUE + qlen + 4, fp, fl));
            Refines(after, q.(queued := q.queued + [SentFrame(store, fp, fl)]), caps)
  {
    hide Frames, Splice, Copied, BE32;
    var f := SentFrame(store, fp, fl);
    var at := QUEUE + store.globals[1];
    var prefix := BE32(fl);
    var mem1 := WithPrefix(store, fl);
    CopiedIsSplice(mem1, at + 4, fp, fl);
    SplicedRegion(store.mem, QUEUE, at, prefix, f);
    FramesPush(q.queued, f);
    SpliceFrame(store.mem, at, prefix, CAPS_AT, CAPS_AT + |caps|);
    SpliceFrame(mem1, at + 4, f, CAPS_AT, CAPS_AT + |caps|);
    SpliceFrame(store.mem, at, prefix, OUT, OUT + |q.polled|);
    SpliceFrame(mem1, at + 4, f, OUT, OUT + |q.polled|);
  }

  lemma PollRefines(store: Store, q: Fifo, caps: seq<byte>)
    requires Refines(store, q, caps)
    ensures var r := WasmQueue.Poll(store);
            && r.Done? && r.value.V64?
            && BlobOf(r.value.y, r.store) == Frames(q.queued)
            && Refines(r.store, q.(polled := Frames(q.queued), queued := []), caps)
  {
    var qlen := store.globals[1];
    var blob := store.mem[QUEUE..QUEUE + qlen];
    assert Frames([]) == [];
    PackedParts(qlen);
    hide Frames, Splice, Copied;
    CopiedIsSplice(store.mem, OUT, QUEUE, qlen);
    SpliceHere(store.mem, OUT, blob);
    SpliceFrame(store.mem, OUT, blob, CAPS_AT, CAPS_AT + |caps|);
  }

  lemma PackedParts(l: u32)
    ensures (OUT * 0x1_0000_0000 + l) / 0x1_0000_0000 == OUT && (OUT * 0x1_0000_0000 + l) % 0x1_0000_0000 == l
  {
  }

  lemma StartStopCalls(store: Store)
    requires |store.globals| == 3
    ensures Invoke(StartBody(), [], store) == Result.Done(V32(0), SetGlobal(store, 0, 1))
    ensures Invoke(StopBody(), [], store) == Result.Done(V32(0), SetGlobal(store, 0, 0))
  {
    hide BitAnd, BitOr, Shr;
    assert [] + ZeroLocals(0) == [];
  }

  lemma StatusCall(store: Store, args: seq<u32>)
    requires |store.globals| == 3
    ensures Invoke(StatusBody(), args, store) == Result.Done(V32(store.globals[0]), store)
  {
    hide BitAnd, BitOr, Shr;
  }

  lemma AckCall(store: Store, args: seq<u32>)
    ensures Invoke(AckBody(), args, store) == Result.Done(V32(0), store)
  {
    hide BitAnd, BitOr, Shr;
  }

  lemma CapsCall(store: Store, n: nat, args: seq<u32>)
    requires n <= MAX_CAPS
    ensures Invoke(CapsBody(n), args, store) == Result.Done(V64(CAPS_AT * 0x1_0000_0000 + n), store)
  {
    hide BitAnd, BitOr, Shr;
    ExecLast(I64Const(0x100_0000_0000 + n), State(store, args + ZeroLocals(0), Empty));
  }

  lemma InertRefines(store: Store, q: Fifo, caps: seq<byte>, op: Op)
    requires Refines(store, q, caps) && Inert(op)
    ensures Perform(QueueModule(caps), op, store).1 == store
    ensures Answers(Perform(QueueModule(caps), op, store).0, op, q, store, store, caps)
  {
    hide QueueModule, Entry, I32s, Invoke, AckBody, CapsBody, StatusBody, Frames, Entry, I32s;
    NamedEntries(caps);
    match op {
      case Init(cp, cl) => AckCall(store, [cp, cl]);
      case Caps =>
        CapsCall(store, |caps|, []);
        assert (CAPS_AT * 0x1_0000_0000 + |caps|) / 0x1_0000_0000 == CAPS_AT;
        assert (CAPS_AT * 0x1_0000_0000 + |caps|) % 0x1_0000_0000 == |caps|;
      case Status => StatusCall(store, []);
      case Attach(mp, sp, up, ul, rp, rl) => AckCall(store, [mp, sp, up, ul, rp, rl]);
      case Detach(mp) => AckCall(store, [mp]);
    }
  }

  lemma PutRefines(store: Store, q: Fifo, caps: seq<byte>, data: seq<byte>)
    requires Refines(store, q, caps) && Tame(Put(data), store)
    ensures var (reply, store') := Perform(QueueModule(caps), Put(data), store);
            Refines(store', SpecStep(q, Put(data), store), caps) && Answers(reply, Put(data), q, store, store', caps)
  {
    hide QueueModule, Entry, I32s, Invoke, AllocBody, Frames, AllocAt, NextBump, Splice, Misses;
    NamedEntries(caps);
    var n: u32 := |data| % 0x1_0000_0000;
    AllocRefines(store, q, caps, n);
    var p := AllocAt(store.globals[2], n);
    var st := SetGlobal(store, 2, NextBump(p, n));
    if p + |data| <= MEMORY {
      HostWriteKeeps(st, q, caps, p, data);
      SpliceHere(st.mem, p, data);
    }
  }

  /** Every step of the bytecode, with any arguments, is a step of the FIFO and answers what the FIFO answers. */
  lemma StepRefines(store: Store, q: Fifo, caps: seq<byte>, op: Op)
    requires Refines(store, q, caps) && Tame(op, store)
    ensures var (reply, store') := Perform(QueueModule(caps), op, store);
            Refines(store', SpecStep(q, op, store), caps) && Answers(reply, op, q, store, store', caps)
  {
    NamedEntries(caps);
    match op {
      case Put(data) => PutRefines(store, q, caps, data);
      case _ =>
        if Inert(op) {
          InertRefines(store, q, caps, op);
        } else {
          OtherStepRefines(store, q, caps, op);
        }
    }
  }

  lemma OtherStepRefines(store: Store, q: Fifo, caps: seq<byte>, op: Op)
    requires Refines(store, q, caps) && Tame(op, store) && !Inert(op) && !op.Put?
    ensures var (reply, store') := Perform(QueueModule(caps), op, store);
            Refines(store', SpecStep(q, op, store), caps) && Answers(reply, op, q, store, store', caps)
  {
    hide QueueModule, Entry, I32s, Invoke, AllocBody, SendBody, PollBody, StartBody, StopBody, Frames, AllocAt,
         NextBump, Splice, WasmQueue.Send, WasmQueue.Poll, BlobOf, SentFrame, Misses;
    NamedEntries(caps);
    match op {
      case Alloc(n) => AllocRefines(store, q, caps, n);
      case Write(at, bytes) =>
        if at + |bytes| <= MEMORY {
          HostWriteKeeps(store, q, caps, at, bytes);
        }
      case Start => StartStopCalls(store);
      case Stop => StartStopCalls(store);
      case Send(fp, fl, rp, rl) =>
        SendCall(store, fp, fl, rp, rl);
        SendRefines(store, q, caps, fp, fl);
      case Poll(limit, mp, count) =>
        PollCall(store, limit, mp, count);
        PollRefines(store, q, caps);
    }
  }

  // ---------- runs ----------

  /** A run's history: the frames that the sends answered 0 named; whether the copy of each was intact; whether an empty
      frame was accepted since the last poll, and whether a non-empty one has ever been accepted behind such a one; the
      blobs the polls handed out, and whether the output region has been left alone since the last; and whether anything
      failed. */
  datatype Ledger = Ledger(store: Store, accepted: seq<seq<byte>>, intact: bool, hole: bool, hidden: bool,
                           blobs: seq<seq<byte>>, kept: bool, failed: bool)

  /** A host write into the output region, or a trapped send whose prefix spills into it. */
  predicate ReachesOutput(op: Op, reply: Reply, store: Store) {
    StoreOk(store) &&
    match op
    case Send(_, _, _, _) => reply.Failed? && store.globals[1] + 4 > CAPACITY
    case Write(at, bytes) => at + |bytes| <= MEMORY && !Misses(at, |bytes|, OUT, OUT + CAPACITY)
    case Put(data) =>
      var at := Landing(op, store).0;
      at + |data| <= MEMORY && !Misses(at, |data|, OUT, OUT + CAPACITY)
    case _ => false
  }

  function Record(m: Module, op: Op, l: Ledger): Ledger
  {
    var (reply, store') := Perform(m, op, l.store);
    var sent := op.Send? && reply == Answer(V32(0));
    Ledger(store',
           if sent then l.accepted + [Frame(l.store, op.fp, op.fl)] else l.accepted,
           l.intact && (sent && StoreOk(l.store) ==> Intact(l.store, op.fp, op.fl)),
           if op.Poll? then false else l.hole || (sent && op.fl == 0),
           l.hidden || (sent && op.fl > 0 && l.hole),
           if op.Poll? && reply.Answer? && reply.value.V64? then l.blobs + [BlobOf(reply.value.y, store')] else l.blobs,
           if op.Poll? then true else l.kept && !ReachesOutput(op, reply, l.store),
           l.failed || reply.Failed?)
  }

  function Run(m: Module, ops: seq<Op>, l: Ledger): Ledger
  {
    if ops == [] then l else Run(m, ops[1..], Record(m, ops[0], l))
  }

  /** The host's writes leave the queue alone at every step of the run. */
  predicate TameRun(m: Module, ops: seq<Op>, l: Ledger)
  {
    ops == [] || (StoreOk(l.store) && Tame(ops[0], l.store) && TameRun(m, ops[1..], Record(m, ops[0], l)))
  }

  predicate SameLengths(a: seq<seq<byte>>, b: seq<seq<byte>>) {
    |a| == |b| && forall k | 0 <= k < |a| :: |a[k]| == |b[k]| <= MAX_FRAME
  }

  /** No batch has a non-empty frame behind an empty one, nor has the queue, unless the ledger says so. */
  predicate HolesTold(l: Ledger, q: Fifo, batches: seq<seq<seq<byte>>>) {
    && (l.hole <==> !NoneEmpty(q.queued))
    && (l.hidden <==> !(EmptyLast(q.queued) && AllEmptyLast(batches)))
  }

  /** The last blob is still where it was polled, unless the ledger says otherwise. */
  predicate OutputTold(l: Ledger, q: Fifo) {
    l.blobs != [] && l.kept ==> q.polled == l.blobs[|l.blobs| - 1]
  }

  ghost predicate Explained(l: Ledger, q: Fifo, batches: seq<seq<seq<byte>>>, sent: seq<seq<byte>>, caps: seq<byte>) {
    Traced(l, q, batches, sent, caps) && HolesTold(l, q, batches) && OutputTold(l, q)
  }

  ghost predicate Traced(l: Ledger, q: Fifo, batches: seq<seq<seq<byte>>>, sent: seq<seq<byte>>, caps: seq<byte>) {
    && Refines(l.store, q, caps)
    && |batches| == |l.blobs|
    && (forall k | 0 <= k < |batches| :: l.blobs[k] == Frames(batches[k]))
    && sent == Flatten(batches) + q.queued
    && SameLengths(sent, l.accepted)
    && (l.intact <==> sent == l.accepted)
  }

  function SentBy(op: Op, reply: Reply, store: Store): seq<seq<byte>> {
    if op.Send? && reply == Answer(V32(0)) && StoreOk(store) then [SentFrame(store, op.fp, op.fl)] else []
  }

  lemma PushSame<T>(a: seq<T>, b: seq<T>, x: T, y: T)
    requires |a| == |b|
    ensures a + [x] == b + [y] <==> a == b && x == y
  {
    assert |a + [x]| == |a| + 1 && |b + [y]| == |b| + 1;
    if a + [x] == b + [y] {
      assert a == (a + [x])[..|a|] && b == (b + [y])[..|b|];
      assert (a + [x])[|a|] == x && (b + [y])[|b|] == y;
    }
  }

  lemma RecordExplained(l: Ledger, q: Fifo, batches: seq<seq<seq<byte>>>, sent: seq<seq<byte>>, caps: seq<byte>, op: Op)
    requires Explained(l, q, batches, sent, caps) && Tame(op, l.store)
    ensures Explained(Record(QueueModule(caps), op, l), SpecStep(q, op, l.store),
                      if op.Poll? then batches + [q.queued] else batches,
                      sent + SentBy(op, Perform(QueueModule(caps), op, l.store).0, l.store), caps)
  {
    hide Perform, QueueModule, Frames, BlobOf, Refines, SentFrame, Frame, Intact, Misses, Landing, HolesTold,
         OutputTold, Traced;
    RecordTraced(l, q, batches, sent, caps, op);
    RecordHoles(l, q, batches, sent, caps, op);
    RecordOutput(l, q, batches, sent, caps, op);
  }

  lemma RecordTraced(l: Ledger, q: Fifo, batches: seq<seq<seq<byte>>>, sent: seq<seq<byte>>, caps: seq<byte>, op: Op)
    requires Traced(l, q, batches, sent, caps) && Tame(op, l.store)
    ensures Traced(Record(QueueModule(caps), op, l), SpecStep(q, op, l.store),
                   if op.Poll? then batches + [q.queued] else batches,
                   sent + SentBy(op, Perform(QueueModule(caps), op, l.store).0, l.store), caps)
  {
    hide Perform, QueueModule, Frames, BlobOf, Refines, SentFrame, Frame, Intact, Misses, Landing, ReachesOutput,
         SameLengths;
    StepRefines(l.store, q, caps, op);
    assert StoreOk(l.store) && l.store.globals[1] == |Frames(q.queued)| by { RefinesStore(l.store, q, caps); }
    var (reply, store') := Perform(QueueModule(caps), op, l.store);
    assert sent + [] == sent;
    if op.Poll? {
      FlattenPush(batches, q.queued);
    } else if op.Send? && reply == Answer(V32(0)) {
      var f, named := SentFrame(l.store, op.fp, op.fl), Frame(l.store, op.fp, op.fl);
      IntactExactly(l.store, op.fp, op.fl);
      Assoc(Flatten(batches), q.queued, [f]);
      SameLengthsPush(sent, l.accepted, f, named);
      PushSame(sent, l.accepted, f, named);
    }
  }

  lemma SameLengthsPush(a: seq<seq<byte>>, b: seq<seq<byte>>, x: seq<byte>, y: seq<byte>)
    requires SameLengths(a, b) && |x| == |y| <= MAX_FRAME
    ensures |a| == |b| && SameLengths(a + [x], b + [y])
  {
  }

  lemma RecordHoles(l: Ledger, q: Fifo, batches: seq<seq<seq<byte>>>, sent: seq<seq<byte>>, caps: seq<byte>, op: Op)
    requires Traced(l, q, batches, sent, caps) && HolesTold(l, q, batches) && Tame(op, l.store)
    ensures HolesTold(Record(QueueModule(caps), op, l), SpecStep(q, op, l.store),
                      if op.Poll? then batches + [q.queued] else batches)
  {
    hide Perform, QueueModule, Frames, BlobOf, Refines, SentFrame, Frame, Intact, Misses, Landing, ReachesOutput,
         Flatten, SameLengths, EmptyLast, NoneEmpty;
    StepRefines(l.store, q, caps, op);
    assert StoreOk(l.store) && l.store.globals[1] == |Frames(q.queued)| by { RefinesStore(l.store, q, caps); }
    var (reply, store') := Perform(QueueModule(caps), op, l.store);
    if op.Poll? {
      NothingEmpty();
      AllPushed(batches, q.queued);
    } else if op.Send? && reply == Answer(V32(0)) {
      var f := SentFrame(l.store, op.fp, op.fl);
      IntactExactly(l.store, op.fp, op.fl);
      EmptyLastPush(q.queued, f);
    }
  }

  lemma NothingEmpty()
    ensures NoneEmpty([]) && EmptyLast([])
  {
  }

  lemma AllPushed(batches: seq<seq<seq<byte>>>, batch: seq<seq<byte>>)
    ensures AllEmptyLast(batches + [batch]) <==> EmptyLast(batch) && AllEmptyLast(batches)
  {
    hide EmptyLast;
    var all := batches + [batch];
    assert all[|batches|] == batch && forall k | 0 <= k < |batches| :: all[k] == batches[k];
  }

  lemma RecordOutput(l: Ledger, q: Fifo, batches: seq<seq<seq<byte>>>, sent: seq<seq<byte>>, caps: seq<byte>, op: Op)
    requires Traced(l, q, batches, sent, caps) && OutputTold(l, q) && Tame(op, l.store)
    ensures OutputTold(Record(QueueModule(caps), op, l), SpecStep(q, op, l.store))
  {
    hide Perform, QueueModule, Frames, BlobOf, Refines, SentFrame, Frame, Intact, Misses, Flatten, SameLengths, AllocAt;
    StepRefines(l.store, q, caps, op);
    assert StoreOk(l.store) && l.store.globals[1] == |Frames(q.queued)| by { RefinesStore(l.store, q, caps); }
    var (reply, store') := Perform(QueueModule(caps), op, l.store);
    assert SpecStep(q, op, l.store).polled == q.polled || op.Poll? || ReachesOutput(op, reply, l.store);
  }

  lemma RefinesStore(store: Store, q: Fifo, caps: seq<byte>)
    requires Refines(store, q, caps)
    ensures StoreOk(store) && store.globals[1] == |Frames(q.queued)|
  {
  }

  lemma {:induction false} RunExplained(l: Ledger, q: Fifo, batches: seq<seq<seq<byte>>>, sent: seq<seq<byte>>,
                                        caps: seq<byte>, ops: seq<Op>)
    returns (q': Fifo, batches': seq<seq<seq<byte>>>, sent': seq<seq<byte>>)
    requires Explained(l, q, batches, sent, caps)
    requires TameRun(QueueModule(caps), ops, l)
    ensures Explained(Run(QueueModule(caps), ops, l), q', batches', sent', caps)
    decreases |ops|
  {
    hide QueueModule, Explained, Record, Tame, SpecStep, SentBy, Perform;
    if ops == [] {
      q', batches', sent' := q, batches, sent;
    } else {
      var op := ops[0];
      RecordExplained(l, q, batches, sent, caps, op);
      var next := if op.Poll? then batches + [q.queued] else batches;
      var more := sent + SentBy(op, Perform(QueueModule(caps), op, l.store).0, l.store);
      q', batches', sent' :=
        RunExplained(Record(QueueModule(caps), op, l), SpecStep(q, op, l.store), next, more, caps, ops[1..]);
    }
  }

  function Fresh(caps: seq<byte>): Ledger
    requires |caps| <= MAX_CAPS
  {
    Ledger(FreshStore(caps), [], true, false, false, [], true, false)
  }

  lemma FreshExplained(caps: seq<byte>)
    requires |caps| <= MAX_CAPS
    ensures Explained(Fresh(caps), Fifo(false, [], []), [], [], caps)
  {
    SpliceHere(seq(MEMORY, _ => 0), CAPS_AT, caps);
  }

  function QueueRegion(store: Store): seq<byte> {
    if StoreOk(store) then store.mem[QUEUE..QUEUE + store.globals[1]] else []
  }

  /** Everything the host's decoder yields for a list of blobs. */
  function DecodeAll(blobs: seq<seq<byte>>): seq<seq<byte>> {
    if blobs == [] then [] else DecodeFrames(blobs[0]).frames + DecodeAll(blobs[1..])
  }

  lemma {:induction false} FramesOfFlatten(blobs: seq<seq<byte>>, batches: seq<seq<seq<byte>>>)
    requires |blobs| == |batches| && forall k | 0 <= k < |blobs| :: blobs[k] == Frames(batches[k])
    ensures Flatten(blobs) == Frames(Flatten(batches))
  {
    if blobs != [] {
      FramesOfFlatten(blobs[1..], batches[1..]);
      FramesAppend(batches[0], Flatten(batches[1..]));
    }
  }

  lemma {:induction false} BeforeEmptyLength(fs: seq<seq<byte>>)
    ensures |BeforeEmpty(fs)| <= |fs| && (|BeforeEmpty(fs)| == |fs| <==> NoneEmpty(fs))
  {
    NoEmptyNoLoss(fs);
    if fs != [] {
      BeforeEmptyLength(fs[1..]);
      NoneEmptyStep(fs);
    }
  }

  lemma NoneEmptyAppend(a: seq<seq<byte>>, b: seq<seq<byte>>)
    ensures NoneEmpty(a + b) <==> NoneEmpty(a) && NoneEmpty(b)
  {
    if NoneEmpty(a + b) {
      assert forall k | 0 <= k < |a| :: a[k] == (a + b)[k];
      assert forall k | 0 <= k < |b| :: b[k] == (a + b)[|a| + k];
    }
  }

  /** Decoding batch by batch loses frames exactly when some frame is empty. */
  lemma {:induction false} DecodeAllExact(blobs: seq<seq<byte>>, batches: seq<seq<seq<byte>>>)
    requires |blobs| == |batches| && forall k | 0 <= k < |blobs| :: blobs[k] == Frames(batches[k])
    requires forall k | 0 <= k < |Flatten(batches)| :: |Flatten(batches)[k]| <= MAX_FRAME
    ensures |DecodeAll(blobs)| <= |Flatten(batches)|
    ensures |DecodeAll(blobs)| == |Flatten(batches)| <==> NoneEmpty(Flatten(batches))
    ensures NoneEmpty(Flatten(batches)) ==> DecodeAll(blobs) == Flatten(batches)
  {
    if blobs != [] {
      var all, rest := Flatten(batches), Flatten(batches[1..]);
      assert forall k | 0 <= k < |batches[0]| :: batches[0][k] == all[k];
      assert forall k | 0 <= k < |rest| :: rest[k] == all[|batches[0]| + k];
      DecodeExact(batches[0]);
      BeforeEmptyLength(batches[0]);
      NoEmptyNoLoss(batches[0]);
      NoneEmptyAppend(batches[0], rest);
      DecodeAllExact(blobs[1..], batches[1..]);
    }
  }

  /** Decoding batch by batch gets the non-empty frames exactly when none of them stands behind an empty one. */
  lemma {:induction false} DecodeAllGets(blobs: seq<seq<byte>>, batches: seq<seq<seq<byte>>>)
    requires |blobs| == |batches| && forall k | 0 <= k < |blobs| :: blobs[k] == Frames(batches[k])
    requires forall k | 0 <= k < |Flatten(batches)| :: |Flatten(batches)[k]| <= MAX_FRAME
    ensures |DecodeAll(blobs)| <= |NonEmpty(Flatten(batches))|
    ensures |DecodeAll(blobs)| == |NonEmpty(Flatten(batches))| <==> AllEmptyLast(batches)
    ensures AllEmptyLast(batches) ==> DecodeAll(blobs) == NonEmpty(Flatten(batches))
  {
    if blobs == [] {
      assert Flatten(batches) == [] && NonEmpty([]) == [];
    } else {
      var all, rest := Flatten(batches), Flatten(batches[1..]);
      assert forall k | 0 <= k < |batches[0]| :: batches[0][k] == all[k];
      assert forall k | 0 <= k < |rest| :: rest[k] == all[|batches[0]| + k];
      hide Frames, DecodeFrames, BeforeEmpty, EmptyLast, NonEmpty;
      DecodeExact(batches[0]);
      BeforeEmptyExact(batches[0]);
      NonEmptyAppend(batches[0], rest);
      DecodeAllGets(blobs[1..], batches[1..]);
      AllEmptyLastCons(batches);
      hide AllEmptyLast;
    }
  }

  predicate AllEmptyLast(batches: seq<seq<seq<byte>>>) {
    forall k | 0 <= k < |batches| :: EmptyLast(batches[k])
  }

  lemma AllEmptyLastCons(batches: seq<seq<seq<byte>>>)
    requires batches != []
    ensures AllEmptyLast(batches) <==> EmptyLast(batches[0]) && AllEmptyLast(batches[1..])
  {
    hide EmptyLast;
    assert forall k | 1 <= k < |batches| :: batches[k] == batches[1..][k - 1];
  }

  /** For every run of host calls on a fresh instance, with any arguments, whose host writes leave the queue alone: the
      polled bytes followed by the queued bytes are the framing of the accepted frames in order if and only if every
      accepted frame was intact when it was copied; and the frames that the host's decoder yields are the non-empty
      accepted frames in order if and only if in addition none of those was accepted behind an empty one since the last
      poll. (An empty frame itself is never decoded.) */
  lemma QueueConserves(caps: seq<byte>, ops: seq<Op>)
    requires |caps| <= MAX_CAPS
    requires TameRun(QueueModule(caps), ops, Fresh(caps))
    ensures var l := Run(QueueModule(caps), ops, Fresh(caps));
            && |Flatten(l.blobs) + QueueRegion(l.store)| == |Frames(l.accepted)|
            && (Flatten(l.blobs) + QueueRegion(l.store) == Frames(l.accepted) <==> l.intact)
            && (DecodeAll(l.blobs) + DecodeFrames(QueueRegion(l.store)).frames == NonEmpty(l.accepted)
                <==> l.intact && !l.hidden)
            && (DecodeAll(l.blobs) + DecodeFrames(QueueRegion(l.store)).frames == l.accepted
                <==> l.intact && NoneEmpty(l.accepted))
  {
    hide Run, TameRun, Explained, QueueModule;
    FreshExplained(caps);
    var q, batches, sent := RunExplained(Fresh(caps), Fifo(false, [], []), [], [], caps, ops);
    LedgerConserves(Run(QueueModule(caps), ops, Fresh(caps)), q, batches, sent, caps);
    LedgerDecodes(Run(QueueModule(caps), ops, Fresh(caps)), q, batches, sent, caps);
  }

  /** The same for the bytes that the assembler emits: they decode to a module, which instantiates, and over any such
      run of calls by name against it polled and queued frames are the accepted ones under the same conditions. */
  lemma EmittedBytesConserve(caps: seq<byte>, bytes: seq<byte>, ops: seq<Op>, m: Module, st: Store)
    requires |caps| <= MAX_CAPS && bytes == EncodeModule(QueueModule(caps))
    requires ReadModule(bytes) == Some(m) && Instantiate(m) == Some(st)
    requires TameRun(m, ops, Ledger(st, [], true, false, false, [], true, false))
    ensures var l := Run(m, ops, Ledger(st, [], true, false, false, [], true, false));
            && (Flatten(l.blobs) + QueueRegion(l.store) == Frames(l.accepted) <==> l.intact)
            && (DecodeAll(l.blobs) + DecodeFrames(QueueRegion(l.store)).frames == NonEmpty(l.accepted)
                <==> l.intact && !l.hidden)
  {
    hide Run, TameRun, QueueModule, EncodeModule, ReadModule, Instantiate, FreshStore;
    QueueModuleParses(caps);
    QueueModuleInstantiates(caps);
    QueueConserves(caps, ops);
  }

  /** And they do decode and instantiate. */
  lemma EmittedBytesLoad(caps: seq<byte>)
    requires |caps| <= MAX_CAPS
    ensures var m := ReadModule(EncodeModule(QueueModule(caps)));
            m.Some? && Instantiate(m.value) == Some(FreshStore(caps))
  {
    hide QueueModule, EncodeModule, ReadModule, Instantiate, FreshStore;
    QueueModuleParses(caps);
    QueueModuleInstantiates(caps);
  }

  /** A polled blob stays in the output region until the next poll, over any such run, unless a host write or a spilling
      trap reaches that region. */
  lemma BlobSurvives(caps: seq<byte>, ops: seq<Op>)
    requires |caps| <= MAX_CAPS
    requires TameRun(QueueModule(caps), ops, Fresh(caps))
    ensures var l := Run(QueueModule(caps), ops, Fresh(caps));
            l.blobs != [] && l.kept ==> LastBlobHeld(l)
  {
    hide Run, TameRun, Explained, QueueModule, LastBlobHeld;
    FreshExplained(caps);
    var q, batches, sent := RunExplained(Fresh(caps), Fifo(false, [], []), [], [], caps, ops);
    BlobHeld(Run(QueueModule(caps), ops, Fresh(caps)), q, batches, sent, caps);
  }

  predicate LastBlobHeld(l: Ledger)
    requires l.blobs != []
  {
    var blob := l.blobs[|l.blobs| - 1];
    OUT + |blob| <= |l.store.mem| && l.store.mem[OUT..OUT + |blob|] == blob
  }

  lemma BlobHeld(l: Ledger, q: Fifo, batches: seq<seq<seq<byte>>>, sent: seq<seq<byte>>, caps: seq<byte>)
    requires Explained(l, q, batches, sent, caps)
    ensures l.blobs != [] && l.kept ==> LastBlobHeld(l)
  {
    hide Frames, HolesTold, SameLengths, Flatten;
  }

  /** Framings of frames with the same lengths are equal only for equal frames. */
  lemma {:induction false} FramesInjective(a: seq<seq<byte>>, b: seq<seq<byte>>)
    requires SameLengths(a, b)
    ensures |Frames(a)| == |Frames(b)|
    ensures Frames(a) == Frames(b) <==> a == b
  {
    if a != [] {
      FramesInjective(a[1..], b[1..]);
      hide BE32;
      assert a == [a[0]] + a[1..] && b == [b[0]] + b[1..];
      var p, x, y := BE32(|a[0]|), Frames(a[1..]), Frames(b[1..]);
      if p + a[0] + x == p + b[0] + y {
        assert a[0] == (p + a[0] + x)[4..4 + |a[0]|] && b[0] == (p + b[0] + y)[4..4 + |b[0]|];
        assert x == (p + a[0] + x)[4 + |a[0]|..] && y == (p + b[0] + y)[4 + |b[0]|..];
      }
    }
  }

  lemma SameLengthsEmpty(a: seq<seq<byte>>, b: seq<seq<byte>>)
    requires SameLengths(a, b)
    ensures NoneEmpty(a) <==> NoneEmpty(b)
  {
    assert forall k | 0 <= k < |a| :: a[k] == [] <==> b[k] == [];
  }

  /** What the decoder yields from the blobs and the queue, against the frames that were copied. */
  lemma DecodedSent(l: Ledger, q: Fifo, batches: seq<seq<seq<byte>>>, sent: seq<seq<byte>>, caps: seq<byte>)
    requires Explained(l, q, batches, sent, caps)
    ensures Flatten(l.blobs) + QueueRegion(l.store) == Frames(sent)
    ensures var got := DecodeAll(l.blobs) + DecodeFrames(QueueRegion(l.store)).frames;
            && |got| <= |sent| && (|got| == |sent| <==> NoneEmpty(sent)) && (NoneEmpty(sent) ==> got == sent)
  {
    hide Frames, DecodeFrames, NoneEmpty, DecodeAll, HolesTold, OutputTold;
    var polled := Flatten(batches);
    assert QueueRegion(l.store) == Frames(q.queued);
    FramesOfFlatten(l.blobs, batches);
    FramesAppend(polled, q.queued);
    assert forall k | 0 <= k < |polled| :: polled[k] == sent[k];
    assert forall k | 0 <= k < |q.queued| :: q.queued[k] == sent[|polled| + k];
    DecodeAllExact(l.blobs, batches);
    DecodeExact(q.queued);
    BeforeEmptyLength(q.queued);
    NoEmptyNoLoss(q.queued);
    NoneEmptyAppend(polled, q.queued);
  }

  lemma LedgerConserves(l: Ledger, q: Fifo, batches: seq<seq<seq<byte>>>, sent: seq<seq<byte>>, caps: seq<byte>)
    requires Explained(l, q, batches, sent, caps)
    ensures |Flatten(l.blobs) + QueueRegion(l.store)| == |Frames(l.accepted)|
    ensures Flatten(l.blobs) + QueueRegion(l.store) == Frames(l.accepted) <==> l.intact
    ensures DecodeAll(l.blobs) + DecodeFrames(QueueRegion(l.store)).frames == l.accepted
            <==> l.intact && NoneEmpty(l.accepted)
  {
    hide Frames, DecodeFrames, NoneEmpty, DecodeAll, QueueRegion, SameLengths, Refines, HolesTold, OutputTold;
    DecodedSent(l, q, batches, sent, caps);
    FramesInjective(sent, l.accepted);
    SameLengthsEmpty(sent, l.accepted);
    assert |sent| == |l.accepted| by { SameCount(sent, l.accepted); }
  }

  lemma {:induction false} NonEmptyInjective(a: seq<seq<byte>>, b: seq<seq<byte>>)
    requires SameLengths(a, b)
    ensures |NonEmpty(a)| == |NonEmpty(b)|
    ensures NonEmpty(a) == NonEmpty(b) <==> a == b
  {
    if a != [] {
      NonEmptyInjective(a[1..], b[1..]);
      assert a == [a[0]] + a[1..] && b == [b[0]] + b[1..];
      var x, y := NonEmpty(a[1..]), NonEmpty(b[1..]);
      assert [] + x == x && [] + y == y && |a[0]| == |b[0]|;
      assert a == b <==> a[0] == b[0] && a[1..] == b[1..];
      if a[0] != [] && [a[0]] + x == [b[0]] + y {
        assert x == ([a[0]] + x)[1..] && y == ([b[0]] + y)[1..] && a[0] == ([a[0]] + x)[0] && b[0] == ([b[0]] + y)[0];
      }
    }
  }

  lemma LedgerDecodes(l: Ledger, q: Fifo, batches: seq<seq<seq<byte>>>, sent: seq<seq<byte>>, caps: seq<byte>)
    requires Explained(l, q, batches, sent, caps)
    ensures DecodeAll(l.blobs) + DecodeFrames(QueueRegion(l.store)).frames == NonEmpty(l.accepted)
            <==> l.intact && !l.hidden
  {
    hide Frames, DecodeFrames, NoneEmpty, DecodeAll, NonEmpty, EmptyLast, OutputTold, BeforeEmpty;
    var polled := Flatten(batches);
    assert QueueRegion(l.store) == Frames(q.queued);
    assert forall k | 0 <= k < |polled| :: polled[k] == sent[k];
    assert forall k | 0 <= k < |q.queued| :: q.queued[k] == sent[|polled| + k];
    DecodeAllGets(l.blobs, batches);
    DecodeExact(q.queued);
    BeforeEmptyExact(q.queued);
    NonEmptyAppend(polled, q.queued);
    NonEmptyInjective(sent, l.accepted);
    hide SameLengths, Refines, QueueRegion;
    var got := DecodeAll(l.blobs) + DecodeFrames(QueueRegion(l.store)).frames;
    assert !l.hidden <==> |got| == |NonEmpty(sent)|;
    assert !l.hidden ==> got == NonEmpty(sent);
  }

  lemma SameCount(a: seq<seq<byte>>, b: seq<seq<byte>>)
    requires SameLengths(a, b)
    ensures |a| == |b|
  {
  }

  // ---------- refusals and traps ----------

  /** The size check adds in 32 bits: it disagrees with the true sum exactly when that sum passes 2^32 by at most the
      capacity, so `ntx_send` answers 3 precisely on oversized frames except for those lengths. */
  lemma SizeCheckExact(qlen: u32, fl: u32)
    requires qlen <= CAPACITY
    ensures (Needed(qlen, fl) > CAPACITY <==> qlen + fl + 4 > CAPACITY)
       <==> !(0x1_0000_0000 <= qlen + fl + 4 <= 0x1_0000_0000 + CAPACITY)
  {
  }

  function OutputRegion(store: Store): seq<byte> {
    if |store.mem| == MEMORY then store.mem[OUT..OUT + CAPACITY] else []
  }

  /** For every argument: a send traps exactly when it passes the checks but its frame does not lie in memory. A trap,
      like a refusal, leaves the globals and the queued bytes alone; it leaves the output region alone if the prefix
      still fits the queue region, and otherwise exactly when the bytes that spill over were there already. */
  lemma TrapKeepsQueue(store: Store, fp: u32, fl: u32)
    requires StoreOk(store)
    ensures var r, qlen := WasmQueue.Send(store, fp, fl), store.globals[1];
            && (r.Trapped? <==> store.globals[0] != 0 && Needed(qlen, fl) <= CAPACITY && fp + fl > MEMORY)
            && (r.Done? && r.value != V32(0) ==> r.store == store)
            && (r.Trapped? ==>
                  && r.store.globals == store.globals && StoreOk(r.store) && QueueRegion(r.store) == QueueRegion(store)
                  && (OutputRegion(r.store) == OutputRegion(store)
                      <==> forall i | CAPACITY - qlen <= i < 4 :: store.mem[QUEUE + qlen + i] == BE32(fl)[i]))
  {
    hide BE32;
    var r := WasmQueue.Send(store, fp, fl);
    if r.Trapped? {
      SpliceFrame(store.mem, QUEUE + store.globals[1], BE32(fl), QUEUE, QUEUE + store.globals[1]);
      SpillExactly(store, fl);
    }
  }

  lemma SpillExactly(store: Store, fl: u32)
    requires StoreOk(store)
    ensures WithPrefix(store, fl)[OUT..OUT + CAPACITY] == store.mem[OUT..OUT + CAPACITY]
       <==> forall i | CAPACITY - store.globals[1] <= i < 4 :: store.mem[QUEUE + store.globals[1] + i] == BE32(fl)[i]
  {
    hide BE32;
    var at, mem := QUEUE + store.globals[1], WithPrefix(store, fl);
    assert forall i | 0 <= i < MEMORY :: mem[i] == if at <= i < at + 4 then BE32(fl)[i - at] else store.mem[i];
    if mem[OUT..OUT + CAPACITY] == store.mem[OUT..OUT + CAPACITY] {
      forall i | CAPACITY - store.globals[1] <= i < 4 ensures store.mem[at + i] == BE32(fl)[i] {
        assert mem[OUT..OUT + CAPACITY][at + i - OUT] == mem[at + i];
        assert store.mem[OUT..OUT + CAPACITY][at + i - OUT] == store.mem[at + i];
      }
    }
  }

  // ---------- runs in which the decoder does not get the frames ----------

  lemma SentToEmpty(store: Store, fp: u32, fl: u32)
    requires StoreOk(store) && store.globals[0] == 1 && store.globals[1] == 0 && fp + fl <= MEMORY && fl + 4 <= CAPACITY
    ensures var r := WasmQueue.Send(store, fp, fl);
            && r.Done? && r.value == V32(0) && StoreOk(r.store)
            && QueueRegion(r.store) == BE32(fl) + SentFrame(store, fp, fl)
  {
    hide BE32, Splice, Copied;
    CopiedIsSplice(WithPrefix(store, fl), QUEUE + 4, fp, fl);
    SplicedRegion(store.mem, QUEUE, QUEUE, BE32(fl), SentFrame(store, fp, fl));
    assert store.mem[QUEUE..QUEUE] + BE32(fl) == BE32(fl);
  }

  lemma StartThenSend(caps: seq<byte>, fp: u32, fl: u32)
    requires |caps| <= MAX_CAPS && fp + fl <= MEMORY && fl + 4 <= CAPACITY
    ensures var started := SetGlobal(FreshStore(caps), 0, 1);
            var l := Run(QueueModule(caps), [Start, Op.Send(fp, fl, 0, 0)], Fresh(caps));
            && l.accepted == [Frame(started, fp, fl)] && l.blobs == [] && !l.failed
            && StoreOk(started) && QueueRegion(l.store) == BE32(fl) + SentFrame(started, fp, fl)
  {
    hide QueueModule, Entry, I32s, Invoke, StartBody, SendBody, Splice, BE32, WasmQueue.Send, SentFrame, Frame, Intact,
         QueueRegion;
    NamedEntries(caps);
    var m, l0 := QueueModule(caps), Fresh(caps);
    var started := SetGlobal(FreshStore(caps), 0, 1);
    StartStopCalls(FreshStore(caps));
    SendCall(started, fp, fl, 0, 0);
    SentToEmpty(started, fp, fl);
    var send := Op.Send(fp, fl, 0, 0);
    var l1 := Record(m, Start, l0);
    assert l1.store == started;
    assert [Start, send][1..] == [send] && [send][1..] == [];
    assert Run(m, [Start, send], l0) == Run(m, [send], l1) == Run(m, [], Record(m, send, l1));
  }

  /** A frame whose source is the end of the queue: four zero bytes are accepted, and their length prefix is queued in
      their place. */
  lemma AliasedSend(caps: seq<byte>)
    requires |caps| <= MAX_CAPS
    ensures var l := Run(QueueModule(caps), [Start, Op.Send(QUEUE, 4, 0, 0)], Fresh(caps));
            l.accepted == [[0, 0, 0, 0]] && QueueRegion(l.store) == Frames([[0, 0, 0, 4]]) && !l.failed
  {
    hide Run, QueueModule;
    StartThenSend(caps, QUEUE, 4);
    var started := SetGlobal(FreshStore(caps), 0, 1);
    assert BE32(4) == [0, 0, 0, 4];
    assert Frame(started, QUEUE, 4) == [0, 0, 0, 0];
    assert SentFrame(started, QUEUE, 4) == [0, 0, 0, 4];
    assert Frames([[0, 0, 0, 4]]) == BE32(4) + [0, 0, 0, 4] + Frames([]);
  }

  /** An empty frame is accepted, and the decoder does not get it. */
  lemma EmptyFrameLost(caps: seq<byte>)
    requires |caps| <= MAX_CAPS
    ensures var l := Run(QueueModule(caps), [Start, Op.Send(HEAP, 0, 0, 0)], Fresh(caps));
            && l.accepted == [[]] && !l.failed && Intact(SetGlobal(FreshStore(caps), 0, 1), HEAP, 0)
            && DecodeAll(l.blobs) + DecodeFrames(QueueRegion(l.store)).frames == []
  {
    hide Run, QueueModule;
    StartThenSend(caps, HEAP, 0);
    DecodeStep([], []);
    assert BE32(0) + [] + [] == BE32(0) + [];
  }

  /** One call of a run on a running instance, in terms of the queue. */
  lemma NextCall(l: Ledger, q: Fifo, batches: seq<seq<seq<byte>>>, sent: seq<seq<byte>>, caps: seq<byte>, op: Op)
    requires Explained(l, q, batches, sent, caps) && !op.Write? && !op.Put?
    ensures StoreOk(l.store)
    ensures Explained(Record(QueueModule(caps), op, l), SpecStep(q, op, l.store),
                      if op.Poll? then batches + [q.queued] else batches,
                      sent + SentBy(op, Perform(QueueModule(caps), op, l.store).0, l.store), caps)
    ensures Answers(Perform(QueueModule(caps), op, l.store).0, op, q, l.store,
                    Perform(QueueModule(caps), op, l.store).1, caps)
  {
    hide Perform, QueueModule, Frames, Record, SpecStep, SentBy, Answers, HolesTold, OutputTold, Flatten, SameLengths;
    RefinesStore(l.store, q, caps);
    assert Tame(op, l.store);
    RecordExplained(l, q, batches, sent, caps, op);
    StepRefines(l.store, q, caps, op);
  }

  /** A send from the heap that finds room is accepted intact. */
  lemma NextSend(l: Ledger, q: Fifo, sent: seq<seq<byte>>, caps: seq<byte>, fl: u32)
    requires Explained(l, q, [], sent, caps) && q.running && |Frames(q.queued)| + fl + 4 <= 100
    ensures StoreOk(l.store)
    ensures var send := Op.Send(HEAP, fl, 0, 0);
            var l' := Record(QueueModule(caps), send, l);
            && l'.accepted == l.accepted + [Frame(l.store, HEAP, fl)] && |Frame(l.store, HEAP, fl)| == fl
            && l'.intact == l.intact && l'.failed == l.failed && l'.blobs == l.blobs
            && SpecStep(q, send, l.store).queued == q.queued + [SentFrame(l.store, HEAP, fl)]
            && SpecStep(q, send, l.store).running && |SentFrame(l.store, HEAP, fl)| == fl
            && Explained(l', SpecStep(q, send, l.store), [], sent + [SentFrame(l.store, HEAP, fl)], caps)
  {
    hide Perform, QueueModule, Explained, Refines, Intact, Frame, SentFrame, ReachesOutput, Frames;
    NextCall(l, q, [], sent, caps, Op.Send(HEAP, fl, 0, 0));
    IntactExactly(l.store, HEAP, fl);
    PoliteIntact(l.store, HEAP, fl);
  }

  /** A non-empty frame behind an empty one: both are accepted, one poll hands out both, and the decoder gets neither.
      */
  lemma HiddenFrameLost(caps: seq<byte>)
    requires |caps| <= MAX_CAPS
    ensures var ops := [Start, Op.Send(HEAP, 0, 0, 0), Op.Send(HEAP, 1, 0, 0), Poll(1, 0, 0)];
            var l := Run(QueueModule(caps), ops, Fresh(caps));
            && |l.accepted| == 2 && l.accepted[0] == [] && |l.accepted[1]| == 1 && l.intact && !l.failed
            && |l.blobs| == 1 && QueueRegion(l.store) == [] && DecodeAll(l.blobs) == []
  {
    hide Perform, QueueModule, Explained, Refines, QueueRegion, DecodeAll, Intact, Frame, SentFrame, ReachesOutput,
         BlobOf, Frames;
    FreshExplained(caps);
    NamedEntries(caps);
    ShortFrames();
    var m, l0, q0 := QueueModule(caps), Fresh(caps), Fifo(false, [], []);
    var empty, one, poll := Op.Send(HEAP, 0, 0, 0), Op.Send(HEAP, 1, 0, 0), Poll(1, 0, 0);
    NextCall(l0, q0, [], [], caps, Start);
    var l1, q1 := Record(m, Start, l0), SpecStep(q0, Start, l0.store);
    assert [] + SentBy(Start, Perform(m, Start, l0.store).0, l0.store) == [];
    assert l1.accepted == [] && l1.intact && !l1.failed && l1.blobs == [] && q1 == Fifo(true, [], []);
    NextSend(l1, q1, [], caps, 0);
    var l2, q2 := Record(m, empty, l1), SpecStep(q1, empty, l1.store);
    assert q2.queued == [[]] && l2.accepted == [[]];
    NextSend(l2, q2, [] + [SentFrame(l1.store, HEAP, 0)], caps, 1);
    var l3, q3 := Record(m, one, l2), SpecStep(q2, one, l2.store);
    FourSteps(m, Start, empty, one, poll, l0);
    PollHidden(l3, q3, [] + [SentFrame(l1.store, HEAP, 0)] + [SentFrame(l2.store, HEAP, 1)], caps);
  }

  lemma PollHidden(l: Ledger, q: Fifo, sent: seq<seq<byte>>, caps: seq<byte>)
    requires Explained(l, q, [], sent, caps) && |q.queued| == 2 && q.queued[0] == [] && |q.queued[1]| == 1
    ensures var l' := Record(QueueModule(caps), Poll(1, 0, 0), l);
            && l'.accepted == l.accepted && l'.intact == l.intact && l'.failed == l.failed
            && |l'.blobs| == 1 && QueueRegion(l'.store) == [] && DecodeAll(l'.blobs) == []
  {
    hide Perform, QueueModule, Explained, Refines, QueueRegion, DecodeAll, ReachesOutput, BlobOf, Frames;
    var poll := Poll(1, 0, 0);
    NextCall(l, q, [], sent, caps, poll);
    HiddenBlob(Record(QueueModule(caps), poll, l), SpecStep(q, poll, l.store), q.queued,
               sent + SentBy(poll, Perform(QueueModule(caps), poll, l.store).0, l.store), caps);
  }

  lemma ShortFrames()
    ensures Frames([]) == [] && |Frames([[]])| == 4
  {
  }

  lemma PoliteIntact(store: Store, fp: u32, fl: u32)
    requires StoreOk(store) && fp + fl <= QUEUE
    ensures Intact(store, fp, fl)
  {
  }

  lemma FourSteps(m: Module, a: Op, b: Op, c: Op, d: Op, l: Ledger)
    ensures Run(m, [a, b, c, d], l) == Record(m, d, Record(m, c, Record(m, b, Record(m, a, l))))
  {
    hide Record;
    var l1 := Record(m, a, l);
    var l2 := Record(m, b, l1);
    assert [a, b, c, d][1..] == [b, c, d] && [b, c, d][1..] == [c, d] && [c, d][1..] == [d] && [d][1..] == [];
    assert Run(m, [c, d], l2) == Run(m, [d], Record(m, c, l2)) == Run(m, [], Record(m, d, Record(m, c, l2)));
    assert Run(m, [a, b, c, d], l) == Run(m, [b, c, d], l1) == Run(m, [c, d], l2);
  }

  lemma HiddenBlob(l: Ledger, q: Fifo, batch: seq<seq<byte>>, sent: seq<seq<byte>>, caps: seq<byte>)
    requires Explained(l, q, [] + [batch], sent, caps) && q.queued == [] && batch != [] && batch[0] == []
    requires forall k | 0 <= k < |batch| :: |batch[k]| <= MAX_FRAME
    ensures |l.blobs| == 1 && QueueRegion(l.store) == [] && DecodeAll(l.blobs) == []
  {
    hide SameLengths, Flatten, HolesTold, OutputTold;
    ShortFrames();
    assert ([] + [batch])[0] == batch;
    DecodeExact(batch);
    hide DecodeFrames;
    assert DecodeAll(l.blobs) == DecodeFrames(l.blobs[0]).frames + DecodeAll(l.blobs[1..]);
  }

  /** A trapped send on a full queue: the prefix of the refused frame is what the output region begins with
      afterwards. */
  lemma TrapSpills(caps: seq<byte>)
    requires |caps| <= MAX_CAPS
    ensures var fill, trap := Op.Send(HEAP, 0x3ffc, 0, 0), Op.Send(0x1000_0000, 0xffff_fffc, 0, 0);
            var full := Run(QueueModule(caps), [Start, fill], Fresh(caps));
            var l := Record(QueueModule(caps), trap, full);
            && !full.failed && l.failed && StoreOk(full.store) && StoreOk(l.store)
            && QueueRegion(l.store) == QueueRegion(full.store) && |QueueRegion(full.store)| == CAPACITY
            && full.store.mem[OUT..OUT + 4] == [0, 0, 0, 0] && l.store.mem[OUT..OUT + 4] == [0xff, 0xff, 0xff, 0xfc]
  {
    hide Run, QueueModule, Perform, SentFrame, Frame, BE32, Intact, ReachesOutput;
    StartThenSend(caps, HEAP, 0x3ffc);
    FilledStore(caps);
    var full := Run(QueueModule(caps), [Start, Op.Send(HEAP, 0x3ffc, 0, 0)], Fresh(caps));
    TrapOnFull(caps, full.store);
  }

  lemma TrapOnFull(caps: seq<byte>, store: Store)
    requires |caps| <= MAX_CAPS && StoreOk(store) && store.globals[0] == 1 && store.globals[1] == CAPACITY
    ensures var (reply, store') := Perform(QueueModule(caps), Op.Send(0x1000_0000, 0xffff_fffc, 0, 0), store);
            && reply.Failed? && StoreOk(store') && QueueRegion(store') == QueueRegion(store)
            && |QueueRegion(store)| == CAPACITY && store'.mem[OUT..OUT + 4] == [0xff, 0xff, 0xff, 0xfc]
  {
    hide QueueModule, Entry, I32s, Invoke, SendBody, Splice, BE32;
    NamedEntries(caps);
    SendCall(store, 0x1000_0000, 0xffff_fffc, 0, 0);
    TrapKeepsQueue(store, 0x1000_0000, 0xffff_fffc);
    SpliceHere(store.mem, OUT, BE32(0xffff_fffc));
    assert BE32(0xffff_fffc) == [0xff, 0xff, 0xff, 0xfc] by { LastPrefix(); }
  }

  lemma LastPrefix()
    ensures BE32(0xffff_fffc) == [0xff, 0xff, 0xff, 0xfc]
  {
  }

  lemma FreshOutput(caps: seq<byte>)
    requires |caps| <= MAX_CAPS
    ensures var started := SetGlobal(FreshStore(caps), 0, 1);
            && StoreOk(started) && started.globals[0] == 1 && started.globals[1] == 0
            && started.mem[OUT..OUT + 4] == [0, 0, 0, 0]
  {
    hide Splice;
    SpliceFrame(seq(MEMORY, _ => 0), CAPS_AT, caps, OUT, OUT + 4);
  }

  lemma FillKeepsOutput(store: Store)
    requires StoreOk(store) && store.globals[0] == 1 && store.globals[1] == 0
    ensures var r := WasmQueue.Send(store, HEAP, 0x3ffc);
            && r.Done? && r.value == V32(0) && StoreOk(r.store)
            && r.store.globals[0] == 1 && r.store.globals[1] == CAPACITY
            && r.store.mem[OUT..OUT + 4] == store.mem[OUT..OUT + 4]
  {
    hide Splice, BE32, Copied;
    var mem := WithPrefix(store, 0x3ffc);
    CopiedIsSplice(mem, QUEUE + 4, HEAP, 0x3ffc);
    SpliceFrame(mem, QUEUE + 4, mem[HEAP..HEAP + 0x3ffc], OUT, OUT + 4);
    SpliceFrame(store.mem, QUEUE, BE32(0x3ffc), OUT, OUT + 4);
  }

  lemma FilledStore(caps: seq<byte>)
    requires |caps| <= MAX_CAPS
    ensures var full := Run(QueueModule(caps), [Start, Op.Send(HEAP, 0x3ffc, 0, 0)], Fresh(caps)).store;
            && StoreOk(full) && full.globals[0] == 1 && full.globals[1] == CAPACITY
            && full.mem[OUT..OUT + 4] == [0, 0, 0, 0]
  {
    hide QueueModule, Entry, I32s, Invoke, StartBody, SendBody, WasmQueue.Send, Intact, Frame, ReachesOutput;
    NamedEntries(caps);
    var m, fill := QueueModule(caps), Op.Send(HEAP, 0x3ffc, 0, 0);
    var started := SetGlobal(FreshStore(caps), 0, 1);
    FreshOutput(caps);
    StartStopCalls(FreshStore(caps));
    SendCall(started, HEAP, 0x3ffc, 0, 0);
    FillKeepsOutput(started);
    var l1 := Record(m, Start, Fresh(caps));
    assert l1.store == started;
    assert [Start, fill][1..] == [fill] && [fill][1..] == [];
    assert Run(m, [Start, fill], Fresh(caps)) == Run(m, [fill], l1) == Run(m, [], Record(m, fill, l1));
  }
}
