/** The queue transport of transports/tools/wasmasm.mjs: its hand-written bodies, and what one call of each does
    for every argument. Globals: 0 running, 1 bytes queued, 2 bump pointer. */
module WasmQueue {
  import opened Bytes
  import opened WasmSyntax
  import opened WasmMachine

  const QUEUE: nat := 0x4000
  const OUT: nat := 0x8000
  const HEAP: nat := 0x1000
  const HEAP_LIMIT: nat := 0x3f00
  const CAPACITY: nat := 0x4000
  const MEMORY: nat := 0x2_0000 // two pages

  // ---------- the bodies, cut where the source breaks its lines ----------

  function Append(a: Code, b: Code): Code {
    match a
    case Done => b
    case Then(i, tail) => Then(i, Append(tail, b))
  }

  function Const32(v: int): Code {
    Then(I32Const(v), Code.Done)
  }

  function LoadBump(): Code {
    Then(GlobalGet(2), Then(LocalSet(1), Code.Done))
  }

  function PastHeap(limit: nat): Code {
    Then(LocalGet(1), Then(LocalGet(0), Then(I32Add, Then(I32Const(limit), Then(I32GtU, Code.Done)))))
  }

  function Rewind(): Code {
    Then(If(Then(I32Const(0x1000), Then(LocalSet(1), Code.Done))), Code.Done)
  }

  function EndPlus7(): Code {
    Then(LocalGet(1), Then(LocalGet(0), Then(I32Add, Then(I32Const(7), Then(I32Add, Code.Done)))))
  }

  function MaskAndStore(): Code {
    Then(I32Const(-8), Then(I32And, Then(GlobalSet(2), Then(LocalGet(1), Code.Done))))
  }

  function AllocBody(limit: nat): Body {
    Body(1, Append(LoadBump(), Append(PastHeap(limit), Append(Rewind(), Append(EndPlus7(), MaskAndStore())))))
  }

  function RefuseStopped(): Code {
    Then(GlobalGet(0), Then(I32Eqz, Then(If(Then(I32Const(1), Then(Return, Code.Done))), Code.Done)))
  }

  function NeededBytes(): Code {
    Then(GlobalGet(1), Then(LocalGet(1), Then(I32Add, Then(I32Const(4), Then(I32Add, Code.Done)))))
  }

  function RefuseFull(): Code {
    Then(I32Const(0x4000), Then(I32GtU, Then(If(Then(I32Const(3), Then(Return, Code.Done))), Code.Done)))
  }

  function SetDestination(queue: nat): Code {
    Then(I32Const(queue), Then(GlobalGet(1), Then(I32Add, Then(LocalSet(4), Code.Done))))
  }

  function StoreShifted(shift: nat, offset: nat): Code {
    Then(LocalGet(4), Then(LocalGet(1), Then(I32Const(shift), Then(I32ShrU, Then(I32Store8(offset), Code.Done)))))
  }

  function StoreLow(): Code {
    Then(LocalGet(4), Then(LocalGet(1), Then(I32Store8(3), Code.Done)))
  }

  function CopyPayload(): Code {
    Then(LocalGet(4), Then(I32Const(4), Then(I32Add,
    Then(LocalGet(0), Then(LocalGet(1), Then(MemoryCopy, Code.Done))))))
  }

  function SetLength(): Code {
    Then(GlobalSet(1), Code.Done)
  }

  function StorePrefix(): Code {
    Append(StoreShifted(24, 0), Append(StoreShifted(16, 1), Append(StoreShifted(8, 2), StoreLow())))
  }

  function Enqueue(queue: nat): Code {
    Append(SetDestination(queue), Append(StorePrefix(), Append(CopyPayload(),
      Append(NeededBytes(), Append(SetLength(), Const32(0))))))
  }

  function SendBody(queue: nat): Body {
    Body(1, Append(RefuseStopped(), Append(NeededBytes(), Append(RefuseFull(), Enqueue(queue)))))
  }

  function CopyOut(out: nat, queue: nat): Code {
    Then(I32Const(out), Then(I32Const(queue), Then(GlobalGet(1), Then(MemoryCopy, Code.Done))))
  }

  function PackAddress(out: nat): Code {
    Then(I32Const(out), Then(I64ExtendI32U, Then(I64Const(32), Then(I64Shl, Code.Done))))
  }

  function PackLength(): Code {
    Then(GlobalGet(1), Then(I64ExtendI32U, Then(I64Or, Code.Done)))
  }

  function ResetLength(): Code {
    Then(I32Const(0), Then(GlobalSet(1), Code.Done))
  }

  function PollBody(out: nat, queue: nat): Body {
    Body(0, Append(CopyOut(out, queue), Append(PackAddress(out), Append(PackLength(), ResetLength()))))
  }

  function StartBody(): Body {
    Body(0, Then(I32Const(1), Then(GlobalSet(0), Const32(0))))
  }

  function StopBody(): Body {
    Body(0, Then(I32Const(0), Then(GlobalSet(0), Const32(0))))
  }

  function StatusBody(): Body {
    Body(0, Then(GlobalGet(0), Code.Done))
  }

  /** Shared by `ntx_init`, `ntx_attach` and `ntx_detach`. */
  function AckBody(): Body {
    Body(0, Const32(0))
  }

  function CapsBody(length: nat): Body {
    Body(0, Then(I64Const(0x100_0000_0000 + length), Code.Done))
  }

  // ---------- executing pieces ----------

  lemma {:induction false} ExecAppend(a: Code, b: Code, s: State)
    ensures Exec(Append(a, b), s) == match Exec(a, s) case Next(t) => Exec(b, t) case o => o
    decreases a
  {
    match a {
      case Done =>
      case Then(i, tail) =>
        if i.If? {
          if s.stack.Push? && s.stack.top.V32? {
            var below := s.(stack := s.stack.below);
            var first := if s.stack.top.x != 0 then Exec(i.body, below) else Next(below);
            if first.Next? {
              ExecAppend(tail, b, first.s);
            }
          }
        } else if Step(i, s).Next? {
          ExecAppend(tail, b, Step(i, s).s);
        }
    }
  }

  lemma ExecThen(i: Instr, tail: Code, s: State, t: State)
    requires !i.If? && Step(i, s) == Next(t)
    ensures Exec(Then(i, tail), s) == Exec(tail, t)
  {
  }

  lemma ExecDone(s: State)
    ensures Exec(Code.Done, s) == Next(s)
  {
  }

  lemma Chain5(a: Code, b: Code, c: Code, d: Code, e: Code,
               s0: State, s1: State, s2: State, s3: State, s4: State, s5: State)
    requires Exec(a, s0) == Next(s1) && Exec(b, s1) == Next(s2) && Exec(c, s2) == Next(s3)
    requires Exec(d, s3) == Next(s4) && Exec(e, s4) == Next(s5)
    ensures Exec(Append(a, Append(b, Append(c, Append(d, e)))), s0) == Next(s5)
  {
    ExecAppend(d, e, s3);
    ExecAppend(c, Append(d, e), s2);
    ExecAppend(b, Append(c, Append(d, e)), s1);
    ExecAppend(a, Append(b, Append(c, Append(d, e))), s0);
  }

  lemma InvokeNext(b: Body, args: seq<u32>, store: Store, t: State)
    requires Exec(b.code, State(store, args + ZeroLocals(b.locals), Empty)) == Next(t) && t.stack.Push?
    ensures Invoke(b, args, store) == Result.Done(t.stack.top, t.store)
  {
  }

  // ---------- ntx_alloc ----------

  function Add32(x: u32, y: u32): u32 {
    (x + y) % 0x1_0000_0000
  }

  lemma {:induction false} BitAndOnes(x: nat, k: nat)
    requires x < Pow2(k)
    ensures BitAnd(x, Pow2(k) - 1) == x
  {
    if x != 0 && k > 0 {
      BitAndOnes(x / 2, k - 1);
      assert (Pow2(k) - 1) / 2 == Pow2(k - 1) - 1;
    }
  }

  /** Masking with `~7` rounds down to a multiple of eight. */
  lemma MaskAligns(x: u32)
    ensures BitAnd(x, 0xffff_fff8) == x - x % 8
  {
    Pow2Values();
    assert Pow2(29) == 0x2000_0000 by {
      assert Pow2(5) == 32;
      Pow2Add(24, 5);
    }
    BitAndOnes(x / 8, 29);
    BitAndShift(x, 0x7fff_fffc);
    BitAndShift(x / 2, 0x3fff_fffe);
    BitAndShift(x / 4, 0x1fff_ffff);
    assert x / 2 / 2 == x / 4 && x / 4 / 2 == x / 8;
  }

  lemma BitAndShift(x: nat, y: nat)
    ensures BitAnd(x, 2 * y) == 2 * BitAnd(x / 2, y)
  {
    if x != 0 && y != 0 {
      assert 2 * y / 2 == y;
    }
  }

  function AllocAt(bump: u32, n: u32): u32 {
    if Add32(bump, n) > HEAP_LIMIT then HEAP else bump
  }

  function NextBump(p: u32, n: u32): (b: u32)
    ensures b % 8 == 0
  {
    var end := Add32(Add32(p, n), 7);
    end - end % 8
  }

  function SetGlobal(store: Store, k: nat, v: u32): Store
    requires k < |store.globals|
  {
    store.(globals := store.globals[k := v])
  }

  lemma AllocHead(st: Store, n: u32)
    requires |st.globals| == 3
    ensures Exec(LoadBump(), State(st, [n, 0], Empty)) == Next(State(st, [n, st.globals[2]], Empty))
  {
  }

  lemma AllocSum(st: Store, n: u32, p: u32, after: Code)
    ensures Exec(Then(LocalGet(1), Then(LocalGet(0), Then(I32Add, after))), State(st, [n, p], Empty))
         == Exec(after, State(st, [n, p], Push(V32(Add32(p, n)), Empty)))
  {
    hide Exec, Shr, BitAnd, BitOr;
    var s := State(st, [n, p], Empty);
    var s1, s2 := s.(stack := Push(V32(p), Empty)), s.(stack := Push(V32(n), Push(V32(p), Empty)));
    ExecThen(LocalGet(1), Then(LocalGet(0), Then(I32Add, after)), s, s1);
    ExecThen(LocalGet(0), Then(I32Add, after), s1, s2);
    ExecThen(I32Add, after, s2, s.(stack := Push(V32(Add32(p, n)), Empty)));
  }

  lemma AllocTest(st: Store, n: u32, p: u32)
    ensures Exec(PastHeap(HEAP_LIMIT), State(st, [n, p], Empty))
         == Next(State(st, [n, p], Push(V32(if Add32(p, n) > HEAP_LIMIT then 1 else 0), Empty)))
  {
    hide Shr, BitAnd, BitOr;
    var s := State(st, [n, p], Push(V32(Add32(p, n)), Empty));
    var compare := Then(I32Const(HEAP_LIMIT), Then(I32GtU, Code.Done));
    AllocSum(st, n, p, compare);
  }

  lemma AllocRewind(st: Store, n: u32, p: u32, c: u32)
    ensures Exec(Rewind(), State(st, [n, p], Push(V32(c), Empty)))
         == Next(State(st, [n, if c != 0 then HEAP else p], Empty))
  {
  }

  lemma AllocEnd(st: Store, n: u32, p: u32)
    ensures Exec(EndPlus7(), State(st, [n, p], Empty))
         == Next(State(st, [n, p], Push(V32(Add32(Add32(p, n), 7)), Empty)))
  {
    hide Shr, BitAnd, BitOr;
  }

  lemma AllocStore(st: Store, n: u32, p: u32, end: u32)
    requires |st.globals| == 3
    ensures Exec(MaskAndStore(), State(st, [n, p], Push(V32(end), Empty)))
         == Next(State(SetGlobal(st, 2, end - end % 8), [n, p], Push(V32(p), Empty)))
  {
    hide Exec, BitAnd;
    var s0 := State(st, [n, p], Push(V32(end), Empty));
    var s1 := s0.(stack := Push(V32(0xffff_fff8), s0.stack));
    var s2 := s0.(stack := Push(V32(end - end % 8), Empty));
    var s3 := State(SetGlobal(st, 2, end - end % 8), [n, p], Empty);
    var s4 := s3.(stack := Push(V32(p), Empty));
    var c3 := Then(LocalGet(1), Code.Done);
    var c2 := Then(GlobalSet(2), c3);
    MaskAligns(end);
    ExecThen(I32Const(-8), Then(I32And, c2), s0, s1);
    ExecThen(I32And, c2, s1, s2);
    ExecThen(GlobalSet(2), c3, s2, s3);
    ExecThen(LocalGet(1), Code.Done, s3, s4);
    ExecDone(s4);
  }

  lemma AllocChain(st: Store, n: u32, bump: u32, c: u32, p: u32, end: u32, last: State)
    requires Exec(LoadBump(), State(st, [n, 0], Empty)) == Next(State(st, [n, bump], Empty))
    requires Exec(PastHeap(HEAP_LIMIT), State(st, [n, bump], Empty)) == Next(State(st, [n, bump], Push(V32(c), Empty)))
    requires Exec(Rewind(), State(st, [n, bump], Push(V32(c), Empty))) == Next(State(st, [n, p], Empty))
    requires Exec(EndPlus7(), State(st, [n, p], Empty)) == Next(State(st, [n, p], Push(V32(end), Empty)))
    requires Exec(MaskAndStore(), State(st, [n, p], Push(V32(end), Empty))) == Next(last)
    ensures Exec(AllocBody(HEAP_LIMIT).code, State(st, [n, 0], Empty)) == Next(last)
  {
    Chain5(LoadBump(), PastHeap(HEAP_LIMIT), Rewind(), EndPlus7(), MaskAndStore(),
      State(st, [n, 0], Empty), State(st, [n, bump], Empty), State(st, [n, bump], Push(V32(c), Empty)),
      State(st, [n, p], Empty), State(st, [n, p], Push(V32(end), Empty)), last);
  }

  lemma AllocCode(st: Store, n: u32, p: u32)
    requires |st.globals| == 3 && p == AllocAt(st.globals[2], n)
    ensures Exec(AllocBody(HEAP_LIMIT).code, State(st, [n, 0], Empty))
         == Next(State(SetGlobal(st, 2, NextBump(p, n)), [n, p], Push(V32(p), Empty)))
  {
    hide Exec;
    var bump := st.globals[2];
    var c: u32 := if Add32(bump, n) > HEAP_LIMIT then 1 else 0;
    var end := Add32(Add32(p, n), 7);
    AllocHead(st, n);
    AllocTest(st, n, bump);
    AllocRewind(st, n, bump, c);
    AllocEnd(st, n, p);
    AllocStore(st, n, p, end);
    AllocChain(st, n, bump, c, p, end, State(SetGlobal(st, 2, NextBump(p, n)), [n, p], Push(V32(p), Empty)));
  }

  /** `ntx_alloc` returns the old bump pointer, or the heap base when the block would pass the heap limit, and
      moves the pointer behind the block, rounded up to a multiple of eight. */
  lemma AllocCall(store: Store, n: u32)
    requires |store.globals| == 3
    ensures Invoke(AllocBody(HEAP_LIMIT), [n], store)
         == Result.Done(V32(AllocAt(store.globals[2], n)),
                        SetGlobal(store, 2, NextBump(AllocAt(store.globals[2], n), n)))
  {
    var p := AllocAt(store.globals[2], n);
    assert ZeroLocals(1) == [0] && [n] + [0] == [n, 0];
    AllocCode(store, n, p);
    InvokeNext(AllocBody(HEAP_LIMIT), [n], store,
      State(SetGlobal(store, 2, NextBump(p, n)), [n, p], Push(V32(p), Empty)));
  }

  // ---------- ntx_send ----------

  function Splice(mem: seq<byte>, at: nat, data: seq<byte>): (r: seq<byte>)
    requires at + |data| <= |mem|
    ensures |r| == |mem|
  {
    mem[..at] + data + mem[at + |data|..]
  }

  /** The length prefix lands at the end of the queue before the payload is read. */
  function WithPrefix(store: Store, fl: u32): (mem: seq<byte>)
    requires |store.globals| == 3 && QUEUE + store.globals[1] + 4 <= |store.mem|
    ensures |mem| == |store.mem|
  {
    Splice(store.mem, QUEUE + store.globals[1], BE32(fl))
  }

  function Needed(qlen: u32, fl: u32): u32 {
    Add32(Add32(qlen, fl), 4)
  }

  /** A store as every call leaves it: three globals, two pages, and a queue within its region. */
  predicate StoreOk(store: Store) {
    |store.globals| == 3 && |store.mem| == MEMORY && store.globals[1] <= CAPACITY
  }

  function Send(store: Store, fp: u32, fl: u32): Result
    requires StoreOk(store)
  {
    var qlen := store.globals[1];
    if store.globals[0] == 0 then Result.Done(V32(1), store)
    else if Needed(qlen, fl) > CAPACITY then Result.Done(V32(3), store)
    else
      var mem := WithPrefix(store, fl);
      if fp + fl <= MEMORY && QUEUE + qlen + 4 + fl <= MEMORY
      then Result.Done(V32(0), Store(store.globals[1 := Needed(qlen, fl)], Copied(mem, QUEUE + qlen + 4, fp, fl)))
      else Trapped(store.(mem := mem))
  }

  function Locals(fp: u32, fl: u32, rp: u32, rl: u32, dst: u32): seq<u32> {
    [fp, fl, rp, rl, dst]
  }

  lemma SendStopped(st: Store, l: seq<u32>)
    requires |st.globals| == 3
    ensures Exec(RefuseStopped(), State(st, l, Empty))
         == if st.globals[0] == 0 then Returned(State(st, l, Push(V32(1), Empty))) else Next(State(st, l, Empty))
  {
    hide Shr, BitAnd, BitOr;
    var test := Then(I32Eqz, Then(If(Then(I32Const(1), Then(Return, Code.Done))), Code.Done));
    ExecThen(GlobalGet(0), test, State(st, l, Empty), State(st, l, Push(V32(st.globals[0]), Empty)));
  }

  lemma SendNeeded(st: Store, l: seq<u32>)
    requires |st.globals| == 3 && |l| == 5
    ensures Exec(NeededBytes(), State(st, l, Empty))
         == Next(State(st, l, Push(V32(Needed(st.globals[1], l[1])), Empty)))
  {
    hide Shr, BitAnd, BitOr;
  }

  lemma SendFull(st: Store, l: seq<u32>, needed: u32)
    ensures Exec(RefuseFull(), State(st, l, Push(V32(needed), Empty)))
         == if needed > CAPACITY then Returned(State(st, l, Push(V32(3), Empty))) else Next(State(st, l, Empty))
  {
    hide Shr, BitAnd, BitOr;
  }

  lemma SendDestination(st: Store, l: seq<u32>)
    requires StoreOk(st) && |l| == 5
    ensures Exec(SetDestination(QUEUE), State(st, l, Empty))
         == Next(State(st, l[4 := QUEUE + st.globals[1]], Empty))
  {
    hide Exec, Shr, BitAnd, BitOr;
    var s, g := State(st, l, Empty), st.globals[1];
    var s1, s2 := s.(stack := Push(V32(QUEUE), Empty)), s.(stack := Push(V32(g), Push(V32(QUEUE), Empty)));
    var s3 := s.(stack := Push(V32(QUEUE + g), Empty));
    var store := Then(LocalSet(4), Code.Done);
    ExecThen(I32Const(QUEUE), Then(GlobalGet(1), Then(I32Add, store)), s, s1);
    ExecThen(GlobalGet(1), Then(I32Add, store), s1, s2);
    ExecThen(I32Add, store, s2, s3);
    ExecThen(LocalSet(4), Code.Done, s3, State(st, l[4 := QUEUE + g], Empty));
    ExecDone(State(st, l[4 := QUEUE + g], Empty));
  }

  lemma SendShifted(st: Store, l: seq<u32>, shift: nat, offset: nat)
    requires |l| == 5 && shift < 32 && l[4] + offset < |st.mem|
    ensures Exec(StoreShifted(shift, offset), State(st, l, Empty))
         == Next(State(st.(mem := st.mem[l[4] + offset := Shr(l[1], shift) % 256]), l, Empty))
  {
    hide Shr;
    var s0 := State(st, l, Empty);
    var s1 := s0.(stack := Push(V32(l[4]), Empty));
    var s2 := s0.(stack := Push(V32(l[1]), s1.stack));
    var s3 := s0.(stack := Push(V32(shift), s2.stack));
    var s4 := s0.(stack := Push(V32(Shr(l[1], shift)), s1.stack));
    var c4 := Then(I32Store8(offset), Code.Done);
    var c3 := Then(I32ShrU, c4);
    var c2 := Then(I32Const(shift), c3);
    ExecThen(LocalGet(4), Then(LocalGet(1), c2), s0, s1);
    ExecThen(LocalGet(1), c2, s1, s2);
    ExecThen(I32Const(shift), c3, s2, s3);
    ExecThen(I32ShrU, c4, s3, s4);
  }

  lemma SendLow(st: Store, l: seq<u32>)
    requires |l| == 5 && l[4] + 3 < |st.mem|
    ensures Exec(StoreLow(), State(st, l, Empty))
         == Next(State(st.(mem := st.mem[l[4] + 3 := l[1] % 256]), l, Empty))
  {
  }

  lemma ShiftedBytes(n: u32)
    ensures Shr(n, 24) == n / 0x100_0000 && Shr(n, 16) == n / 0x1_0000 && Shr(n, 8) == n / 0x100
  {
    Pow2Values();
  }

  lemma SpliceFour(mem: seq<byte>, at: nat, a: byte, b: byte, c: byte, d: byte)
    requires at + 4 <= |mem|
    ensures mem[at := a][at + 1 := b][at + 2 := c][at + 3 := d] == Splice(mem, at, [a, b, c, d])
  {
  }

  lemma SendPrefix(st: Store, l: seq<u32>)
    requires |l| == 5 && l[4] + 4 <= |st.mem|
    ensures Exec(StorePrefix(), State(st, l, Empty))
         == Next(State(st.(mem := Splice(st.mem, l[4], BE32(l[1]))), l, Empty))
  {
    hide Exec;
    var n, at := l[1], l[4];
    var b := BE32(n);
    ShiftedBytes(n);
    var m1 := st.mem[at := b[0]];
    var m2 := m1[at + 1 := b[1]];
    var m3 := m2[at + 2 := b[2]];
    SendShifted(st, l, 24, 0);
    SendShifted(st.(mem := m1), l, 16, 1);
    SendShifted(st.(mem := m2), l, 8, 2);
    SendLow(st.(mem := m3), l);
    SpliceFour(st.mem, at, b[0], b[1], b[2], b[3]);
    var c3 := Append(StoreShifted(8, 2), StoreLow());
    ExecAppend(StoreShifted(8, 2), StoreLow(), State(st.(mem := m2), l, Empty));
    ExecAppend(StoreShifted(16, 1), c3, State(st.(mem := m1), l, Empty));
    ExecAppend(StoreShifted(24, 0), Append(StoreShifted(16, 1), c3), State(st, l, Empty));
  }

  lemma SendCopy(st: Store, l: seq<u32>)
    requires |l| == 5 && l[4] as int + 4 < 0x1_0000_0000
    ensures Exec(CopyPayload(), State(st, l, Empty))
         == if l[0] + l[1] <= |st.mem| && l[4] + 4 + l[1] <= |st.mem|
            then Next(State(st.(mem := Copied(st.mem, l[4] + 4, l[0], l[1])), l, Empty))
            else Trap(st)
  {
    hide Exec, BitAnd, BitOr, Shr, Copied;
    var s0 := State(st, l, Empty);
    var s1 := s0.(stack := Push(V32(l[4]), Empty));
    var s2 := s0.(stack := Push(V32(4), s1.stack));
    var s3 := s0.(stack := Push(V32(l[4] + 4), Empty));
    var s4 := s0.(stack := Push(V32(l[0]), s3.stack));
    var s5 := s0.(stack := Push(V32(l[1]), s4.stack));
    var c6 := Then(MemoryCopy, Code.Done);
    var c5 := Then(LocalGet(1), c6);
    var c4 := Then(LocalGet(0), c5);
    var c3 := Then(I32Add, c4);
    ExecThen(LocalGet(4), Then(I32Const(4), c3), s0, s1);
    ExecThen(I32Const(4), c3, s1, s2);
    ExecThen(I32Add, c4, s2, s3);
    ExecThen(LocalGet(0), c5, s3, s4);
    ExecThen(LocalGet(1), c6, s4, s5);
    ExecLast(MemoryCopy, s5);
  }

  lemma ExecLast(i: Instr, s: State)
    requires !i.If?
    ensures Exec(Then(i, Code.Done), s) == Step(i, s)
  {
  }

  lemma SendFinish(st: Store, l: seq<u32>)
    requires |st.globals| == 3 && |l| == 5
    ensures Exec(Append(NeededBytes(), Append(SetLength(), Const32(0))), State(st, l, Empty))
         == Next(State(SetGlobal(st, 1, Needed(st.globals[1], l[1])), l, Push(V32(0), Empty)))
  {
    hide Exec;
    var needed := Needed(st.globals[1], l[1]);
    var s1 := State(st, l, Push(V32(needed), Empty));
    var s2 := State(SetGlobal(st, 1, needed), l, Empty);
    SendNeeded(st, l);
    ExecLast(GlobalSet(1), s1);
    ExecLast(I32Const(0), s2);
    ExecAppend(SetLength(), Const32(0), s1);
    ExecAppend(NeededBytes(), Append(SetLength(), Const32(0)), State(st, l, Empty));
  }

  function Enqueued(st: Store, l: seq<u32>): Outcome
    requires StoreOk(st) && |l| == 5
  {
    var at := QUEUE + st.globals[1];
    var mem := WithPrefix(st, l[1]);
    if l[0] + l[1] <= MEMORY && at + 4 + l[1] <= MEMORY
    then Next(State(Store(st.globals[1 := Needed(st.globals[1], l[1])], Copied(mem, at + 4, l[0], l[1])),
                    l[4 := at], Push(V32(0), Empty)))
    else Trap(st.(mem := mem))
  }

  lemma SendEnqueue(st: Store, l: seq<u32>)
    requires StoreOk(st) && |l| == 5
    ensures Exec(Enqueue(QUEUE), State(st, l, Empty)) == Enqueued(st, l)
  {
    hide Exec, Splice, Copied;
    var at := QUEUE + st.globals[1];
    var l' := l[4 := at];
    var st1 := st.(mem := WithPrefix(st, l[1]));
    var finish := Append(NeededBytes(), Append(SetLength(), Const32(0)));
    var copy := Append(CopyPayload(), finish);
    var prefix := Append(StorePrefix(), copy);
    SendDestination(st, l);
    SendPrefix(st, l');
    SendCopy(st1, l');
    ExecAppend(SetDestination(QUEUE), prefix, State(st, l, Empty));
    ExecAppend(StorePrefix(), copy, State(st, l', Empty));
    ExecAppend(CopyPayload(), finish, State(st1, l', Empty));
    if l[0] + l[1] <= MEMORY && at + 4 + l[1] <= MEMORY {
      SendFinish(st1.(mem := Copied(st1.mem, at + 4, l[0], l[1])), l');
    }
  }

  /** `ntx_send` for every argument: 1 when stopped, 3 when the 32-bit sum of queued bytes, frame and prefix exceeds
      the capacity, otherwise the prefix and the frame are appended; an out-of-range frame traps in memory.copy. */
  lemma SendCall(store: Store, fp: u32, fl: u32, rp: u32, rl: u32)
    requires StoreOk(store)
    ensures Invoke(SendBody(QUEUE), [fp, fl, rp, rl], store) == Send(store, fp, fl)
  {
    hide Exec, Splice, Copied;
    var l := Locals(fp, fl, rp, rl, 0);
    assert ZeroLocals(1) == [0] && [fp, fl, rp, rl] + [0] == l;
    var needed := Needed(store.globals[1], fl);
    var s0 := State(store, l, Empty);
    SendStopped(store, l);
    ExecAppend(RefuseStopped(), Append(NeededBytes(), Append(RefuseFull(), Enqueue(QUEUE))), s0);
    SendNeeded(store, l);
    ExecAppend(NeededBytes(), Append(RefuseFull(), Enqueue(QUEUE)), s0);
    SendFull(store, l, needed);
    ExecAppend(RefuseFull(), Enqueue(QUEUE), s0.(stack := Push(V32(needed), Empty)));
    SendEnqueue(store, l);
  }

  // ---------- ntx_poll ----------

  function Poll(store: Store): Result
    requires StoreOk(store)
  {
    var qlen := store.globals[1];
    Result.Done(V64(OUT * 0x1_0000_0000 + qlen), Store(store.globals[1 := 0], Copied(store.mem, OUT, QUEUE, qlen)))
  }

  lemma {:induction false} BitOrDisjoint(a: nat, b: nat, k: nat)
    requires b < Pow2(k)
    ensures BitOr(a * Pow2(k), b) == a * Pow2(k) + b
  {
    if k == 0 {
      BitOrZero(a);
    } else {
      BitOrDisjoint(a, b / 2, k - 1);
      assert a * Pow2(k) == 2 * (a * Pow2(k - 1));
    }
  }

  lemma {:induction false} BitOrZero(a: nat)
    ensures BitOr(a, 0) == a
  {
    if a > 0 {
      BitOrZero(a / 2);
    }
  }

  lemma PollCopy(st: Store, l: seq<u32>)
    requires StoreOk(st)
    ensures Exec(CopyOut(OUT, QUEUE), State(st, l, Empty))
         == Next(State(st.(mem := Copied(st.mem, OUT, QUEUE, st.globals[1])), l, Empty))
  {
    hide Exec, BitAnd, BitOr, Shr, Copied;
    var s0 := State(st, l, Empty);
    var s1 := s0.(stack := Push(V32(OUT), Empty));
    var s2 := s0.(stack := Push(V32(QUEUE), s1.stack));
    var s3 := s0.(stack := Push(V32(st.globals[1]), s2.stack));
    var c4 := Then(MemoryCopy, Code.Done);
    var c3 := Then(GlobalGet(1), c4);
    ExecThen(I32Const(OUT), Then(I32Const(QUEUE), c3), s0, s1);
    ExecThen(I32Const(QUEUE), c3, s1, s2);
    ExecThen(GlobalGet(1), c4, s2, s3);
    ExecLast(MemoryCopy, s3);
  }

  lemma ShiftedAddress()
    ensures OUT * Pow2(32 % 64) % 0x1_0000_0000_0000_0000 == OUT * 0x1_0000_0000
  {
    hide Pow2;
    Pow2Values();
  }

  lemma JoinedLength(qlen: u32)
    ensures BitOr(OUT * 0x1_0000_0000, qlen) % 0x1_0000_0000_0000_0000 == OUT * 0x1_0000_0000 + qlen
  {
    hide Pow2;
    Pow2Values();
    BitOrDisjoint(OUT, qlen, 32);
  }

  lemma PollAddress(st: Store, l: seq<u32>)
    ensures Exec(PackAddress(OUT), State(st, l, Empty))
         == Next(State(st, l, Push(V64(OUT * 0x1_0000_0000), Empty)))
  {
    hide Exec, BitAnd, BitOr, Shr, Pow2;
    ShiftedAddress();
    var s0 := State(st, l, Empty);
    var s1 := s0.(stack := Push(V32(OUT), Empty));
    var s2 := s0.(stack := Push(V64(OUT), Empty));
    var s3 := s0.(stack := Push(V64(32), s2.stack));
    var c4 := Then(I64Shl, Code.Done);
    var c3 := Then(I64Const(32), c4);
    ExecThen(I32Const(OUT), Then(I64ExtendI32U, c3), s0, s1);
    ExecThen(I64ExtendI32U, c3, s1, s2);
    ExecThen(I64Const(32), c4, s2, s3);
    ExecLast(I64Shl, s3);
  }

  lemma PollLength(st: Store, l: seq<u32>)
    requires StoreOk(st)
    ensures Exec(PackLength(), State(st, l, Push(V64(OUT * 0x1_0000_0000), Empty)))
         == Next(State(st, l, Push(V64(OUT * 0x1_0000_0000 + st.globals[1]), Empty)))
  {
    hide Exec, BitAnd, BitOr, Shr, Pow2;
    JoinedLength(st.globals[1]);
    var s0 := State(st, l, Push(V64(OUT * 0x1_0000_0000), Empty));
    var s1 := s0.(stack := Push(V32(st.globals[1]), s0.stack));
    var s2 := s0.(stack := Push(V64(st.globals[1]), s0.stack));
    var c3 := Then(I64Or, Code.Done);
    ExecThen(GlobalGet(1), Then(I64ExtendI32U, c3), s0, s1);
    ExecThen(I64ExtendI32U, c3, s1, s2);
    ExecLast(I64Or, s2);
  }

  lemma PollReset(st: Store, l: seq<u32>, packed: u64)
    requires |st.globals| == 3
    ensures Exec(ResetLength(), State(st, l, Push(V64(packed), Empty)))
         == Next(State(SetGlobal(st, 1, 0), l, Push(V64(packed), Empty)))
  {
    hide BitAnd, BitOr, Shr;
  }

  /** `ntx_poll` copies the queue to the output region, empties it, and returns the region's address in the upper
      half and the byte count in the lower half of an i64, whatever its arguments. */
  lemma PollCall(store: Store, limit: u32, mp: u32, count: u32)
    requires StoreOk(store)
    ensures Invoke(PollBody(OUT, QUEUE), [limit, mp, count], store) == Poll(store)
  {
    hide Exec, Copied;
    var st1 := store.(mem := Copied(store.mem, OUT, QUEUE, store.globals[1]));
    var pack := Append(PackLength(), ResetLength());
    var packed := V64(OUT * 0x1_0000_0000 + store.globals[1]);
    var l := [limit, mp, count];
    assert l + ZeroLocals(0) == l;
    PollCopy(store, l);
    PollAddress(st1, l);
    PollLength(st1, l);
    PollReset(st1, l, packed.y);
    ExecAppend(CopyOut(OUT, QUEUE), Append(PackAddress(OUT), pack), State(store, l, Empty));
    ExecAppend(PackAddress(OUT), pack, State(st1, l, Empty));
    ExecAppend(PackLength(), ResetLength(), State(st1, l, Push(V64(OUT * 0x1_0000_0000), Empty)));
  }
}
