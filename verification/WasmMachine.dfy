/** Execution of the instruction subset (WebAssembly Core Specification 2.0, sections 4.3 and 4.4).
    i32 and i64 values are their unsigned interpretations. */
module WasmMachine {
  import opened Bytes
  import opened WasmSyntax

  type u32 = x: int | 0 <= x < 0x1_0000_0000
  type u64 = x: int | 0 <= x < 0x1_0000_0000_0000_0000

  datatype Val = V32(x: u32) | V64(y: u64)
  datatype Stack = Empty | Push(top: Val, below: Stack)

  /** What outlives a call: the i32 globals and the linear memory. */
  datatype Store = Store(globals: seq<u32>, mem: seq<byte>)
  datatype State = State(store: Store, locals: seq<u32>, stack: Stack)

  /** `Trap` keeps the store because effects before a trap persist; `Stuck` is ill-typed code. */
  datatype Outcome = Next(s: State) | Returned(s: State) | Trap(store: Store) | Stuck
  datatype Result = Done(value: Val, store: Store) | Trapped(store: Store) | Invalid

  function BitAnd(x: nat, y: nat): (r: nat)
    ensures r <= x
  {
    if x == 0 || y == 0 then 0 else (if x % 2 == 1 && y % 2 == 1 then 1 else 0) + 2 * BitAnd(x / 2, y / 2)
  }

  function BitOr(x: nat, y: nat): nat {
    if x == 0 && y == 0 then 0 else (if x % 2 == 1 || y % 2 == 1 then 1 else 0) + 2 * BitOr(x / 2, y / 2)
  }

  lemma {:induction false} TimesAtLeast(d: nat, q: nat)
    requires d >= 1
    ensures d * q >= q
  {
    if d > 1 {
      TimesAtLeast(d - 1, q);
      assert d * q == (d - 1) * q + q;
    }
  }

  function Quotient(x: nat, d: nat): (q: nat)
    requires d >= 1
    ensures q <= x
  {
    TimesAtLeast(d, x / d);
    x / d
  }

  function Shr(x: nat, k: nat): (r: nat)
    ensures r <= x
  {
    Quotient(x, Pow2(k))
  }

  /** memory.copy: the source is read before anything is written. */
  function Copied(mem: seq<byte>, dst: nat, src: nat, n: nat): (r: seq<byte>)
    requires src + n <= |mem| && dst + n <= |mem|
    ensures |r| == |mem|
  {
    mem[..dst] + mem[src..src + n] + mem[dst + n..]
  }

  function Pushed(s: State, v: Val): Outcome {
    Next(s.(stack := Push(v, s.stack)))
  }

  function Binary32(i: Instr, x: u32, y: u32): u32 {
    match i
    case I32GtU => if x > y then 1 else 0
    case I32Add => (x + y) % 0x1_0000_0000
    case I32Sub => (x - y) % 0x1_0000_0000
    case I32And => BitAnd(x, y)
    case I32ShrU => Shr(x, y % 32)
    case _ => 0
  }

  predicate IsBinary32(i: Instr) {
    i.I32GtU? || i.I32Add? || i.I32Sub? || i.I32And? || i.I32ShrU?
  }

  function Step(i: Instr, s: State): Outcome
    requires !i.If?
  {
    if IsBinary32(i) then
      match s.stack
      case Push(V32(y), Push(V32(x), below)) => Pushed(s.(stack := below), V32(Binary32(i, x, y)))
      case _ => Stuck
    else
      match i
      case I32Const(v) => Pushed(s, V32(v % 0x1_0000_0000))
      case I64Const(v) => Pushed(s, V64(v % 0x1_0000_0000_0000_0000))
      case LocalGet(k) => if k < |s.locals| then Pushed(s, V32(s.locals[k])) else Stuck
      case LocalSet(k) => (
        match s.stack
        case Push(V32(x), below) =>
          if k < |s.locals| then Next(s.(locals := s.locals[k := x], stack := below)) else Stuck
        case _ => Stuck)
      case GlobalGet(k) => if k < |s.store.globals| then Pushed(s, V32(s.store.globals[k])) else Stuck
      case GlobalSet(k) => (
        match s.stack
        case Push(V32(x), below) =>
          if k < |s.store.globals|
          then Next(s.(store := s.store.(globals := s.store.globals[k := x]), stack := below))
          else Stuck
        case _ => Stuck)
      case I32Eqz => (
        match s.stack
        case Push(V32(x), below) => Pushed(s.(stack := below), V32(if x == 0 then 1 else 0))
        case _ => Stuck)
      case I64ExtendI32U => (
        match s.stack
        case Push(V32(x), below) => Pushed(s.(stack := below), V64(x))
        case _ => Stuck)
      case I64Shl => (
        match s.stack
        case Push(V64(y), Push(V64(x), below)) =>
          Pushed(s.(stack := below), V64(x * Pow2(y % 64) % 0x1_0000_0000_0000_0000))
        case _ => Stuck)
      case I64Or => (
        match s.stack
        case Push(V64(y), Push(V64(x), below)) =>
          Pushed(s.(stack := below), V64(BitOr(x, y) % 0x1_0000_0000_0000_0000))
        case _ => Stuck)
      case I32Store8(offset) => (
        match s.stack
        case Push(V32(x), Push(V32(a), below)) =>
          if a + offset < |s.store.mem|
          then Next(s.(store := s.store.(mem := s.store.mem[a + offset := x % 256]), stack := below))
          else Trap(s.store)
        case _ => Stuck)
      case MemoryCopy => (
        match s.stack
        case Push(V32(n), Push(V32(src), Push(V32(dst), below))) =>
          if src + n <= |s.store.mem| && dst + n <= |s.store.mem|
          then Next(s.(store := s.store.(mem := Copied(s.store.mem, dst, src, n)), stack := below))
          else Trap(s.store)
        case _ => Stuck)
      case Return => Returned(s)
      case _ => Stuck
  }

  function Exec(c: Code, s: State): Outcome
    decreases c
  {
    match c
    case Done => Next(s)
    case Then(i, tail) =>
      var first :=
        if i.If? then
          match s.stack
          case Push(V32(x), below) =>
            if x != 0 then Exec(i.body, s.(stack := below)) else Next(s.(stack := below))
          case _ => Stuck
        else Step(i, s);
      if first.Next? then Exec(tail, first.s) else first
  }

  function ZeroLocals(n: nat): (z: seq<u32>)
    ensures |z| == n
  {
    if n == 0 then [] else [0] + ZeroLocals(n - 1)
  }

  /** A call with all-i32 parameters: declared locals start at zero, the result is the top of the stack. */
  function Invoke(b: Body, args: seq<u32>, store: Store): Result {
    match Exec(b.code, State(store, args + ZeroLocals(b.locals), Empty))
    case Next(s) => if s.stack.Push? then Result.Done(s.stack.top, s.store) else Invalid
    case Returned(s) => if s.stack.Push? then Result.Done(s.stack.top, s.store) else Invalid
    case Trap(st) => Trapped(st)
    case Stuck => Invalid
  }
}
