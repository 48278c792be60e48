/** The part of the WebAssembly binary format (Core Specification 2.0, chapter 5) that
    transports/tools/wasmasm.mjs writes: its encoders, and a decoder that inverts them. */
module WasmSyntax {
  import opened Bytes
  import opened Leb128

  datatype ValType = I32 | I64

  datatype Instr =
    | I32Const(v: int)
    | I64Const(v: int)
    | LocalGet(i: nat)
    | LocalSet(i: nat)
    | GlobalGet(i: nat)
    | GlobalSet(i: nat)
    | I32Eqz
    | I32GtU
    | I32Add
    | I32Sub
    | I32And
    | I32ShrU
    | I64ExtendI32U
    | I64Shl
    | I64Or
    | I32Store8(offset: nat)
    | MemoryCopy
    | Return
    | If(body: Code)

  /** An instruction sequence; the terminating `end` opcode belongs to the encoding. */
  datatype Code = Done | Then(head: Instr, tail: Code)

  datatype FuncType = FuncType(params: seq<ValType>, results: seq<ValType>)
  datatype Body = Body(locals: nat, code: Code)
  datatype Export = Export(name: seq<byte>, kind: byte, index: nat)
  datatype Data = Data(offset: Code, init: seq<byte>)

  /** A module with one memory and mutable i32 globals, each given by its initialiser. */
  datatype Module = Module(types: seq<FuncType>, funcs: seq<nat>, memoryMin: nat, globals: seq<Code>,
                           exports: seq<Export>, bodies: seq<Body>, data: seq<Data>)

  // ---------- encoders ----------

  function Vec(items: seq<seq<byte>>): seq<byte> {
    Uleb(|items|) + Flatten(items)
  }

  function Sec(id: byte, body: seq<byte>): seq<byte> {
    [id] + Uleb(|body|) + body
  }

  function Str(s: seq<byte>): seq<byte> {
    Uleb(|s|) + s
  }

  function EncodeSimple(i: Instr): (o: seq<byte>)
    requires !i.If?
  {
    match i
    case I32Const(v) => [0x41] + Sleb(v)
    case I64Const(v) => [0x42] + Sleb(v)
    case LocalGet(k) => [0x20] + Uleb(k)
    case LocalSet(k) => [0x21] + Uleb(k)
    case GlobalGet(k) => [0x23] + Uleb(k)
    case GlobalSet(k) => [0x24] + Uleb(k)
    case I32Eqz => [0x45]
    case I32GtU => [0x4b]
    case I32Add => [0x6a]
    case I32Sub => [0x6b]
    case I32And => [0x71]
    case I32ShrU => [0x76]
    case I64ExtendI32U => [0xad]
    case I64Shl => [0x86]
    case I64Or => [0x84]
    case I32Store8(offset) => [0x3a, 0x00] + Uleb(offset)
    case MemoryCopy => [0xfc, 0x0a, 0x00, 0x00]
    case Return => [0x0f]
  }

  function EncodeCode(c: Code): seq<byte> {
    match c
    case Done => []
    case Then(i, tail) =>
      (if i.If? then [0x04, 0x40] + EncodeCode(i.body) + [0x0b] else EncodeSimple(i)) + EncodeCode(tail)
  }

  function EncodeType(t: ValType): (o: seq<byte>) {
    match t
    case I32 => [0x7f]
    case I64 => [0x7e]
  }

  function EncodeFuncType(t: FuncType): seq<byte> {
    [0x60] + Vec(Each(EncodeType, t.params)) + Vec(Each(EncodeType, t.results))
  }

  /** `body(nlocals, ...ops)`: the local count is written as one raw byte. */
  function BodyContent(b: Body): seq<byte> {
    (if b.locals > 0 then Vec([[b.locals % 256, 0x7f]]) else [0]) + EncodeCode(b.code) + [0x0b]
  }

  function EncodeBody(b: Body): seq<byte> {
    Uleb(|BodyContent(b)|) + BodyContent(b)
  }

  function EncodeGlobal(init: Code): seq<byte> {
    [0x7f, 0x01] + EncodeCode(init) + [0x0b]
  }

  function EncodeExport(e: Export): seq<byte> {
    Str(e.name) + [e.kind] + Uleb(e.index)
  }

  function EncodeData(d: Data): seq<byte> {
    [0x00] + EncodeCode(d.offset) + [0x0b] + Str(d.init)
  }

  const MAGIC: seq<byte> := [0x00, 0x61, 0x73, 0x6d, 0x01, 0x00, 0x00, 0x00]

  function EncodeModule(m: Module): seq<byte> {
    MAGIC
    + Sec(1, Vec(Each(EncodeFuncType, m.types)))
    + Sec(3, Vec(Each(Uleb, m.funcs)))
    + Sec(5, Vec([[0x00, m.memoryMin % 256]]))
    + Sec(6, Vec(Each(EncodeGlobal, m.globals)))
    + Sec(7, Vec(Each(EncodeExport, m.exports)))
    + Sec(10, Vec(Each(EncodeBody, m.bodies)))
    + Sec(11, Vec(Each(EncodeData, m.data)))
  }

  /** `items.map(f)` */
  function Each<T>(f: T -> seq<byte>, xs: seq<T>): (r: seq<seq<byte>>)
    ensures |r| == |xs|
  {
    if xs == [] then [] else [f(xs[0])] + Each(f, xs[1..])
  }

  // ---------- decoders ----------

  type Parsed<+T> = Option<(T, seq<byte>)>
  type Parser<!T> = seq<byte> -> Parsed<T>

  /** Integers of the binary format: at most ceil(N / 7) bytes and a value that fits N bits. */
  function ReadU32(s: seq<byte>): (r: Parsed<nat>)
    ensures r.Some? ==> |r.value.1| < |s|
  {
    match ReadUleb(s)
    case None => None
    case Some((n, rest)) => if n < 0x1_0000_0000 && |s| - |rest| <= 5 then Some((n, rest)) else None
  }

  function ReadS32(s: seq<byte>): (r: Parsed<int>)
    ensures r.Some? ==> |r.value.1| < |s|
  {
    match ReadSleb(s)
    case None => None
    case Some((n, rest)) => if -0x8000_0000 <= n < 0x8000_0000 && |s| - |rest| <= 5 then Some((n, rest)) else None
  }

  function ReadS64(s: seq<byte>): (r: Parsed<int>)
    ensures r.Some? ==> |r.value.1| < |s|
  {
    match ReadSleb(s)
    case None => None
    case Some((n, rest)) =>
      if -0x8000_0000_0000_0000 <= n < 0x8000_0000_0000_0000 && |s| - |rest| <= 10 then Some((n, rest)) else None
  }

  function WithIndex(make: nat -> Instr, s: seq<byte>): (r: Parsed<Instr>)
    ensures r.Some? ==> |r.value.1| < |s|
  {
    match ReadU32(s)
    case None => None
    case Some((k, rest)) => Some((make(k), rest))
  }

  function ReadSimple(s: seq<byte>): (r: Parsed<Instr>)
    ensures r.Some? ==> |r.value.1| < |s|
  {
    if s == [] then None else
    var t := s[1..];
    match s[0]
    case 0x41 => (match ReadS32(t) case None => None case Some((v, rest)) => Some((I32Const(v), rest)))
    case 0x42 => (match ReadS64(t) case None => None case Some((v, rest)) => Some((I64Const(v), rest)))
    case 0x20 => WithIndex((k: nat) => LocalGet(k), t)
    case 0x21 => WithIndex((k: nat) => LocalSet(k), t)
    case 0x23 => WithIndex((k: nat) => GlobalGet(k), t)
    case 0x24 => WithIndex((k: nat) => GlobalSet(k), t)
    case 0x45 => Some((I32Eqz, t))
    case 0x4b => Some((I32GtU, t))
    case 0x6a => Some((I32Add, t))
    case 0x6b => Some((I32Sub, t))
    case 0x71 => Some((I32And, t))
    case 0x76 => Some((I32ShrU, t))
    case 0xad => Some((I64ExtendI32U, t))
    case 0x86 => Some((I64Shl, t))
    case 0x84 => Some((I64Or, t))
    case 0x3a => if t == [] || t[0] != 0 then None else WithIndex((k: nat) => I32Store8(k), t[1..])
    case 0xfc => if |t| >= 3 && t[0] == 0x0a && t[1] == 0 && t[2] == 0 then Some((MemoryCopy, t[3..])) else None
    case 0x0f => Some((Return, t))
    case _ => None
  }

  /** Instructions up to and including the matching `end`. */
  function ReadCode(s: seq<byte>): (r: Parsed<Code>)
    ensures r.Some? ==> |r.value.1| < |s|
    decreases |s|
  {
    if s == [] then None
    else if s[0] == 0x0b then Some((Done, s[1..]))
    else
      var first: Parsed<Instr> :=
        if s[0] == 0x04 then
          if |s| < 2 || s[1] != 0x40 then None
          else match ReadCode(s[2..])
            case None => None
            case Some((body, rest)) => Some((If(body), rest))
        else ReadSimple(s);
      match first
      case None => None
      case Some((i, rest)) =>
        match ReadCode(rest)
        case None => None
        case Some((tail, rest')) => Some((Then(i, tail), rest'))
  }

  function ReadMany<T>(n: nat, p: Parser<T>, s: seq<byte>): Parsed<seq<T>> {
    if n == 0 then Some(([], s))
    else match p(s)
      case None => None
      case Some((x, rest)) =>
        match ReadMany(n - 1, p, rest)
        case None => None
        case Some((xs, rest')) => Some(([x] + xs, rest'))
  }

  function ReadVec<T>(p: Parser<T>, s: seq<byte>): Parsed<seq<T>> {
    match ReadU32(s)
    case None => None
    case Some((n, rest)) => ReadMany(n, p, rest)
  }

  /** A length-prefixed run of bytes, split off from what follows. */
  function ReadSized(s: seq<byte>): Parsed<seq<byte>> {
    match ReadU32(s)
    case None => None
    case Some((n, rest)) => if n <= |rest| then Some((rest[..n], rest[n..])) else None
  }

  function ReadType(s: seq<byte>): Parsed<ValType> {
    if s == [] then None
    else if s[0] == 0x7f then Some((I32, s[1..]))
    else if s[0] == 0x7e then Some((I64, s[1..]))
    else None
  }

  function ReadFuncType(s: seq<byte>): Parsed<FuncType> {
    if s == [] || s[0] != 0x60 then None
    else match ReadVec(ReadType, s[1..])
      case None => None
      case Some((params, rest)) =>
        match ReadVec(ReadType, rest)
        case None => None
        case Some((results, rest')) => Some((FuncType(params, results), rest'))
  }

  function ReadLocalGroup(s: seq<byte>): Parsed<nat> {
    match ReadU32(s)
    case None => None
    case Some((n, rest)) => if rest != [] && rest[0] == 0x7f then Some((n, rest[1..])) else None
  }

  function Sum(xs: seq<nat>): nat {
    if xs == [] then 0 else xs[0] + Sum(xs[1..])
  }

  function ReadBody(s: seq<byte>): Parsed<Body> {
    match ReadSized(s)
    case None => None
    case Some((content, rest)) =>
      match ReadVec(ReadLocalGroup, content)
      case None => None
      case Some((groups, code)) =>
        match ReadCode(code)
        case None => None
        case Some((c, trailing)) => if trailing == [] then Some((Body(Sum(groups), c), rest)) else None
  }

  function ReadGlobal(s: seq<byte>): Parsed<Code> {
    if |s| >= 2 && s[0] == 0x7f && s[1] == 0x01 then ReadCode(s[2..]) else None
  }

  function ReadExport(s: seq<byte>): Parsed<Export> {
    match ReadSized(s)
    case None => None
    case Some((name, rest)) =>
      if rest == [] then None
      else match ReadU32(rest[1..])
        case None => None
        case Some((k, rest')) => Some((Export(name, rest[0], k), rest'))
  }

  function ReadLimits(s: seq<byte>): Parsed<nat> {
    if s == [] || s[0] != 0 then None else ReadU32(s[1..])
  }

  function ReadData(s: seq<byte>): Parsed<Data> {
    if s == [] || s[0] != 0 then None
    else match ReadCode(s[1..])
      case None => None
      case Some((offset, rest)) =>
        match ReadSized(rest)
        case None => None
        case Some((init, rest')) => Some((Data(offset, init), rest'))
  }

  /** A section with the expected id whose declared size is exactly that of a vector of `p`. */
  function ReadSec<T>(id: byte, p: Parser<T>, s: seq<byte>): Parsed<seq<T>> {
    if s == [] || s[0] != id then None
    else match ReadSized(s[1..])
      case None => None
      case Some((content, rest)) =>
        match ReadVec(p, content)
        case None => None
        case Some((xs, trailing)) => if trailing == [] then Some((xs, rest)) else None
  }

  function ReadModule(s: seq<byte>): Option<Module> {
    if !(MAGIC <= s) then None else
    match ReadSec(1, ReadFuncType, s[|MAGIC|..])
    case None => None
    case Some((types, s1)) =>
      match ReadSec(3, ReadU32, s1)
      case None => None
      case Some((funcs, s3)) =>
        match ReadSec(5, ReadLimits, s3)
        case None => None
        case Some((memories, s5)) =>
          if |memories| != 1 then None else
          match ReadSec(6, ReadGlobal, s5)
          case None => None
          case Some((globals, s6)) =>
            match ReadSec(7, ReadExport, s6)
            case None => None
            case Some((exports, s7)) =>
              match ReadSec(10, ReadBody, s7)
              case None => None
              case Some((bodies, s10)) =>
                match ReadSec(11, ReadData, s10)
                case None => None
                case Some((data, trailing)) =>
                  if |bodies| != |funcs| || trailing != [] then None
                  else Some(Module(types, funcs, memories[0], globals, exports, bodies, data))
  }

  // ---------- what can be encoded ----------

  predicate SimpleOk(i: Instr)
    requires !i.If?
  {
    match i
    case I32Const(v) => -0x8000_0000 <= v < 0x8000_0000
    case I64Const(v) => -0x8000_0000_0000_0000 <= v < 0x8000_0000_0000_0000
    case LocalGet(k) => k < U32
    case LocalSet(k) => k < U32
    case GlobalGet(k) => k < U32
    case GlobalSet(k) => k < U32
    case I32Store8(offset) => offset < U32
    case _ => true
  }

  predicate CodeOk(c: Code) {
    match c
    case Done => true
    case Then(i, tail) => (if i.If? then CodeOk(i.body) else SimpleOk(i)) && CodeOk(tail)
  }

  /** Every declared section size fits a u32. */
  predicate SectionsFit(m: Module) {
    && |Vec(Each(EncodeFuncType, m.types))| < U32
    && |Vec(Each(Uleb, m.funcs))| < U32
    && |Vec(Each(EncodeGlobal, m.globals))| < U32
    && |Vec(Each(EncodeExport, m.exports))| < U32
    && |Vec(Each(EncodeBody, m.bodies))| < U32
    && |Vec(Each(EncodeData, m.data))| < U32
  }

  predicate ModuleOk(m: Module) {
    && (forall k | 0 <= k < |m.funcs| :: m.funcs[k] < U32)
    && |m.bodies| == |m.funcs|
    && m.memoryMin < 128
    && (forall k | 0 <= k < |m.globals| :: CodeOk(m.globals[k]))
    && (forall k | 0 <= k < |m.exports| :: m.exports[k].index < U32)
    && (forall k | 0 <= k < |m.bodies| :: CodeOk(m.bodies[k].code) && m.bodies[k].locals < 128)
    && (forall k | 0 <= k < |m.data| :: CodeOk(m.data[k].offset))
    && SectionsFit(m)
  }
}
