/** The decoder inverts the encoders of transports/tools/wasmasm.mjs, from single integers up to whole modules. */
module WasmRoundTrip {
  import opened Bytes
  import opened Leb128
  import opened WasmSyntax

  lemma U32RoundTrip(n: nat, rest: seq<byte>)
    requires n < U32
    ensures ReadU32(Uleb(n) + rest) == Some((n, rest))
  {
    UlebRoundTrip(n, rest);
    Pow2Values();
    Pow2Add(32, 3);
    UlebLength(n, 5);
  }

  lemma S32RoundTrip(v: int, rest: seq<byte>)
    requires -0x8000_0000 <= v < 0x8000_0000
    ensures ReadS32(Sleb(v) + rest) == Some((v, rest))
  {
    SlebRoundTrip(v, rest);
    Pow2Values();
    Pow2Add(32, 2);
    SlebLength(v, 5);
  }

  lemma S64RoundTrip(v: int, rest: seq<byte>)
    requires -0x8000_0000_0000_0000 <= v < 0x8000_0000_0000_0000
    ensures ReadS64(Sleb(v) + rest) == Some((v, rest))
  {
    SlebRoundTrip(v, rest);
    Pow2Values();
    Pow2Add(64, 5);
    SlebLength(v, 10);
  }

  // ---------- instructions ----------

  lemma ConstRoundTrip(i: Instr, rest: seq<byte>)
    requires (i.I32Const? || i.I64Const?) && SimpleOk(i)
    ensures ReadSimple(EncodeSimple(i) + rest) == Some((i, rest))
  {
    if i.I32Const? {
      S32RoundTrip(i.v, rest);
      AfterFirst(0x41, Sleb(i.v), rest);
    } else {
      S64RoundTrip(i.v, rest);
      AfterFirst(0x42, Sleb(i.v), rest);
    }
  }

  predicate Indexed(i: Instr) {
    i.LocalGet? || i.LocalSet? || i.GlobalGet? || i.GlobalSet?
  }

  lemma IndexedRoundTrip(i: Instr, rest: seq<byte>)
    requires Indexed(i) && SimpleOk(i)
    ensures ReadSimple(EncodeSimple(i) + rest) == Some((i, rest))
  {
    U32RoundTrip(i.i, rest);
    AfterFirst(EncodeSimple(i)[0], Uleb(i.i), rest);
    assert EncodeSimple(i) == [EncodeSimple(i)[0]] + Uleb(i.i);
  }

  lemma StoreRoundTrip(i: Instr, rest: seq<byte>)
    requires i.I32Store8? && SimpleOk(i)
    ensures ReadSimple(EncodeSimple(i) + rest) == Some((i, rest))
  {
    U32RoundTrip(i.offset, rest);
    AfterFirst(0x3a, [0x00] + Uleb(i.offset), rest);
    AfterFirst(0x00, Uleb(i.offset), rest);
    assert EncodeSimple(i) == [0x3a] + ([0x00] + Uleb(i.offset));
  }

  lemma PlainRoundTrip(i: Instr, rest: seq<byte>)
    requires !i.If? && !i.I32Const? && !i.I64Const? && !Indexed(i) && !i.I32Store8?
    ensures ReadSimple(EncodeSimple(i) + rest) == Some((i, rest))
  {
    var s := EncodeSimple(i) + rest;
    if i.MemoryCopy? {
      assert s[1..][3..] == rest;
    } else {
      assert s[1..] == rest;
    }
  }

  lemma SimpleRoundTrip(i: Instr, rest: seq<byte>)
    requires !i.If? && SimpleOk(i)
    ensures ReadSimple(EncodeSimple(i) + rest) == Some((i, rest))
    ensures EncodeSimple(i) != [] && EncodeSimple(i)[0] !in {0x04, 0x0b}
  {
    if i.I32Const? || i.I64Const? {
      ConstRoundTrip(i, rest);
    } else if Indexed(i) {
      IndexedRoundTrip(i, rest);
    } else if i.I32Store8? {
      StoreRoundTrip(i, rest);
    } else {
      PlainRoundTrip(i, rest);
    }
  }

  lemma SimpleStep(i: Instr, tail: Code, s: seq<byte>, after: seq<byte>, rest: seq<byte>)
    requires !i.If? && SimpleOk(i) && s == EncodeSimple(i) + after
    requires ReadCode(after) == Some((tail, rest))
    ensures ReadCode(s) == Some((Then(i, tail), rest))
  {
    SimpleRoundTrip(i, after);
  }

  lemma IfStep(body: Code, tail: Code, s: seq<byte>, inner: seq<byte>, after: seq<byte>, rest: seq<byte>)
    requires s == [0x04, 0x40] + inner
    requires ReadCode(inner) == Some((body, after))
    requires ReadCode(after) == Some((tail, rest))
    ensures ReadCode(s) == Some((Then(If(body), tail), rest))
  {
    assert s[2..] == inner;
  }

  lemma RegroupIf(body: seq<byte>, tail: seq<byte>, rest: seq<byte>)
    ensures [0x04, 0x40] + body + [0x0b] + tail + [0x0b] + rest
         == [0x04, 0x40] + (body + [0x0b] + (tail + [0x0b] + rest))
  {
  }

  lemma RegroupSimple(first: seq<byte>, tail: seq<byte>, rest: seq<byte>)
    ensures first + tail + [0x0b] + rest == first + (tail + [0x0b] + rest)
  {
  }

  lemma {:induction false} CodeRoundTrip(c: Code, rest: seq<byte>)
    requires CodeOk(c)
    ensures ReadCode(EncodeCode(c) + [0x0b] + rest) == Some((c, rest))
    decreases c
  {
    var s := EncodeCode(c) + [0x0b] + rest;
    match c {
      case Done => assert s[1..] == rest;
      case Then(i, tail) =>
        var after := EncodeCode(tail) + [0x0b] + rest;
        CodeRoundTrip(tail, rest);
        if i.If? {
          var inner := EncodeCode(i.body) + [0x0b] + after;
          CodeRoundTrip(i.body, after);
          RegroupIf(EncodeCode(i.body), EncodeCode(tail), rest);
          IfStep(i.body, tail, s, inner, after, rest);
        } else {
          RegroupSimple(EncodeSimple(i), EncodeCode(tail), rest);
          SimpleStep(i, tail, s, after, rest);
        }
    }
  }

  // ---------- vectors and sections ----------

  ghost predicate Inverts<T(!new)>(p: Parser<T>, f: T -> seq<byte>, x: T) {
    forall r: seq<byte> :: p(f(x) + r) == Some((x, r))
  }

  lemma {:induction false} ManyRoundTrip<T(!new)>(p: Parser<T>, f: T -> seq<byte>, xs: seq<T>, rest: seq<byte>)
    requires forall k | 0 <= k < |xs| :: Inverts(p, f, xs[k])
    ensures ReadMany(|xs|, p, Flatten(Each(f, xs)) + rest) == Some((xs, rest))
  {
    if xs == [] {
      assert Flatten(Each(f, xs)) + rest == rest;
    } else {
      assert Inverts(p, f, xs[0]);
      var after := Flatten(Each(f, xs[1..])) + rest;
      assert Flatten(Each(f, xs)) + rest == f(xs[0]) + after;
      assert p(f(xs[0]) + after) == Some((xs[0], after));
      forall k | 0 <= k < |xs| - 1 ensures Inverts(p, f, xs[1..][k]) {
        assert xs[1..][k] == xs[k + 1];
      }
      ManyRoundTrip(p, f, xs[1..], rest);
      assert [xs[0]] + xs[1..] == xs;
    }
  }

  lemma OneRoundTrip<T(!new)>(p: Parser<T>, s: seq<byte>, x: T, rest: seq<byte>)
    requires p(s) == Some((x, rest))
    ensures ReadMany(1, p, s) == Some(([x], rest))
  {
    assert ReadMany(0, p, rest) == Some(([], rest));
    assert [x] + [] == [x];
  }

  lemma VecRoundTrip<T(!new)>(p: Parser<T>, f: T -> seq<byte>, xs: seq<T>, rest: seq<byte>)
    requires |xs| < U32
    requires forall k | 0 <= k < |xs| :: Inverts(p, f, xs[k])
    ensures ReadVec(p, Vec(Each(f, xs)) + rest) == Some((xs, rest))
  {
    var items := Flatten(Each(f, xs)) + rest;
    assert Vec(Each(f, xs)) + rest == Uleb(|xs|) + items;
    U32RoundTrip(|xs|, items);
    ManyRoundTrip(p, f, xs, rest);
  }

  lemma SizedRoundTrip(content: seq<byte>, rest: seq<byte>)
    requires |content| < U32
    ensures ReadSized(Str(content) + rest) == Some((content, rest))
  {
    assert Str(content) + rest == Uleb(|content|) + (content + rest);
    U32RoundTrip(|content|, content + rest);
  }

  /** A vector is at least as long as its element count, when no element is empty. */
  lemma {:induction false} FlattenLength<T(!new)>(f: T -> seq<byte>, xs: seq<T>)
    requires forall k | 0 <= k < |xs| :: |f(xs[k])| >= 1
    ensures |Flatten(Each(f, xs))| >= |xs|
    ensures forall k | 0 <= k < |xs| :: |f(xs[k])| <= |Flatten(Each(f, xs))|
  {
    if xs != [] {
      FlattenLength(f, xs[1..]);
      forall k | 0 <= k < |xs| ensures |f(xs[k])| <= |Flatten(Each(f, xs))| {
        if k > 0 {
          assert xs[k] == xs[1..][k - 1];
        }
      }
    }
  }

  lemma SecOfContent<T(!new)>(id: byte, p: Parser<T>, content: seq<byte>, xs: seq<T>, rest: seq<byte>)
    requires |content| < U32
    requires ReadVec(p, content) == Some((xs, []))
    ensures ReadSec(id, p, Sec(id, content) + rest) == Some((xs, rest))
  {
    assert Sec(id, content) + rest == [id] + (Str(content) + rest);
    SizedRoundTrip(content, rest);
  }

  lemma SecRoundTrip<T(!new)>(id: byte, p: Parser<T>, f: T -> seq<byte>, xs: seq<T>, rest: seq<byte>)
    requires |Vec(Each(f, xs))| < U32
    requires forall k | 0 <= k < |xs| :: |f(xs[k])| >= 1
    requires forall k | 0 <= k < |xs| :: Inverts(p, f, xs[k])
    ensures ReadSec(id, p, Sec(id, Vec(Each(f, xs))) + rest) == Some((xs, rest))
  {
    var content := Vec(Each(f, xs));
    FlattenLength(f, xs);
    VecRoundTrip(p, f, xs, []);
    assert content + [] == content;
    SecOfContent(id, p, content, xs, rest);
  }

  // ---------- section entries ----------

  lemma TypesInvert(ts: seq<ValType>)
    ensures forall k | 0 <= k < |ts| :: Inverts(ReadType, EncodeType, ts[k])
  {
    forall k, r: seq<byte> | 0 <= k < |ts|
      ensures ReadType(EncodeType(ts[k]) + r) == Some((ts[k], r))
    {
      assert (EncodeType(ts[k]) + r)[1..] == r;
    }
  }

  lemma FuncTypeRoundTrip(t: FuncType, r: seq<byte>)
    requires |t.params| < U32 && |t.results| < U32
    ensures ReadFuncType(EncodeFuncType(t) + r) == Some((t, r))
  {
    TypesInvert(t.params);
    TypesInvert(t.results);
    hide Vec, ReadVec, Each, Inverts;
    var params, results := Vec(Each(EncodeType, t.params)), Vec(Each(EncodeType, t.results));
    VecRoundTrip(ReadType, EncodeType, t.params, results + r);
    VecRoundTrip(ReadType, EncodeType, t.results, r);
    Assoc([0x60] + params, results, r);
    AfterFirst(0x60, params, results + r);
  }

  lemma FuncTypeInverts(t: FuncType)
    requires |EncodeFuncType(t)| < U32
    ensures Inverts(ReadFuncType, EncodeFuncType, t)
  {
    FlattenLength(EncodeType, t.params);
    FlattenLength(EncodeType, t.results);
    forall r: seq<byte> ensures ReadFuncType(EncodeFuncType(t) + r) == Some((t, r)) {
      FuncTypeRoundTrip(t, r);
    }
  }

  lemma IndexInverts(n: nat)
    requires n < U32
    ensures Inverts(ReadU32, Uleb, n)
  {
    forall r: seq<byte> ensures ReadU32(Uleb(n) + r) == Some((n, r)) {
      U32RoundTrip(n, r);
    }
  }

  lemma GlobalInverts(c: Code)
    requires CodeOk(c)
    ensures Inverts(ReadGlobal, EncodeGlobal, c)
  {
    hide ReadCode, EncodeCode, CodeOk;
    forall r: seq<byte> ensures ReadGlobal(EncodeGlobal(c) + r) == Some((c, r)) {
      CodeRoundTrip(c, r);
      assert (EncodeGlobal(c) + r)[2..] == EncodeCode(c) + [0x0b] + r;
    }
  }

  lemma ExportInverts(e: Export)
    requires e.index < U32 && |e.name| < U32
    ensures Inverts(ReadExport, EncodeExport, e)
  {
    forall r: seq<byte> ensures ReadExport(EncodeExport(e) + r) == Some((e, r)) {
      var after := [e.kind] + (Uleb(e.index) + r);
      assert EncodeExport(e) + r == Str(e.name) + after;
      SizedRoundTrip(e.name, after);
      U32RoundTrip(e.index, r);
      assert after[1..] == Uleb(e.index) + r;
    }
  }

  lemma LocalsRoundTrip(b: Body, rest: seq<byte>)
    requires b.locals < 128
    ensures var declared := if b.locals > 0 then Vec([[b.locals % 256, 0x7f]]) else [0];
            var groups := if b.locals > 0 then [b.locals] else [];
            ReadVec(ReadLocalGroup, declared + rest) == Some((groups, rest)) && Sum(groups) == b.locals
  {
    if b.locals == 0 {
      U32RoundTrip(0, rest);
    } else {
      var group: seq<byte> := [b.locals % 256, 0x7f];
      assert Flatten([group]) == group;
      var s := Vec([group]) + rest;
      assert s == Uleb(1) + (group + rest);
      U32RoundTrip(1, group + rest);
      var t := group + rest;
      assert t == Uleb(b.locals) + ([0x7f] + rest);
      U32RoundTrip(b.locals, [0x7f] + rest);
      assert ([0x7f as byte] + rest)[1..] == rest;
      assert ReadLocalGroup(t) == Some((b.locals, rest));
      OneRoundTrip(ReadLocalGroup, t, b.locals, rest);
      assert Sum([b.locals]) == b.locals + Sum([]);
    }
  }

  lemma BodyInverts(b: Body)
    requires CodeOk(b.code) && b.locals < 128 && |BodyContent(b)| < U32
    ensures Inverts(ReadBody, EncodeBody, b)
  {
    var content := BodyContent(b);
    var code := EncodeCode(b.code) + [0x0b];
    var declared := if b.locals > 0 then Vec([[b.locals % 256, 0x7f]]) else [0];
    assert content == declared + code;
    LocalsRoundTrip(b, code);
    CodeRoundTrip(b.code, []);
    assert code + [] == code;
    forall r: seq<byte> ensures ReadBody(EncodeBody(b) + r) == Some((b, r)) {
      SizedRoundTrip(content, r);
    }
  }

  lemma LimitsInvert(n: nat)
    requires n < 128
    ensures forall r: seq<byte> :: ReadLimits([0x00, n % 256] + r) == Some((n, r))
  {
    forall r: seq<byte> ensures ReadLimits([0x00, n % 256] + r) == Some((n, r)) {
      U32RoundTrip(n, r);
      assert ([0x00, n % 256] + r)[1..] == Uleb(n) + r;
    }
  }

  lemma RegroupData(code: seq<byte>, init: seq<byte>, rest: seq<byte>)
    ensures var s := [0x00] + code + [0x0b] + init + rest;
            s != [] && s[0] == 0 && s[1..] == code + [0x0b] + (init + rest)
  {
    assert [0x00] + code + [0x0b] + init + rest == [0x00] + (code + [0x0b] + (init + rest));
  }

  lemma DataInverts(d: Data)
    requires CodeOk(d.offset) && |d.init| < U32
    ensures Inverts(ReadData, EncodeData, d)
  {
    forall r: seq<byte> ensures ReadData(EncodeData(d) + r) == Some((d, r)) {
      var after := Str(d.init) + r;
      RegroupData(EncodeCode(d.offset), Str(d.init), r);
      CodeRoundTrip(d.offset, after);
      SizedRoundTrip(d.init, r);
    }
  }

  // ---------- modules ----------

  lemma MemoryRoundTrip(n: nat, rest: seq<byte>)
    requires n < 128
    ensures ReadSec(5, ReadLimits, Sec(5, Vec([[0x00, n % 256]])) + rest) == Some(([n], rest))
  {
    var entry: seq<byte> := [0x00, n % 256];
    var content := Vec([entry]);
    assert Flatten([entry]) == entry;
    assert content == Uleb(1) + entry;
    assert entry == entry + [];
    LimitsInvert(n);
    U32RoundTrip(1, entry);
    assert ReadLimits(entry + []) == Some((n, []));
    OneRoundTrip(ReadLimits, entry, n, []);
    SecOfContent(5, ReadLimits, content, [n], rest);
  }

  lemma ChainSections(m: Module, s: seq<byte>, s1: seq<byte>, s3: seq<byte>, s5: seq<byte>, s6: seq<byte>,
                      s7: seq<byte>, s10: seq<byte>)
    requires MAGIC <= s && |m.bodies| == |m.funcs|
    requires ReadSec(1, ReadFuncType, s[|MAGIC|..]) == Some((m.types, s1))
    requires ReadSec(3, ReadU32, s1) == Some((m.funcs, s3))
    requires ReadSec(5, ReadLimits, s3) == Some(([m.memoryMin], s5))
    requires ReadSec(6, ReadGlobal, s5) == Some((m.globals, s6))
    requires ReadSec(7, ReadExport, s6) == Some((m.exports, s7))
    requires ReadSec(10, ReadBody, s7) == Some((m.bodies, s10))
    requires ReadSec(11, ReadData, s10) == Some((m.data, []))
    ensures ReadModule(s) == Some(m)
  {
  }

  lemma Nest(a: seq<byte>, b: seq<byte>, c: seq<byte>, d: seq<byte>, e: seq<byte>, f: seq<byte>, g: seq<byte>,
             h: seq<byte>)
    ensures a + b + c + d + e + f + g + h == a + (b + (c + (d + (e + (f + (g + h))))))
  {
  }

  lemma TypesSection(m: Module, rest: seq<byte>)
    requires SectionsFit(m)
    ensures ReadSec(1, ReadFuncType, Sec(1, Vec(Each(EncodeFuncType, m.types))) + rest) == Some((m.types, rest))
  {
    FlattenLength(EncodeFuncType, m.types);
    forall k | 0 <= k < |m.types| ensures Inverts(ReadFuncType, EncodeFuncType, m.types[k]) {
      FuncTypeInverts(m.types[k]);
    }
    SecRoundTrip(1, ReadFuncType, EncodeFuncType, m.types, rest);
  }

  lemma FuncsSection(m: Module, rest: seq<byte>)
    requires ModuleOk(m)
    ensures ReadSec(3, ReadU32, Sec(3, Vec(Each(Uleb, m.funcs))) + rest) == Some((m.funcs, rest))
  {
    forall k | 0 <= k < |m.funcs| ensures Inverts(ReadU32, Uleb, m.funcs[k]) {
      IndexInverts(m.funcs[k]);
    }
    SecRoundTrip(3, ReadU32, Uleb, m.funcs, rest);
  }

  lemma GlobalsSection(m: Module, rest: seq<byte>)
    requires ModuleOk(m)
    ensures ReadSec(6, ReadGlobal, Sec(6, Vec(Each(EncodeGlobal, m.globals))) + rest) == Some((m.globals, rest))
  {
    forall k | 0 <= k < |m.globals| ensures Inverts(ReadGlobal, EncodeGlobal, m.globals[k]) {
      GlobalInverts(m.globals[k]);
    }
    SecRoundTrip(6, ReadGlobal, EncodeGlobal, m.globals, rest);
  }

  lemma ExportsSection(m: Module, rest: seq<byte>)
    requires ModuleOk(m)
    ensures ReadSec(7, ReadExport, Sec(7, Vec(Each(EncodeExport, m.exports))) + rest) == Some((m.exports, rest))
  {
    FlattenLength(EncodeExport, m.exports);
    forall k | 0 <= k < |m.exports| ensures Inverts(ReadExport, EncodeExport, m.exports[k]) {
      ExportInverts(m.exports[k]);
    }
    SecRoundTrip(7, ReadExport, EncodeExport, m.exports, rest);
  }

  lemma BodiesSection(m: Module, rest: seq<byte>)
    requires ModuleOk(m)
    ensures ReadSec(10, ReadBody, Sec(10, Vec(Each(EncodeBody, m.bodies))) + rest) == Some((m.bodies, rest))
  {
    FlattenLength(EncodeBody, m.bodies);
    forall k | 0 <= k < |m.bodies| ensures Inverts(ReadBody, EncodeBody, m.bodies[k]) {
      BodyInverts(m.bodies[k]);
    }
    SecRoundTrip(10, ReadBody, EncodeBody, m.bodies, rest);
  }

  lemma DataSection(m: Module, rest: seq<byte>)
    requires ModuleOk(m)
    ensures ReadSec(11, ReadData, Sec(11, Vec(Each(EncodeData, m.data))) + rest) == Some((m.data, rest))
  {
    FlattenLength(EncodeData, m.data);
    forall k | 0 <= k < |m.data| ensures Inverts(ReadData, EncodeData, m.data[k]) {
      DataInverts(m.data[k]);
    }
    SecRoundTrip(11, ReadData, EncodeData, m.data, rest);
  }

  /** Every section of a module, and the sizes it declares, decode back to the module that was encoded. */
  lemma ModuleRoundTrip(m: Module)
    requires ModuleOk(m)
    ensures ReadModule(EncodeModule(m)) == Some(m)
  {
    hide Sec, Vec, Each, ReadModule, ReadSec, SectionsFit;
    var t11 := Sec(11, Vec(Each(EncodeData, m.data)));
    var t10 := Sec(10, Vec(Each(EncodeBody, m.bodies))) + t11;
    var t7 := Sec(7, Vec(Each(EncodeExport, m.exports))) + t10;
    var t6 := Sec(6, Vec(Each(EncodeGlobal, m.globals))) + t7;
    var t5 := Sec(5, Vec([[0x00, m.memoryMin % 256]])) + t6;
    var t3 := Sec(3, Vec(Each(Uleb, m.funcs))) + t5;
    var t1 := Sec(1, Vec(Each(EncodeFuncType, m.types))) + t3;
    TypesSection(m, t3);
    FuncsSection(m, t5);
    MemoryRoundTrip(m.memoryMin, t6);
    GlobalsSection(m, t7);
    ExportsSection(m, t10);
    BodiesSection(m, t11);
    DataSection(m, []);
    assert t11 + [] == t11;
    Nest(MAGIC, Sec(1, Vec(Each(EncodeFuncType, m.types))), Sec(3, Vec(Each(Uleb, m.funcs))),
         Sec(5, Vec([[0x00, m.memoryMin % 256]])), Sec(6, Vec(Each(EncodeGlobal, m.globals))),
         Sec(7, Vec(Each(EncodeExport, m.exports))), Sec(10, Vec(Each(EncodeBody, m.bodies))), t11);
    ChainSections(m, EncodeModule(m), t3, t5, t6, t7, t10, t11);
  }
}
