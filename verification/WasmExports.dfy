/** Calls as a host makes them: by the name of an export, with the parameters and the result of its declared type. */
module WasmExports {
  import opened Bytes
  import opened WasmSyntax
  import opened WasmMachine
  import opened WasmQueue
  import opened WasmModule

  /** The index of the function exported under a name. */
  function Exported(exports: seq<Export>, name: seq<byte>): Option<nat> {
    if exports == [] then None
    else if exports[0].kind == 0 && exports[0].name == name then Some(exports[0].index)
    else Exported(exports[1..], name)
  }

  /** Its declared type and its body. */
  function Entry(m: Module, name: string): Option<(FuncType, Body)> {
    match Exported(m.exports, Ascii(name))
    case None => None
    case Some(i) =>
      if i < |m.funcs| && i < |m.bodies| && m.funcs[i] < |m.types| then Some((m.types[m.funcs[i]], m.bodies[i]))
      else None
  }

  function I32s(n: nat): seq<ValType> {
    seq(n, _ => I32)
  }

  function TypeOf(v: Val): ValType {
    match v case V32(_) => I32 case V64(_) => I64
  }

  /** A call that the declared type does not allow, or whose result it does not have, is invalid. */
  function Call(m: Module, name: string, args: seq<u32>, store: Store): Result {
    match Entry(m, name)
    case None => Invalid
    case Some(entry) =>
      if entry.0.params != I32s(|args|) || |entry.0.results| != 1 then Invalid
      else
        var r := Invoke(entry.1, args, store);
        if r.Done? && TypeOf(r.value) != entry.0.results[0] then Invalid else r
  }

  // ---------- the exports of the queue module ----------

  /** What tells the ten names apart: the length and three letters. */
  function Key(name: seq<byte>): (nat, int, int, int) {
    if |name| < 7 then (|name|, 0, 0, 0) else (|name|, name[4], name[5], name[6])
  }

  lemma FirstKeys(n: nat)
    ensures var fns := Fns(n);
            && Key(fns[0].name) == (8, 105, 110, 105) && Key(fns[1].name) == (8, 99, 97, 112)
            && Key(fns[2].name) == (9, 115, 116, 97) && Key(fns[3].name) == (8, 115, 116, 111)
            && Key(fns[4].name) == (10, 115, 116, 97)
  {
    hide AckBody, CapsBody, StartBody, StopBody, StatusBody, AllocBody, SendBody, PollBody;
  }

  lemma LastKeys(n: nat)
    ensures var fns := Fns(n);
            && Key(fns[5].name) == (9, 97, 108, 108) && Key(fns[6].name) == (8, 115, 101, 110)
            && Key(fns[7].name) == (10, 97, 116, 116) && Key(fns[8].name) == (10, 100, 101, 116)
            && Key(fns[9].name) == (8, 112, 111, 108)
  {
    hide AckBody, CapsBody, StartBody, StopBody, StatusBody, AllocBody, SendBody, PollBody;
  }

  lemma MemoryKey()
    ensures Key(Ascii("memory")) == (6, 0, 0, 0)
  {
  }

  lemma NamesDiffer(n: nat)
    ensures forall i, j | 0 <= i < j < 10 :: Fns(n)[i].name != Fns(n)[j].name
    ensures forall i | 0 <= i < 10 :: Fns(n)[i].name != Ascii("memory")
  {
    hide Fns, Ascii, Key;
    var fns := Fns(n);
    FirstKeys(n);
    LastKeys(n);
    MemoryKey();
    forall i, j | 0 <= i < j < 10 ensures fns[i].name != fns[j].name {
      assert Key(fns[i].name) != Key(fns[j].name);
    }
    forall i | 0 <= i < 10 ensures fns[i].name != Ascii("memory") {
      assert Key(fns[i].name).0 != 6;
    }
  }

  lemma {:induction false} ExportedAt(exports: seq<Export>, i: nat)
    requires i < |exports| && exports[i].kind == 0 && forall j | 0 <= j < i :: exports[j].name != exports[i].name
    ensures Exported(exports, exports[i].name) == Some(exports[i].index)
  {
    if i > 0 {
      assert exports[0].name != exports[i].name;
      ExportedAt(exports[1..], i - 1);
    }
  }

  lemma EntryAt(caps: seq<byte>, i: nat, name: string)
    requires i < 10 && Fns(|caps|)[i].name == Ascii(name) && Fns(|caps|)[i].typeIdx < 7
    ensures Entry(QueueModule(caps), name) == Some((Types()[Fns(|caps|)[i].typeIdx], Fns(|caps|)[i].body))
  {
    hide Fns, Types, Ascii, Const32;
    var m := QueueModule(caps);
    NamesDiffer(|caps|);
    assert m.exports[i].name == Ascii(name) && forall j | 0 <= j < i :: m.exports[j].name == Fns(|caps|)[j].name;
    ExportedAt(m.exports, i);
  }

  /** What each of the ten names stands for, and its declared type. */
  lemma NamedEntries(caps: seq<byte>)
    ensures var m := QueueModule(caps);
            && Entry(m, "ntx_init") == Some((FuncType(I32s(2), [I32]), AckBody()))
            && Entry(m, "ntx_caps") == Some((FuncType(I32s(0), [I64]), CapsBody(|caps|)))
            && Entry(m, "ntx_start") == Some((FuncType(I32s(0), [I32]), StartBody()))
            && Entry(m, "ntx_stop") == Some((FuncType(I32s(0), [I32]), StopBody()))
            && Entry(m, "ntx_status") == Some((FuncType(I32s(0), [I32]), StatusBody()))
            && Entry(m, "ntx_alloc") == Some((FuncType(I32s(1), [I32]), AllocBody(HEAP_LIMIT)))
            && Entry(m, "ntx_send") == Some((FuncType(I32s(4), [I32]), SendBody(QUEUE)))
            && Entry(m, "ntx_attach") == Some((FuncType(I32s(6), [I32]), AckBody()))
            && Entry(m, "ntx_detach") == Some((FuncType(I32s(1), [I32]), AckBody()))
            && Entry(m, "ntx_poll") == Some((FuncType(I32s(3), [I64]), PollBody(OUT, QUEUE)))
  {
    hide AckBody, CapsBody, StartBody, StopBody, StatusBody, AllocBody, SendBody, PollBody, Ascii, Entry, QueueModule;
    EntryAt(caps, 0, "ntx_init");
    EntryAt(caps, 1, "ntx_caps");
    EntryAt(caps, 2, "ntx_start");
    EntryAt(caps, 3, "ntx_stop");
    EntryAt(caps, 4, "ntx_status");
    EntryAt(caps, 5, "ntx_alloc");
    EntryAt(caps, 6, "ntx_send");
    EntryAt(caps, 7, "ntx_attach");
    EntryAt(caps, 8, "ntx_detach");
    EntryAt(caps, 9, "ntx_poll");
    assert I32s(0) == [] && I32s(1) == [I32] && I32s(2) == [I32, I32] && I32s(3) == [I32, I32, I32];
    assert I32s(4) == [I32, I32, I32, I32] && I32s(6) == [I32, I32, I32, I32, I32, I32];
  }

  /** The exports have distinct names, and the eleventh is the memory. */
  lemma ExportsDistinct(caps: seq<byte>)
    ensures var e := QueueModule(caps).exports;
            && |e| == 11 && (forall i, j | 0 <= i < j < 11 :: e[i].name != e[j].name)
            && e[10] == Export(Ascii("memory"), 2, 0) && forall i | 0 <= i < 10 :: e[i].kind == 0 && e[i].index == i
  {
    NamesDiffer(|caps|);
    hide Fns, Types, Ascii, Const32;
  }
}
