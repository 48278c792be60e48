/** The module-level state of transports/tools/wasmasm.mjs (`CAPS` and the `fns` table of encoded bodies) and
    `buildQueueModule`, which reassigns both before it assembles the bytes. */
module WasmAssembler {
  import opened Bytes
  import opened Leb128
  import opened WasmSyntax
  import opened WasmQueue
  import opened WasmModule

  /** A row of `fns` with its body already assembled. */
  datatype Row = Row(typeIdx: nat, name: seq<byte>, body: seq<byte>)

  function Rows(capsLength: nat): (rows: seq<Row>)
    ensures |rows| == 10
  {
    var fns := Fns(capsLength);
    seq(10, i requires 0 <= i < 10 => Row(fns[i].typeIdx, fns[i].name, EncodeBody(fns[i].body)))
  }

  lemma {:induction false} EachIs<T(!new)>(f: T -> seq<byte>, xs: seq<T>, ys: seq<seq<byte>>)
    requires |xs| == |ys| && forall k | 0 <= k < |xs| :: ys[k] == f(xs[k])
    ensures Each(f, xs) == ys
  {
    if xs != [] {
      EachIs(f, xs[1..], ys[1..]);
      assert ys == [ys[0]] + ys[1..];
    }
  }

  lemma {:induction false} FlattenSingles(bytes: seq<byte>)
    ensures Flatten(seq(|bytes|, i requires 0 <= i < |bytes| => [bytes[i]])) == bytes
  {
    var items := seq(|bytes|, i requires 0 <= i < |bytes| => [bytes[i]]);
    if bytes != [] {
      var rest := bytes[1..];
      assert items[1..] == seq(|rest|, i requires 0 <= i < |rest| => [rest[i]]);
      FlattenSingles(rest);
      assert bytes == [bytes[0]] + rest;
    }
  }

  lemma RowsDiffer(a: nat, b: nat)
    ensures Rows(a)[1 := Rows(a)[1].(body := EncodeBody(CapsBody(b)))] == Rows(b)
  {
    hide EncodeBody, CapsBody, AllocBody, SendBody, PollBody, AckBody, StartBody, StopBody, StatusBody, Ascii;
  }

  // ---------- the byte array literal of buildQueueModule ----------

  function ExportEntries(fns: seq<Row>): (e: seq<seq<byte>>)
    ensures |e| == |fns| + 1
  {
    seq(|fns|, i requires 0 <= i < |fns| => Str(fns[i].name) + [0x00] + Uleb(i))
    + [Str(Ascii("memory")) + [0x02] + Uleb(0)]
  }

  function TypeEntries(): (e: seq<seq<byte>>)
    ensures |e| == 7
  {
    seq(7, i requires 0 <= i < 7 => EncodeFuncType(Types()[i]))
  }

  function IndexEntries(fns: seq<Row>): (e: seq<seq<byte>>)
    ensures |e| == |fns|
  {
    seq(|fns|, i requires 0 <= i < |fns| => Uleb(fns[i].typeIdx))
  }

  function BodyEntries(fns: seq<Row>): (e: seq<seq<byte>>)
    ensures |e| == |fns|
  {
    seq(|fns|, i requires 0 <= i < |fns| => fns[i].body)
  }

  function GlobalEntry(v: nat): seq<byte> {
    [0x7f, 0x01] + EncodeCode(Const32(v)) + [0x0b]
  }

  function DataEntry(caps: seq<byte>): seq<byte> {
    [0x00] + EncodeCode(Const32(CAPS_AT)) + [0x0b] + Vec(seq(|caps|, i requires 0 <= i < |caps| => [caps[i]]))
  }

  function ModuleBytes(fns: seq<Row>, caps: seq<byte>): seq<byte> {
    MAGIC
    + Sec(1, Vec(TypeEntries()))
    + Sec(3, Vec(IndexEntries(fns)))
    + Sec(5, Vec([[0x00, 0x02]]))
    + Sec(6, Vec([GlobalEntry(0), GlobalEntry(0), GlobalEntry(HEAP)]))
    + Sec(7, Vec(ExportEntries(fns)))
    + Sec(10, Vec(BodyEntries(fns)))
    + Sec(11, Vec([DataEntry(caps)]))
  }

  lemma RowEntries(caps: seq<byte>)
    ensures var m, rows := QueueModule(caps), Rows(|caps|);
            && Each(Uleb, m.funcs) == IndexEntries(rows)
            && Each(EncodeBody, m.bodies) == BodyEntries(rows)
            && Each(EncodeExport, m.exports) == ExportEntries(rows)
  {
    hide Fns, EncodeBody, Uleb, Ascii, Each, Types, Const32;
    var m, rows := QueueModule(caps), Rows(|caps|);
    EachIs(Uleb, m.funcs, IndexEntries(rows));
    EachIs(EncodeBody, m.bodies, BodyEntries(rows));
    EachIs(EncodeExport, m.exports, ExportEntries(rows));
  }

  lemma BytesAreModule(fns: seq<Row>, caps: seq<byte>)
    requires fns == Rows(|caps|)
    ensures ModuleBytes(fns, caps) == EncodeModule(QueueModule(caps))
  {
    hide Fns, Rows, Sec, EncodeCode, EncodeFuncType, Uleb, Each, Const32, Flatten, Types, IndexEntries, BodyEntries,
         ExportEntries;
    var m := QueueModule(caps);
    RowEntries(caps);
    EachIs(EncodeFuncType, m.types, TypeEntries());
    EachIs(EncodeGlobal, m.globals, [GlobalEntry(0), GlobalEntry(0), GlobalEntry(HEAP)]);
    FlattenSingles(caps);
    EachIs(EncodeData, m.data, [DataEntry(caps)]);
  }

  class Assembler {
    var caps: seq<byte>
    var fns: seq<Row>

    /** Only the body of `ntx_caps` depends on the capability string. */
    ghost predicate Valid()
      reads this
    {
      fns == Rows(|caps|)
    }

    constructor ()
      ensures Valid() && caps == Ascii("message")
    {
      caps := Ascii("message");
      fns := Rows(|Ascii("message")|);
    }

    /** Refuses a capability string over 32 bytes without touching the state; otherwise the bytes are those of the
        module meant for that string, whatever was built before. */
    method BuildQueueModule(capsCsv: seq<byte>) returns (r: Option<seq<byte>>)
      requires Valid()
      modifies this
      ensures Valid()
      ensures |capsCsv| > MAX_CAPS ==> r == None && caps == old(caps) && fns == old(fns)
      ensures |capsCsv| <= MAX_CAPS ==> caps == capsCsv && r == Some(EncodeModule(QueueModule(capsCsv)))
    {
      hide Rows, EncodeBody, CapsBody, EncodeModule, QueueModule, ModuleBytes;
      if |capsCsv| > MAX_CAPS {
        return None;
      }
      caps := capsCsv;
      fns := fns[1 := fns[1].(body := EncodeBody(CapsBody(|caps|)))];
      RowsDiffer(old(|caps|), |caps|);
      r := Some(Assemble());
    }

    /** The array literal, from the current rows and capability string. */
    function Assemble(): (bytes: seq<byte>)
      requires Valid()
      reads this
      ensures bytes == EncodeModule(QueueModule(caps))
    {
      BytesAreModule(fns, caps);
      ModuleBytes(fns, caps)
    }
  }
}
