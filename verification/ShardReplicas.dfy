/** Replica convergence: deliveries commute and are idempotent, and may come before `/create`. */
module ShardReplicas {
  import opened Bytes
  import opened KeyValue
  import opened Shard
  import opened ShardRuns

  /** What reaches one record while nothing is read and nothing goes stale. */
  datatype Event =
    | Deliver(entry: Entry, urls: seq<string>, now: int)
    | Make(hash: string, client: Option<string>, urls: seq<string>, now: int)

  function Apply(m: Option<Mailbox>, ev: Event): Option<Mailbox> {
    match ev
    case Deliver(e, urls, now) => Some(DeliverRecord(m, e, urls, now).0)
    case Make(hash, client, urls, now) => Some(CreateRecord(m, hash, client, urls, now))
  }

  function ApplyAll(m: Option<Mailbox>, evs: seq<Event>): Option<Mailbox>
    decreases |evs|
  {
    if evs == [] then m else ApplyAll(Apply(m, evs[0]), evs[1..])
  }

  function Queued(m: Option<Mailbox>): seq<Entry> {
    match m case None => [] case Some(r) => r.messages
  }

  function Secret(m: Option<Mailbox>): string {
    match m case None => "" case Some(r) => r.readSecretHash
  }

  function AsSet(es: seq<Entry>): set<Entry> {
    set e | e in es
  }

  function Delivered(evs: seq<Event>): set<Entry> {
    set ev | ev in evs && ev.Deliver? :: ev.entry
  }

  /** An id names one entry. */
  ghost predicate IdsIdentify(es: set<Entry>) {
    forall a, b | a in es && b in es && a.id == b.id :: a == b
  }

  predicate NoDuplicates(es: seq<Entry>) {
    forall i, j | 0 <= i < j < |es| :: es[i].id != es[j].id
  }

  /** The requests of the shard act on the record as these events do, whenever they are not refused. */
  lemma StepIsApply(lib: Lib, cfg: Config, s: State, op: Op, now: int)
    ensures var v := Visible(s, now);
            var (reply, s') := Step(lib, cfg, s, op, now);
            && (op.Replicate? && reply.Replicated? ==>
                  Lookup(s', op.id) == Apply(Lookup(v, op.id), Deliver(op.entry, op.urls, now)))
            && (op.Create? && reply.Created? ==>
                  Lookup(s', op.id) == Apply(Lookup(v, op.id), Make(op.hash, op.client, op.urls, now)))
  {
    StepStores(lib, cfg, s, op, now);
    hide Step, Visible, Holds;
  }

  lemma ApplyOne(m: Option<Mailbox>, ev: Event)
    requires NoDuplicates(Queued(m))
    requires IdsIdentify(AsSet(Queued(m)) + Delivered([ev]))
    ensures var m' := Apply(m, ev);
            && m'.Some? && NoDuplicates(Queued(m'))
            && AsSet(Queued(m')) == AsSet(Queued(m)) + Delivered([ev])
            && Secret(m') == (if ev.Make? then ev.hash else Secret(m))
  {
    var m' := Apply(m, ev);
    if ev.Deliver? {
      assert ev in [ev];
      assert ev.entry in Delivered([ev]);
      var before := match m case Some(r) => r case None => Mailbox("", None, [], ev.now, None, ev.urls);
      if Holds(before, ev.entry.id) {
        var k :| 0 <= k < |before.messages| && before.messages[k].id == ev.entry.id;
        assert before.messages[k] in AsSet(Queued(m));
        assert before.messages[k] == ev.entry;
        assert Delivered([ev]) == {ev.entry};
      } else {
        assert Queued(m') == Queued(m) + [ev.entry];
        assert Delivered([ev]) == {ev.entry};
        assert AsSet(Queued(m) + [ev.entry]) == AsSet(Queued(m)) + {ev.entry};
      }
    } else {
      assert Delivered([ev]) == {};
    }
  }

  function LastHash(evs: seq<Event>, otherwise: string): string
    decreases |evs|
  {
    if evs == [] then otherwise
    else LastHash(evs[1..], if evs[0].Make? then evs[0].hash else otherwise)
  }

  /** After any events the queue is the old entries and the delivered ones, each once, and the secret is that of the
      last `/create`. */
  lemma {:induction false} ApplyAllIs(m: Option<Mailbox>, evs: seq<Event>)
    requires NoDuplicates(Queued(m))
    requires IdsIdentify(AsSet(Queued(m)) + Delivered(evs))
    ensures var r := ApplyAll(m, evs);
            && NoDuplicates(Queued(r))
            && AsSet(Queued(r)) == AsSet(Queued(m)) + Delivered(evs)
            && Secret(r) == LastHash(evs, Secret(m))
    decreases |evs|
  {
    if evs == [] {
      assert Delivered(evs) == {};
    } else {
      hide Apply, NoDuplicates, Queued, Secret;
      DeliveredSplit(evs);
      IdentifySubset(AsSet(Queued(m)) + Delivered([evs[0]]), AsSet(Queued(m)) + Delivered(evs));
      ApplyOne(m, evs[0]);
      ApplyAllIs(Apply(m, evs[0]), evs[1..]);
    }
  }

  lemma IdentifySubset(a: set<Entry>, b: set<Entry>)
    requires a <= b && IdsIdentify(b)
    ensures IdsIdentify(a)
  {
  }

  lemma DeliveredSplit(evs: seq<Event>)
    requires evs != []
    ensures Delivered(evs) == Delivered([evs[0]]) + Delivered(evs[1..])
  {
    assert evs == [evs[0]] + evs[1..];
    forall e | e in Delivered(evs) ensures e in Delivered([evs[0]]) + Delivered(evs[1..]) {
      var ev :| ev in evs && ev.Deliver? && ev.entry == e;
      assert ev in [evs[0]] || ev in evs[1..];
    }
    forall e | e in Delivered([evs[0]]) + Delivered(evs[1..]) ensures e in Delivered(evs) {
      if e in Delivered([evs[0]]) {
        var ev :| ev in [evs[0]] && ev.Deliver? && ev.entry == e;
        assert ev in evs;
      } else {
        var ev :| ev in evs[1..] && ev.Deliver? && ev.entry == e;
        assert ev in evs;
      }
    }
  }

  predicate MakesCarry(evs: seq<Event>, hash: string) {
    forall i | 0 <= i < |evs| && evs[i].Make? :: evs[i].hash == hash
  }

  predicate HasMake(evs: seq<Event>) {
    exists i :: 0 <= i < |evs| && evs[i].Make?
  }

  lemma {:induction false} LastHashIs(evs: seq<Event>, otherwise: string, hash: string)
    requires MakesCarry(evs, hash)
    ensures LastHash(evs, otherwise) == if HasMake(evs) then hash else otherwise
    decreases |evs|
  {
    if evs != [] {
      assert forall i | 0 <= i < |evs| - 1 :: evs[1..][i] == evs[i + 1];
      LastHashIs(evs[1..], if evs[0].Make? then evs[0].hash else otherwise, hash);
      if HasMake(evs) && !evs[0].Make? {
        var i :| 0 <= i < |evs| && evs[i].Make?;
        assert evs[1..][i - 1].Make?;
      }
      if HasMake(evs[1..]) {
        var i :| 0 <= i < |evs| - 1 && evs[1..][i].Make?;
        assert evs[i + 1].Make?;
      }
    }
  }

  lemma {:induction false} SizeOfSet(es: seq<Entry>)
    requires NoDuplicates(es)
    ensures |AsSet(es)| == |es|
  {
    if es == [] {
      assert AsSet(es) == {};
    } else {
      var last := es[|es| - 1];
      SizeOfSet(es[..|es| - 1]);
      assert AsSet(es) == AsSet(es[..|es| - 1]) + {last};
      assert forall i | 0 <= i < |es| - 1 :: es[i].id != last.id;
    }
  }

  /** Two replicas that start alike and see the same entries, in any order and any number of times, interleaved with
      creations that carry the same secret, hold the same entries, none of them twice, behind the same secret. */
  lemma ReplicasConverge(m: Option<Mailbox>, xs: seq<Event>, ys: seq<Event>, hash: string)
    requires NoDuplicates(Queued(m)) && IdsIdentify(AsSet(Queued(m)) + Delivered(xs))
    requires Delivered(xs) == Delivered(ys)
    requires MakesCarry(xs, hash) && MakesCarry(ys, hash) && HasMake(xs) == HasMake(ys)
    ensures var a, b := ApplyAll(m, xs), ApplyAll(m, ys);
            && AsSet(Queued(a)) == AsSet(Queued(b)) && |Queued(a)| == |Queued(b)|
            && NoDuplicates(Queued(a)) && NoDuplicates(Queued(b))
            && Secret(a) == Secret(b)
  {
    ApplyAllIs(m, xs);
    ApplyAllIs(m, ys);
    LastHashIs(xs, Secret(m), hash);
    LastHashIs(ys, Secret(m), hash);
    SizeOfSet(Queued(ApplyAll(m, xs)));
    SizeOfSet(Queued(ApplyAll(m, ys)));
  }

  /** An entry replicated before `/create` reached this shard is read with the secret that `/create` brings. */
  lemma ReadableAfterCreate(lib: Lib, cfg: Config, s: State, r: Timed, c: Timed, d: Timed)
    requires r.op.Replicate? && c.op.Create? && d.op.Read? && r.op.id == c.op.id == d.op.id
    requires r.now <= c.now <= d.now && d.now - r.now < 1000 * cfg.ttlSeconds
    requires d.now <= c.now + 1000 * cfg.mailboxTtlSeconds && c.now <= r.now + 1000 * cfg.mailboxTtlSeconds
    requires lib.sha(d.op.secret) == c.op.hash
    requires r.op.id !in Visible(s, r.now).mailboxes
    ensures var (r1, s1) := Step(lib, cfg, s, r.op, r.now);
            var (r2, s2) := Step(lib, cfg, s1, c.op, c.now);
            var r3 := Step(lib, cfg, s2, d.op, d.now).0;
            r1.Replicated? && r2.Created? && r3 != Refused(429) ==>
              r1 == Replicated(false) && r2 == Created(false) && r3 == Messages([r.op.entry], !d.op.peek)
  {
    var (r1, s1) := Step(lib, cfg, s, r.op, r.now);
    var (r2, s2) := Step(lib, cfg, s1, c.op, c.now);
    var r3 := Step(lib, cfg, s2, d.op, d.now).0;
    var id := r.op.id;
    StepStores(lib, cfg, s, r.op, r.now);
    StepStores(lib, cfg, s1, c.op, c.now);
    if r1.Replicated? && r2.Created? {
      hide Step;
      var m1 := s1.mailboxes[id].value;
      assert m1.messages == [r.op.entry] && m1.enqueuedAt == Some(r.now);
      assert Visible(s1, c.now).mailboxes[id].value == m1;
      var m2 := s2.mailboxes[id].value;
      assert m2.messages == m1.messages && m2.enqueuedAt == m1.enqueuedAt && m2.readSecretHash == c.op.hash;
      assert Visible(s2, d.now).mailboxes[id].value == m2;
      FreshRead(lib, cfg, s2, d.op, d.now, m2, r.now);
    }
  }

  lemma FreshRead(lib: Lib, cfg: Config, s: State, op: Op, now: int, m: Mailbox, since: int)
    requires op.Read? && Lookup(Visible(s, now), op.id) == Some(m)
    requires m.readSecretHash == lib.sha(op.secret)
    requires m.enqueuedAt == Some(since) && now - since < 1000 * cfg.ttlSeconds
    ensures var reply := Step(lib, cfg, s, op, now).0;
            reply == Refused(429) || reply == Messages(m.messages, !op.peek)
  {
    assert (now - since) / 1000 < cfg.ttlSeconds;
    hide WindowOf, Visible;
  }

  // ---------- over runs of requests ----------

  function Final(lib: Lib, cfg: Config, s: State, ts: seq<Timed>): State
    decreases |ts|
  {
    if ts == [] then s else Final(lib, cfg, Step(lib, cfg, s, ts[0].op, ts[0].now).1, ts[1..])
  }

  /** A request that takes nothing out of mailbox `k` and adds nothing by `/send`: the record has not lapsed, nothing
      goes stale, nothing is consumed. Deliveries, creations, peeks, refused requests and any request to others are
      fine. */
  predicate Undisturbed(lib: Lib, cfg: Config, k: string, s: State, t: Timed) {
    var v, reply := Visible(s, t.now), Step(lib, cfg, s, t.op, t.now).0;
    && LapsedNow(s, k, t.now) == [] && StaleNow(cfg, v, k, t.op, reply, t.now) == []
    && ReturnedNow(k, t.op, reply) == [] && (t.op.id == k ==> !reply.Sent?)
  }

  predicate Quiet(lib: Lib, cfg: Config, k: string, s: State, ts: seq<Timed>)
    decreases |ts|
  {
    ts == [] || (Undisturbed(lib, cfg, k, s, ts[0])
                 && Quiet(lib, cfg, k, Step(lib, cfg, s, ts[0].op, ts[0].now).1, ts[1..]))
  }

  function EventNow(k: string, t: Timed, reply: Reply): seq<Event> {
    if t.op.id != k then []
    else match t.op
      case Replicate(_, e, _, _, _, _, urls) => if reply.Replicated? then [Deliver(e, urls, t.now)] else []
      case Create(_, hash, _, _, client, urls, _) => if reply.Created? then [Make(hash, client, urls, t.now)] else []
      case _ => []
  }

  /** The deliveries to mailbox `k` and its creations that a run accepted, repeated deliveries included. */
  function RunEvents(lib: Lib, cfg: Config, k: string, s: State, ts: seq<Timed>): seq<Event>
    decreases |ts|
  {
    if ts == [] then []
    else
      var (reply, s') := Step(lib, cfg, s, ts[0].op, ts[0].now);
      EventNow(k, ts[0], reply) + RunEvents(lib, cfg, k, s', ts[1..])
  }

  lemma StepIsEvent(lib: Lib, cfg: Config, k: string, s: State, t: Timed)
    requires Undisturbed(lib, cfg, k, s, t)
    ensures var (reply, s') := Step(lib, cfg, s, t.op, t.now);
            Lookup(s', k) == ApplyAll(Lookup(s, k), EventNow(k, t, reply))
  {
    StepStores(lib, cfg, s, t.op, t.now);
    StepIsApply(lib, cfg, s, t.op, t.now);
    VisibleRecord(s, k, t.now);
    hide Step, Visible, Holds, Apply, CreateRecord, DeliverRecord;
    var (reply, s') := Step(lib, cfg, s, t.op, t.now);
    assert Lookup(Visible(s, t.now), k) == Lookup(s, k);
    if EventNow(k, t, reply) != [] {
      var ev := EventNow(k, t, reply)[0];
      assert EventNow(k, t, reply) == [ev] && [ev][1..] == [];
      assert ApplyAll(Lookup(s, k), [ev]) == ApplyAll(Apply(Lookup(s, k), ev), []);
    }
  }

  lemma {:induction false} ApplyAllAppend(m: Option<Mailbox>, xs: seq<Event>, ys: seq<Event>)
    ensures ApplyAll(m, xs + ys) == ApplyAll(ApplyAll(m, xs), ys)
    decreases |xs|
  {
    if xs == [] {
      assert xs + ys == ys;
    } else {
      assert (xs + ys)[1..] == xs[1..] + ys;
      ApplyAllAppend(Apply(m, xs[0]), xs[1..], ys);
    }
  }

  /** Over a quiet run, among any requests to other mailboxes, the record is what its events make of it. */
  lemma {:induction false} RunIsApplyAll(lib: Lib, cfg: Config, k: string, s: State, ts: seq<Timed>)
    requires Quiet(lib, cfg, k, s, ts)
    ensures Lookup(Final(lib, cfg, s, ts), k) == ApplyAll(Lookup(s, k), RunEvents(lib, cfg, k, s, ts))
    decreases |ts|
  {
    hide Step, ApplyAll, Undisturbed, EventNow, Lookup;
    if ts != [] {
      var (reply, s') := Step(lib, cfg, s, ts[0].op, ts[0].now);
      StepIsEvent(lib, cfg, k, s, ts[0]);
      RunIsApplyAll(lib, cfg, k, s', ts[1..]);
      ApplyAllAppend(Lookup(s, k), EventNow(k, ts[0], reply), RunEvents(lib, cfg, k, s', ts[1..]));
    } else {
      ApplyNone(Lookup(s, k));
    }
  }

  lemma ApplyNone(m: Option<Mailbox>)
    ensures ApplyAll(m, []) == m
  {
  }

  /** Two shards whose records of a mailbox start alike, each over its own quiet run, end with the same entries, none of
      them twice, behind the same secret, if the same entries were delivered, in whatever order and number, and the
      creations carried one secret. */
  lemma RunsConverge(lib: Lib, cfg: Config, cfg': Config, k: string, s: State, s': State, ts: seq<Timed>,
                     ts': seq<Timed>, hash: string)
    requires Quiet(lib, cfg, k, s, ts) && Quiet(lib, cfg', k, s', ts') && Lookup(s, k) == Lookup(s', k)
    requires var xs, ys := RunEvents(lib, cfg, k, s, ts), RunEvents(lib, cfg', k, s', ts');
             && NoDuplicates(Queued(Lookup(s, k))) && IdsIdentify(AsSet(Queued(Lookup(s, k))) + Delivered(xs))
             && Delivered(xs) == Delivered(ys)
             && MakesCarry(xs, hash) && MakesCarry(ys, hash) && HasMake(xs) == HasMake(ys)
    ensures var a, b := Lookup(Final(lib, cfg, s, ts), k), Lookup(Final(lib, cfg', s', ts'), k);
            && AsSet(Queued(a)) == AsSet(Queued(b)) && |Queued(a)| == |Queued(b)|
            && NoDuplicates(Queued(a)) && NoDuplicates(Queued(b)) && Secret(a) == Secret(b)
  {
    hide *;
    RunIsApplyAll(lib, cfg, k, s, ts);
    RunIsApplyAll(lib, cfg', k, s', ts');
    ReplicasConverge(Lookup(s, k), RunEvents(lib, cfg, k, s, ts), RunEvents(lib, cfg', k, s', ts'), hash);
  }

  /** The enqueue time, once a backlog has one, is that of an event. */
  lemma {:induction false} EnqueuedByEvent(m: Option<Mailbox>, evs: seq<Event>)
    ensures var r := ApplyAll(m, evs);
            r.Some? && r.value.enqueuedAt.Some? ==>
              || (m.Some? && r.value.enqueuedAt == m.value.enqueuedAt)
              || exists i :: 0 <= i < |evs| && evs[i].Deliver? && r.value.enqueuedAt == Some(evs[i].now)
    decreases |evs|
  {
    hide Holds;
    if evs != [] {
      EnqueuedByEvent(Apply(m, evs[0]), evs[1..]);
      var r := ApplyAll(m, evs);
      var at := if r.Some? then r.value.enqueuedAt else None;
      if at.Some? && exists i :: 0 <= i < |evs| - 1 && evs[1..][i].Deliver? && at == Some(evs[1..][i].now) {
        var i :| 0 <= i < |evs| - 1 && evs[1..][i].Deliver? && at == Some(evs[1..][i].now);
        assert evs[i + 1] == evs[1..][i];
      }
    }
  }

  lemma {:induction false} ApplySomething(m: Option<Mailbox>, evs: seq<Event>)
    requires m.Some? || evs != []
    ensures ApplyAll(m, evs).Some?
    decreases |evs|
  {
    if evs != [] {
      ApplySomething(Apply(m, evs[0]), evs[1..]);
    }
  }

  /** Whatever was delivered over a quiet run, before or after the creation and among any other requests, is read with
      the secret that the creation brought: the read is rate-limited, or hands out exactly the delivered entries, once
      each. */
  lemma DeliveredIsReadable(lib: Lib, cfg: Config, k: string, s: State, ts: seq<Timed>, op: Op, now: int)
    requires k !in s.mailboxes && Quiet(lib, cfg, k, s, ts) && op.Read? && op.id == k
    requires var evs := RunEvents(lib, cfg, k, s, ts);
             && HasMake(evs) && MakesCarry(evs, lib.sha(op.secret)) && IdsIdentify(Delivered(evs))
             && forall i | 0 <= i < |evs| && evs[i].Deliver? :: now - evs[i].now < 1000 * cfg.ttlSeconds
    requires LapsedNow(Final(lib, cfg, s, ts), k, now) == []
    ensures var reply := Step(lib, cfg, Final(lib, cfg, s, ts), op, now).0;
            || reply == Refused(429)
            || (reply == Messages(Queued(ApplyAll(None, RunEvents(lib, cfg, k, s, ts))), !op.peek)
                && AsSet(reply.messages) == Delivered(RunEvents(lib, cfg, k, s, ts)) && NoDuplicates(reply.messages))
  {
    var evs, end := RunEvents(lib, cfg, k, s, ts), Final(lib, cfg, s, ts);
    hide RunEvents, Final, Quiet, Delivered, IdsIdentify, Step, Visible, ApplyAll, Apply;
    RunIsApplyAll(lib, cfg, k, s, ts);
    var m := ApplyAll(None, evs);
    assert AsSet([]) == {} && {} + Delivered(evs) == Delivered(evs);
    ApplyAllIs(None, evs);
    LastHashIs(evs, "", lib.sha(op.secret));
    EnqueuedByEvent(None, evs);
    ApplySomething(None, evs);
    VisibleRecord(end, k, now);
    FoundRead(lib, cfg, end, op, now, m.value);
  }

  lemma FoundRead(lib: Lib, cfg: Config, s: State, op: Op, now: int, m: Mailbox)
    requires op.Read? && Lookup(Visible(s, now), op.id) == Some(m) && m.readSecretHash == lib.sha(op.secret)
    requires m.enqueuedAt.Some? ==> now - m.enqueuedAt.value < 1000 * cfg.ttlSeconds
    ensures var reply := Step(lib, cfg, s, op, now).0;
            reply == Refused(429) || reply == Messages(m.messages, !op.peek)
  {
    if m.enqueuedAt.Some? {
      assert (now - m.enqueuedAt.value) / 1000 < cfg.ttlSeconds;
    }
    hide WindowOf, Visible;
  }
}
