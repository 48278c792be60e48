/** What any run of requests against one shard keeps: every accepted entry is in exactly one place, nothing over-age is
    read, the queue stays bounded, and the record invariant holds in every reachable state. */
module ShardRuns {
  import opened Bytes
  import opened KeyValue
  import opened Shard

  /** A request and the clock reading at which it is handled. */
  datatype Timed = Timed(op: Op, now: int)

  // ---------- one request and one record ----------

  /** The record a reply says was stored, if any. */
  function StoredBy(cfg: Config, before: Option<Mailbox>, op: Op, reply: Reply, now: int): Option<Mailbox> {
    match op
    case Create(_, hash, _, _, client, urls, _) =>
      if reply.Created? then Some(CreateRecord(before, hash, client, urls, now)) else None
    case Send(_, _, _, _, _) =>
      if reply.Sent? && before.Some? then Some(Enqueue(Refreshed(before.value, cfg, now), reply.entry, now)) else None
    case Replicate(_, e, _, _, _, _, urls) =>
      if reply == Replicated(false) then Some(DeliverRecord(before, e, urls, now).0) else None
    case Read(_, _, peek, _) =>
      if reply.Messages? && before.Some?
      then Some(if peek then Refreshed(before.value, cfg, now)
                else Refreshed(before.value, cfg, now).(messages := [], enqueuedAt := None))
      else None
    case Exists(_, _) => None
  }

  /** When a request gets which success reply, in terms of the record it found. */
  predicate ReplyFits(cfg: Config, before: Option<Mailbox>, op: Op, reply: Reply, now: int) {
    match reply
    case Refused(_) => true
    case Created(isNew) => op.Create? && isNew == before.None?
    case Sent(e, queued) =>
      && op.Send? && before.Some? && e == Entry(op.freshId, now, op.message, op.auth.pubkey)
      && |Refreshed(before.value, cfg, now).messages| < cfg.maxMessages
      && queued == |Refreshed(before.value, cfg, now).messages| + 1
    case Replicated(deduped) =>
      && op.Replicate? && (deduped <==> before.Some? && Holds(before.value, op.entry.id))
      && DeliverRecord(before, op.entry, op.urls, now).1 == deduped
    case Messages(ms, consumed) =>
      op.Read? && before.Some? && ms == Refreshed(before.value, cfg, now).messages && consumed == !op.peek
    case Found => op.Exists? && before.Some?
  }

  lemma ChecksKeepMailboxes(lib: Lib, cfg: Config, s: State, op: Op, now: int)
    requires op.Send?
    ensures SendChecks(lib, cfg, s, op, now).1.mailboxes == s.mailboxes
  {
    hide EnvelopeOk, WindowOf, ReplayTtl, Abs, SignedSend;
  }

  /** A request stores at most one record, under its own id, and only what its reply says. */
  lemma StepStores(lib: Lib, cfg: Config, s: State, op: Op, now: int)
    ensures var v := Visible(s, now);
            var (reply, s') := Step(lib, cfg, s, op, now);
            var stored := StoredBy(cfg, Lookup(v, op.id), op, reply, now);
            && ReplyFits(cfg, Lookup(v, op.id), op, reply, now)
            && s'.mailboxes == if stored.Some? then Put(v.mailboxes, op.id, stored.value, now, cfg.mailboxTtlSeconds)
                               else v.mailboxes
  {
    hide SendChecks, WindowOf, Purge, Abs, Refreshed, CreateRecord, Put;
    if op.Send? {
      ChecksKeepMailboxes(lib, cfg, Visible(s, now), op, now);
    }
  }

  function Held(s: State, k: string): seq<Entry> {
    if k in s.mailboxes then s.mailboxes[k].value.messages else []
  }

  // ---------- the ledger of one mailbox ----------

  /** The three ways in which queued entries leave: returned by one consuming read, dropped by a stale-backlog reset,
      or gone with an expired record. */
  datatype Batch = Returned(entries: seq<Entry>) | WentStale(entries: seq<Entry>) | Lapsed(entries: seq<Entry>)

  function Removed(batches: seq<Batch>): seq<Entry> {
    if batches == [] then [] else batches[0].entries + Removed(batches[1..])
  }

  lemma {:induction false} RemovedAppend(a: seq<Batch>, b: seq<Batch>)
    ensures Removed(a + b) == Removed(a) + Removed(b)
  {
    if a == [] {
      assert a + b == b;
    } else {
      assert (a + b)[1..] == a[1..] + b;
      RemovedAppend(a[1..], b);
    }
  }

  /** The history of mailbox `k`: entries accepted, batches removed, the local acceptance times of the entries held,
      and how many of those came by replication. */
  datatype Ledger = Ledger(state: State, clock: int, accepted: seq<Entry>, removed: seq<Batch>, times: seq<int>,
                           replicas: nat)

  /** A record of `k` that exists but has passed its expiry time. */
  function LapsedNow(s: State, k: string, now: int): seq<Batch> {
    if k in s.mailboxes && now > s.mailboxes[k].expiresAt then [Lapsed(s.mailboxes[k].value.messages)] else []
  }

  /** A backlog that the request found stale and reset for good. */
  function StaleNow(cfg: Config, v: State, k: string, op: Op, reply: Reply, now: int): seq<Batch> {
    if op.id == k && (reply.Sent? || reply.Messages?) && k in v.mailboxes
       && Stale(v.mailboxes[k].value.enqueuedAt, cfg.ttlSeconds, now)
    then [WentStale(v.mailboxes[k].value.messages)]
    else []
  }

  function ReturnedNow(k: string, op: Op, reply: Reply): seq<Batch> {
    if op.id == k && reply.Messages? && reply.consumed then [Returned(reply.messages)] else []
  }

  function AcceptedNow(k: string, op: Op, reply: Reply): seq<Entry> {
    if op.id != k then []
    else match reply
      case Sent(e, _) => [e]
      case Replicated(deduped) => if op.Replicate? && !deduped then [op.entry] else []
      case _ => []
  }

  function Advance(lib: Lib, cfg: Config, k: string, l: Ledger, t: Timed): Ledger {
    var v := Visible(l.state, t.now);
    var (reply, s') := Step(lib, cfg, l.state, t.op, t.now);
    var gone := LapsedNow(l.state, k, t.now) + StaleNow(cfg, v, k, t.op, reply, t.now) + ReturnedNow(k, t.op, reply);
    var came := AcceptedNow(k, t.op, reply);
    var byReplica := if came != [] && reply.Replicated? then 1 else 0;
    Ledger(s', t.now, l.accepted + came, l.removed + gone,
           (if gone == [] then l.times else []) + (if came == [] then [] else [t.now]),
           (if gone == [] then l.replicas else 0) + byReplica)
  }

  function Run(lib: Lib, cfg: Config, k: string, l: Ledger, ts: seq<Timed>): Ledger
    decreases |ts|
  {
    if ts == [] then l else Run(lib, cfg, k, Advance(lib, cfg, k, l, ts[0]), ts[1..])
  }

  // ---------- conservation ----------

  ghost predicate Balanced(start: seq<Entry>, k: string, l: Ledger) {
    start + l.accepted == Removed(l.removed) + Held(l.state, k)
  }

  lemma RemovedOne(b: Batch)
    ensures Removed([b]) == b.entries
  {
    assert Removed([b]) == b.entries + Removed([]);
  }

  /** How one request changes what mailbox `k` holds. */
  lemma StepBalance(lib: Lib, cfg: Config, k: string, s: State, op: Op, now: int)
    ensures var v := Visible(s, now);
            var (reply, s') := Step(lib, cfg, s, op, now);
            Held(v, k) + AcceptedNow(k, op, reply)
            == Removed(StaleNow(cfg, v, k, op, reply, now) + ReturnedNow(k, op, reply)) + Held(s', k)
  {
    hide Step, Visible, Stale, Holds, Removed;
    StepStores(lib, cfg, s, op, now);
    var v := Visible(s, now);
    var (reply, s') := Step(lib, cfg, s, op, now);
    var stale, returned := StaleNow(cfg, v, k, op, reply, now), ReturnedNow(k, op, reply);
    RemovedAppend(stale, returned);
    RemovedNone();
    RemovedOne(WentStale(Held(v, k)));
    if op.id != k {
      assert Held(s', k) == Held(v, k);
    } else {
      match op {
        case Create(_, _, _, _, _, _, _) =>
          assert Held(s', k) == Held(v, k);
        case Send(_, _, _, _, _) =>
          if reply.Sent? {
            assert Held(s', k) == Refreshed(v.mailboxes[k].value, cfg, now).messages + [reply.entry];
          }
        case Replicate(_, _, _, _, _, _, _) =>
          if reply == Replicated(false) {
            assert Held(s', k) == Held(v, k) + [op.entry];
          }
        case Read(_, _, _, _) =>
          if reply.Messages? {
            RemovedOne(Returned(reply.messages));
          }
        case Exists(_, _) =>
          assert Held(s', k) == Held(v, k);
      }
    }
  }

  lemma RemovedNone()
    ensures Removed([]) == []
  {
  }

  lemma LapseBalance(s: State, k: string, now: int)
    ensures Held(s, k) == Removed(LapsedNow(s, k, now)) + Held(Visible(s, now), k)
  {
    if LapsedNow(s, k, now) != [] {
      RemovedOne(Lapsed(Held(s, k)));
    }
  }

  lemma AdvanceBalanced(lib: Lib, cfg: Config, k: string, start: seq<Entry>, l: Ledger, t: Timed)
    requires Balanced(start, k, l)
    ensures Balanced(start, k, Advance(lib, cfg, k, l, t))
  {
    hide Step, Visible, Removed, Held, LapsedNow, StaleNow, ReturnedNow, AcceptedNow;
    var v := Visible(l.state, t.now);
    var (reply, s') := Step(lib, cfg, l.state, t.op, t.now);
    var lapsed := LapsedNow(l.state, k, t.now);
    var rest := StaleNow(cfg, v, k, t.op, reply, t.now) + ReturnedNow(k, t.op, reply);
    LapseBalance(l.state, k, t.now);
    StepBalance(lib, cfg, k, l.state, t.op, t.now);
    RemovedAppend(l.removed, lapsed + rest);
    RemovedAppend(lapsed, rest);
    assert lapsed + StaleNow(cfg, v, k, t.op, reply, t.now) + ReturnedNow(k, t.op, reply) == lapsed + rest;
    Regroup(start, l.accepted, AcceptedNow(k, t.op, reply), Removed(l.removed), Removed(lapsed), Held(v, k),
            Removed(rest), Held(s', k));
  }

  lemma Regroup<T>(start: seq<T>, accepted: seq<T>, came: seq<T>, removed: seq<T>, lapsed: seq<T>, visible: seq<T>,
                   rest: seq<T>, held: seq<T>)
    requires start + accepted == removed + (lapsed + visible)
    requires visible + came == rest + held
    ensures start + (accepted + came) == removed + (lapsed + rest) + held
  {
    Assoc(start, accepted, came);
    Assoc(removed, lapsed + visible, came);
    Assoc(lapsed, visible, came);
    Assoc(removed, lapsed, rest + held);
    Assoc(removed + lapsed, rest, held);
    Assoc(removed, lapsed, rest);
  }

  /** Conservation: over any run of requests, on this mailbox and on others, the entries held at the start followed by
      those accepted are, in order, those removed by consuming reads, stale resets and expiry followed by those still
      held. So each accepted entry is in exactly one place, and reads return acceptance order. */
  lemma {:induction false} RunConserves(lib: Lib, cfg: Config, k: string, start: seq<Entry>, l: Ledger, ts: seq<Timed>)
    requires Balanced(start, k, l)
    ensures Balanced(start, k, Run(lib, cfg, k, l, ts))
    decreases |ts|
  {
    hide Advance, Balanced;
    if ts != [] {
      AdvanceBalanced(lib, cfg, k, start, l, ts[0]);
      RunConserves(lib, cfg, k, start, Advance(lib, cfg, k, l, ts[0]), ts[1..]);
    }
  }

  // ---------- the record invariant ----------

  /** The enqueue time is null exactly when the queue is empty, and no entry was accepted before it; the clock has
      reached every acceptance time; and only replication lifts the queue over its limit. */
  ghost predicate Sound(cfg: Config, k: string, l: Ledger) {
    && |l.times| == |Held(l.state, k)|
    && (forall i | 0 <= i < |l.times| :: l.times[i] <= l.clock)
    && |l.times| <= (if cfg.maxMessages > 0 then cfg.maxMessages else 0) + l.replicas
    && (k in l.state.mailboxes ==> RecordSound(l.state.mailboxes[k].value, l.times))
  }

  ghost predicate RecordSound(m: Mailbox, times: seq<int>) {
    && (m.enqueuedAt == None <==> m.messages == [])
    && (m.enqueuedAt.Some? ==> forall i | 0 <= i < |times| :: m.enqueuedAt.value <= times[i])
  }

  lemma VisibleRecord(s: State, k: string, now: int)
    ensures var v := Visible(s, now).mailboxes;
            && (k in v <==> k in s.mailboxes && LapsedNow(s, k, now) == [])
            && (k in v ==> v[k] == s.mailboxes[k])
  {
  }

  lemma EnqueueSound(m: Mailbox, e: Entry, now: int, times: seq<int>)
    requires RecordSound(m, times) && |times| == |m.messages| && forall i | 0 <= i < |times| :: times[i] <= now
    ensures RecordSound(Enqueue(m, e, now), times + [now]) && |Enqueue(m, e, now).messages| == |times| + 1
  {
    var m' := Enqueue(m, e, now);
    assert |m'.messages| == |m.messages| + 1;
    assert m'.messages != [];
    if m.enqueuedAt == None {
      assert |m.messages| == 0 && times + [now] == [now];
    } else {
      assert |times| > 0 && times[0] <= now;
    }
  }

  /** A record that is sound stays sound, with its times, through anything a request can store. */
  lemma StoredSound(cfg: Config, before: Option<Mailbox>, op: Op, reply: Reply, now: int, times: seq<int>)
    requires ReplyFits(cfg, before, op, reply, now)
    requires match before
             case None => times == []
             case Some(m) => RecordSound(m, times) && |times| == |m.messages|
    requires forall i | 0 <= i < |times| :: times[i] <= now
    ensures var stored := StoredBy(cfg, before, op, reply, now);
            var stale := before.Some? && Stale(before.value.enqueuedAt, cfg.ttlSeconds, now)
                         && (reply.Sent? || reply.Messages?);
            var kept := if stale || (reply.Messages? && reply.consumed) then [] else times;
            var times' := kept + (if reply.Sent? || reply == Replicated(false) then [now] else []);
            && (stored.Some? ==> RecordSound(stored.value, times') && |times'| == |stored.value.messages|)
            && (stored.None? ==> times' == times)
            && (reply.Sent? ==> stored.Some? && |times'| <= cfg.maxMessages)
  {
    hide Stale, Holds;
    match op {
      case Create(_, _, _, _, _, _, _) =>
      case Send(_, _, _, _, _) =>
        if reply.Sent? {
          var m := Refreshed(before.value, cfg, now);
          EnqueueSound(m, reply.entry, now, if Stale(before.value.enqueuedAt, cfg.ttlSeconds, now) then [] else times);
        }
      case Replicate(_, e, _, _, _, _, urls) =>
        if reply == Replicated(false) {
          var m := match before case Some(m) => m case None => Mailbox("", None, [], now, None, urls);
          assert DeliverRecord(before, e, urls, now).0 == Enqueue(m, e, now);
          EnqueueSound(m, e, now, times);
        }
      case Read(_, _, _, _) =>
      case Exists(_, _) =>
    }
  }

  lemma AdvancedTimes(lib: Lib, cfg: Config, k: string, l: Ledger, t: Timed)
    requires t.op.id == k && |l.times| == |Held(l.state, k)|
    ensures var v := Visible(l.state, t.now);
            var reply := Step(lib, cfg, l.state, t.op, t.now).0;
            var before := Lookup(v, k);
            var times := if k in v.mailboxes then l.times else [];
            var stale := before.Some? && Stale(before.value.enqueuedAt, cfg.ttlSeconds, t.now)
                         && (reply.Sent? || reply.Messages?);
            var kept := if stale || (reply.Messages? && reply.consumed) then [] else times;
            Advance(lib, cfg, k, l, t).times
            == kept + (if reply.Sent? || reply == Replicated(false) then [t.now] else [])
  {
    hide Step, Visible, Stale, Holds;
    StepStores(lib, cfg, l.state, t.op, t.now);
    VisibleRecord(l.state, k, t.now);
  }

  lemma AdvanceSound(lib: Lib, cfg: Config, k: string, l: Ledger, t: Timed)
    requires Sound(cfg, k, l) && l.clock <= t.now
    ensures Sound(cfg, k, Advance(lib, cfg, k, l, t))
  {
    hide Step, Visible, Stale, Holds, Removed, RecordSound, StoredBy, Refreshed, DeliverRecord;
    var v := Visible(l.state, t.now);
    var (reply, s') := Step(lib, cfg, l.state, t.op, t.now);
    StepStores(lib, cfg, l.state, t.op, t.now);
    VisibleRecord(l.state, k, t.now);
    var times := if k in v.mailboxes then l.times else [];
    if t.op.id == k {
      StoredSound(cfg, Lookup(v, k), t.op, reply, t.now, times);
      AdvancedTimes(lib, cfg, k, l, t);
      var l' := Advance(lib, cfg, k, l, t);
      assert |l'.times| == |Held(s', k)|;
      assert k in s'.mailboxes ==> RecordSound(s'.mailboxes[k].value, l'.times);
      assert |l'.times| <= (if cfg.maxMessages > 0 then cfg.maxMessages else 0) + l'.replicas;
    } else {
      assert Held(s', k) == Held(v, k);
      assert StaleNow(cfg, v, k, t.op, reply, t.now) == [] && ReturnedNow(k, t.op, reply) == [];
      assert (k in s'.mailboxes) == (k in v.mailboxes);
      assert Advance(lib, cfg, k, l, t).times == times;
    }
  }

  /** The clock never goes back. */
  predicate Ordered(clock: int, ts: seq<Timed>)
    decreases |ts|
  {
    ts == [] || (clock <= ts[0].now && Ordered(ts[0].now, ts[1..]))
  }

  /** The record invariant holds after every run under a clock that never goes back. */
  lemma {:induction false} RunSound(lib: Lib, cfg: Config, k: string, l: Ledger, ts: seq<Timed>)
    requires Sound(cfg, k, l) && Ordered(l.clock, ts)
    ensures Sound(cfg, k, Run(lib, cfg, k, l, ts))
    decreases |ts|
  {
    hide Sound;
    if ts != [] {
      AdvanceSound(lib, cfg, k, l, ts[0]);
      hide Advance;
      assert Advance(lib, cfg, k, l, ts[0]).clock == ts[0].now by {
        AdvanceClock(lib, cfg, k, l, ts[0]);
      }
      RunSound(lib, cfg, k, Advance(lib, cfg, k, l, ts[0]), ts[1..]);
    }
  }

  lemma AdvanceClock(lib: Lib, cfg: Config, k: string, l: Ledger, t: Timed)
    ensures Advance(lib, cfg, k, l, t).clock == t.now
  {
    hide Step, LapsedNow, StaleNow, ReturnedNow, AcceptedNow;
  }

  function Fresh(): Ledger {
    Ledger(State(map[], map[], map[]), 0, [], [], [], 0)
  }

  /** In every state reachable from an empty shard, a read or a peek that is answered hands out the whole queue, and
      then every entry was accepted locally less than the backlog TTL ago, unless the queue is stale; a stale queue,
      whose oldest entry has reached the TTL, is answered with nothing. */
  lemma ReadsAreFresh(lib: Lib, cfg: Config, k: string, ts: seq<Timed>, op: Op, now: int)
    requires Ordered(0, ts) && op.Read? && op.id == k
    requires var l := Run(lib, cfg, k, Fresh(), ts); l.clock <= now
    ensures var l := Run(lib, cfg, k, Fresh(), ts);
            var reply := Step(lib, cfg, l.state, op, now).0;
            reply.Messages? ==>
              && k in l.state.mailboxes && now <= l.state.mailboxes[k].expiresAt
              && var since := l.state.mailboxes[k].value.enqueuedAt;
                 if Stale(since, cfg.ttlSeconds, now)
                 then reply.messages == [] && Held(l.state, k) != [] && now - since.value >= 1000 * cfg.ttlSeconds
                 else && reply.messages == Held(l.state, k) && |l.times| == |reply.messages|
                      && forall i | 0 <= i < |l.times| :: now - l.times[i] < 1000 * cfg.ttlSeconds
  {
    var l := Run(lib, cfg, k, Fresh(), ts);
    RunSound(lib, cfg, k, Fresh(), ts);
    var reply := Step(lib, cfg, l.state, op, now).0;
    StepStores(lib, cfg, l.state, op, now);
    VisibleRecord(l.state, k, now);
    hide Step, Visible, Run;
    if reply.Messages? {
      HandedOut(cfg, k, l, now);
    }
  }

  lemma HandedOut(cfg: Config, k: string, l: Ledger, now: int)
    requires Sound(cfg, k, l) && k in l.state.mailboxes
    ensures var m := l.state.mailboxes[k].value;
            if Stale(m.enqueuedAt, cfg.ttlSeconds, now)
            then m.messages != [] && now - m.enqueuedAt.value >= 1000 * cfg.ttlSeconds
            else |l.times| == |m.messages| && forall i | 0 <= i < |l.times| :: now - l.times[i] < 1000 * cfg.ttlSeconds
  {
    var m := l.state.mailboxes[k].value;
    if !Stale(m.enqueuedAt, cfg.ttlSeconds, now) && m.enqueuedAt.Some? {
      NotStaleAge(m.enqueuedAt.value, cfg.ttlSeconds, now);
    }
  }

  lemma NotStaleAge(at: int, ttlSeconds: int, now: int)
    requires (now - at) / 1000 < ttlSeconds
    ensures now - at < 1000 * ttlSeconds
  {
  }

  predicate NoReplicas(ts: seq<Timed>) {
    forall i | 0 <= i < |ts| :: !ts[i].op.Replicate?
  }

  lemma AdvanceReplicas(lib: Lib, cfg: Config, k: string, l: Ledger, t: Timed)
    requires !t.op.Replicate? && l.replicas == 0
    ensures Advance(lib, cfg, k, l, t).replicas == 0
  {
    StepStores(lib, cfg, l.state, t.op, t.now);
    hide Step, LapsedNow, StaleNow, ReturnedNow;
  }

  lemma {:induction false} RunReplicas(lib: Lib, cfg: Config, k: string, l: Ledger, ts: seq<Timed>)
    requires NoReplicas(ts) && l.replicas == 0
    ensures Run(lib, cfg, k, l, ts).replicas == 0
    decreases |ts|
  {
    hide Advance;
    if ts != [] {
      AdvanceReplicas(lib, cfg, k, l, ts[0]);
      RunReplicas(lib, cfg, k, Advance(lib, cfg, k, l, ts[0]), ts[1..]);
    }
  }

  /** Without replication no reachable queue exceeds the message limit; replication lifts it by at most the number of
      replicated entries held, which the invariant `Sound` says in general. */
  lemma QueueBounded(lib: Lib, cfg: Config, k: string, ts: seq<Timed>)
    requires Ordered(0, ts) && NoReplicas(ts) && cfg.maxMessages >= 0
    ensures |Held(Run(lib, cfg, k, Fresh(), ts).state, k)| <= cfg.maxMessages
  {
    RunSound(lib, cfg, k, Fresh(), ts);
    RunReplicas(lib, cfg, k, Fresh(), ts);
  }

  /** Whether `/replicate` takes an entry: signed by a known origin within the skew and the limit, and not queued yet.
      */
  predicate Takes(cfg: Config, v: State, op: Op, now: int) {
    && op.Replicate? && Abs(now - op.timestamp) <= 60_000
    && RateLimit(v, ReplicateOrigin(op.origin), cfg.maxReplicatesPerOrigin, now).0 && op.known && op.signed
    && (op.id in v.mailboxes ==> !Holds(v.mailboxes[op.id].value, op.entry.id))
  }

  /** When the message limit is passed: from a queue within the limit, one request leaves more than the limit queued
      if and only if it is a replication that is taken by a mailbox exactly at the limit. */
  lemma ExceedsExactly(lib: Lib, cfg: Config, k: string, s: State, op: Op, now: int)
    requires |Held(Visible(s, now), k)| <= cfg.maxMessages
    ensures var v := Visible(s, now);
            |Held(Step(lib, cfg, s, op, now).1, k)| > cfg.maxMessages
            <==> op.id == k && Takes(cfg, v, op, now) && |Held(v, k)| == cfg.maxMessages
  {
    TakenIsReplicated(lib, cfg, s, op, now);
    StepStores(lib, cfg, s, op, now);
    hide Step, Visible, Takes;
  }

  lemma TakenIsReplicated(lib: Lib, cfg: Config, s: State, op: Op, now: int)
    ensures Takes(cfg, Visible(s, now), op, now) <==> op.Replicate? && Step(lib, cfg, s, op, now).0 == Replicated(false)
  {
    hide SendChecks, Visible, Abs, WindowOf;
    LimitKeepsMailboxes(Visible(s, now), ReplicateOrigin(if op.Replicate? then op.origin else ""),
                        cfg.maxReplicatesPerOrigin, now);
    hide RateLimit;
  }

  lemma LimitKeepsMailboxes(s: State, b: Bucket, limit: int, now: int)
    ensures RateLimit(s, b, limit, now).1.mailboxes == s.mailboxes
  {
  }

  /** Two replications to a shard whose limit is one leave two messages queued. */
  lemma ReplicationExceeds(lib: Lib, cfg: Config)
    requires cfg.maxMessages == 1 && cfg.maxReplicatesPerOrigin >= 2 && cfg.mailboxTtlSeconds >= 1
    ensures var e1, e2 := Entry("1", 0, "x", "p"), Entry("2", 0, "y", "p");
            var ts := [Timed(Replicate("m", e1, "o", 0, true, true, []), 0),
                       Timed(Replicate("m", e2, "o", 0, true, true, []), 0)];
            Held(Run(lib, cfg, "m", Fresh(), ts).state, "m") == [e1, e2]
  {
    var e1, e2 := Entry("1", 0, "x", "p"), Entry("2", 0, "y", "p");
    var a := Timed(Replicate("m", e1, "o", 0, true, true, []), 0);
    var b := Timed(Replicate("m", e2, "o", 0, true, true, []), 0);
    var l1 := Advance(lib, cfg, "m", Fresh(), a);
    var l2 := Advance(lib, cfg, "m", l1, b);
    assert [a, b][1..] == [b] && [b][1..] == [];
    assert Run(lib, cfg, "m", Fresh(), [a, b]) == Run(lib, cfg, "m", l1, [b]) == Run(lib, cfg, "m", l2, []);
    FirstReplica(lib, cfg, a.op, e1);
    SecondReplica(lib, cfg, l1.state, b.op, e1, e2);
  }

  lemma FirstReplica(lib: Lib, cfg: Config, op: Op, e: Entry)
    requires cfg.maxReplicatesPerOrigin >= 1 && op == Replicate("m", e, "o", 0, true, true, [])
    ensures var s := Step(lib, cfg, Fresh().state, op, 0).1;
            && s.mailboxes == map["m" := Kept(Mailbox("", None, [e], 0, Some(0), []), 1000 * cfg.mailboxTtlSeconds)]
            && s.counters == map[(ReplicateOrigin("o"), 0) := Kept(1, 65_000)]
  {
    assert WindowOf(0) == 0;
    hide WindowOf;
    var v := Visible(Fresh().state, 0);
    assert v.mailboxes == map[] && v.counters == map[];
    var s := Step(lib, cfg, Fresh().state, op, 0).1;
    assert s.counters == v.counters[(ReplicateOrigin("o"), 0) := Kept(1, 65_000)];
    var m := Mailbox("", None, [] + [e], 0, Some(0), []);
    assert [] + [e] == [e];
    assert s.mailboxes == v.mailboxes["m" := Kept(m, 1000 * cfg.mailboxTtlSeconds)];
  }

  lemma SecondReplica(lib: Lib, cfg: Config, s: State, op: Op, e1: Entry, e2: Entry)
    requires cfg.maxReplicatesPerOrigin >= 2 && op == Replicate("m", e2, "o", 0, true, true, []) && e1.id != e2.id
    requires cfg.mailboxTtlSeconds >= 1
    requires s.mailboxes == map["m" := Kept(Mailbox("", None, [e1], 0, Some(0), []), 1000 * cfg.mailboxTtlSeconds)]
    requires s.counters == map[(ReplicateOrigin("o"), 0) := Kept(1, 65_000)]
    ensures Held(Step(lib, cfg, s, op, 0).1, "m") == [e1, e2]
  {
    assert WindowOf(0) == 0;
    hide WindowOf;
    var v := Visible(s, 0);
    assert "m" in v.mailboxes && v.mailboxes["m"] == s.mailboxes["m"];
    assert Takes(cfg, v, op, 0);
    TakenIsReplicated(lib, cfg, s, op, 0);
    StepStores(lib, cfg, s, op, 0);
    hide Step, Visible;
  }

  /** Only the secret behind the stored hash opens a mailbox, and a refused read leaves every mailbox alone; a peek
      takes nothing out. */
  lemma ReadNeedsSecret(lib: Lib, cfg: Config, s: State, op: Op, now: int)
    requires op.Read?
    ensures var v := Visible(s, now);
            var (reply, s') := Step(lib, cfg, s, op, now);
            && (reply.Messages? ==>
                  op.id in v.mailboxes && lib.sha(op.secret) == v.mailboxes[op.id].value.readSecretHash)
            && (!reply.Messages? ==> s'.mailboxes == v.mailboxes)
            && (reply.Messages? && op.peek ==> Held(s', op.id) == reply.messages)
            && (reply.Messages? && !op.peek ==> Held(s', op.id) == [])
  {
    StepStores(lib, cfg, s, op, now);
    hide Visible, WindowOf;
  }

  /** Creating a mailbox again keeps every queued message and the enqueue time; only the secret, the client key and the
      replica list are refreshed. */
  lemma RecreateKeepsMail(lib: Lib, cfg: Config, s: State, op: Op, now: int)
    requires op.Create?
    ensures var v := Visible(s, now);
            var (reply, s') := Step(lib, cfg, s, op, now);
            && (reply.Created? ==> op.id in s'.mailboxes && s'.mailboxes[op.id].value.readSecretHash == op.hash)
            && (reply.Created? && !reply.isNew ==>
                  op.id in v.mailboxes && Held(s', op.id) == Held(v, op.id)
                  && s'.mailboxes[op.id].value.enqueuedAt == v.mailboxes[op.id].value.enqueuedAt)
  {
    StepStores(lib, cfg, s, op, now);
    hide Step, Visible;
  }
}
