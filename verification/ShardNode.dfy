/** The worker's handlers as they run: they read a record, change it in place and put it back. Each method is tied to
    the specification function of the same request. */
module ShardNode {
  import opened Bytes
  import opened KeyValue
  import opened Shard

  class Node {
    const lib: Lib
    const cfg: Config
    var mailboxes: map<string, Kept<Mailbox>>
    var replay: map<Auth, Kept<bool>>
    var counters: map<(Bucket, int), Kept<int>>

    constructor (lib: Lib, cfg: Config)
      ensures this.lib == lib && this.cfg == cfg && Store() == State(map[], map[], map[])
    {
      this.lib, this.cfg := lib, cfg;
      mailboxes, replay, counters := map[], map[], map[];
    }

    function Store(): State
      reads this
    {
      State(mailboxes, replay, counters)
    }

    method Limit(bucket: Bucket, limit: int, now: int) returns (ok: bool)
      modifies this
      ensures (ok, Store()) == RateLimit(old(Store()), bucket, limit, now)
    {
      var key := (bucket, WindowOf(now));
      var current := 0;
      if key in counters {
        current := counters[key].value;
      }
      if current >= limit {
        return false;
      }
      counters := Put(counters, key, current + 1, now, WINDOW + 5);
      return true;
    }

    method VerifySender(auth: Auth, signedMessage: string, now: int) returns (ok: bool)
      modifies this
      ensures (ok, Store()) == SenderAuth(lib, cfg.maxClockSkew, old(Store()), auth, signedMessage, now)
    {
      if Abs(now - lib.number(auth.timestamp)) > cfg.maxClockSkew {
        return false;
      }
      if auth in replay {
        return false;
      }
      if !lib.verify(auth.pubkey, signedMessage, auth.signature) {
        return false;
      }
      replay := Put(replay, auth, true, now, ReplayTtl(cfg.maxClockSkew));
      return true;
    }

    method Save(id: string, stored: Mailbox, now: int)
      modifies this
      ensures Store() == Shard.Save(cfg, old(Store()), id, stored, now)
    {
      mailboxes := Put(mailboxes, id, stored, now, cfg.mailboxTtlSeconds);
    }

    method OnCreate(op: Op, now: int) returns (reply: Reply)
      requires op.Create?
      modifies this
      ensures (reply, Store()) == HandleCreate(cfg, old(Store()), op, now)
    {
      if now > op.capExp || !op.capSigned {
        return Refused(401);
      }
      var ok := Limit(CreateIp(op.ip), cfg.maxCreatesPerIp, now);
      if !ok {
        return Refused(429);
      }
      if op.id in mailboxes {
        var stored := mailboxes[op.id].value;
        stored := stored.(readSecretHash := op.hash);
        if op.client.Some? {
          stored := stored.(clientPubkey := op.client);
        }
        if op.urls != [] {
          stored := stored.(replicas := op.urls);
        }
        Save(op.id, stored, now);
        return Created(false);
      }
      Save(op.id, Mailbox(op.hash, op.client, [], now, None, op.urls), now);
      return Created(true);
    }

    method Checks(op: Op, now: int) returns (error: Option<nat>)
      requires op.Send?
      modifies this
      ensures (error, Store()) == SendChecks(lib, cfg, old(Store()), op, now)
    {
      if op.message == "" || lib.utf8Length(op.message) > cfg.maxMsgBytes {
        return Some(400);
      }
      var ok := VerifySender(op.auth, SignedSend(lib, op), now);
      if !ok {
        return Some(401);
      }
      ok := Limit(SendSender(op.auth.pubkey), cfg.maxSendsPerSender, now);
      if !ok {
        return Some(429);
      }
      ok := Limit(SendTarget(op.id), cfg.maxSendsPerTarget, now);
      if !ok {
        return Some(429);
      }
      ok := Limit(SendIp(op.ip), cfg.maxSendsPerIp, now);
      if !ok {
        return Some(429);
      }
      if !EnvelopeOk(lib, op.message) {
        return Some(400);
      }
      return None;
    }

    method OnSend(op: Op, now: int) returns (reply: Reply)
      requires op.Send?
      modifies this
      ensures (reply, Store()) == HandleSend(lib, cfg, old(Store()), op, now)
    {
      var error := Checks(op, now);
      if error.Some? {
        return Refused(error.value);
      }
      if op.id !in mailboxes {
        return Refused(404);
      }
      var stored := mailboxes[op.id].value;
      if Stale(stored.enqueuedAt, cfg.ttlSeconds, now) {
        stored := stored.(messages := [], enqueuedAt := None);
      }
      if |stored.messages| >= cfg.maxMessages {
        return Refused(429);
      }
      var entry := Entry(op.freshId, now, op.message, op.auth.pubkey);
      stored := stored.(messages := stored.messages + [entry]);
      if stored.enqueuedAt == None {
        stored := stored.(enqueuedAt := Some(now));
      }
      Save(op.id, stored, now);
      return Sent(entry, |stored.messages|);
    }

    method OnReplicate(op: Op, now: int) returns (reply: Reply)
      requires op.Replicate?
      modifies this
      ensures (reply, Store()) == HandleReplicate(cfg, old(Store()), op, now)
    {
      if Abs(now - op.timestamp) > 60_000 {
        return Refused(401);
      }
      var ok := Limit(ReplicateOrigin(op.origin), cfg.maxReplicatesPerOrigin, now);
      if !ok {
        return Refused(429);
      }
      if !op.known || !op.signed {
        return Refused(401);
      }
      var stored := Mailbox("", None, [], now, None, op.urls);
      if op.id in mailboxes {
        stored := mailboxes[op.id].value;
      }
      for i := 0 to |stored.messages|
        invariant forall k | 0 <= k < i :: stored.messages[k].id != op.entry.id
      {
        if stored.messages[i].id == op.entry.id {
          return Replicated(true);
        }
      }
      stored := stored.(messages := stored.messages + [op.entry]);
      if stored.enqueuedAt == None {
        stored := stored.(enqueuedAt := Some(now));
      }
      Save(op.id, stored, now);
      return Replicated(false);
    }

    method OnRead(op: Op, now: int) returns (reply: Reply)
      requires op.Read?
      modifies this
      ensures (reply, Store()) == HandleRead(lib, cfg, old(Store()), op, now)
    {
      var ok := Limit(ReadIp(op.ip), 300, now);
      if !ok {
        return Refused(429);
      }
      if op.id !in mailboxes {
        return Refused(404);
      }
      var stored := mailboxes[op.id].value;
      if lib.sha(op.secret) != stored.readSecretHash {
        return Refused(401);
      }
      if Stale(stored.enqueuedAt, cfg.ttlSeconds, now) {
        stored := stored.(messages := [], enqueuedAt := None);
      }
      var messagesToReturn := stored.messages;
      if !op.peek {
        stored := stored.(messages := [], enqueuedAt := None);
      }
      Save(op.id, stored, now);
      return Messages(messagesToReturn, !op.peek);
    }

    method OnExists(op: Op, now: int) returns (reply: Reply)
      requires op.Exists?
      modifies this
      ensures (reply, Store()) == HandleExists(old(Store()), op, now)
    {
      var ok := Limit(ExistsIp(op.ip), 300, now);
      if !ok {
        return Refused(429);
      }
      return if op.id in mailboxes then Found else Refused(404);
    }

    /** One request at a clock reading; the store has dropped what expired before it. */
    method Request(op: Op, now: int) returns (reply: Reply)
      modifies this
      ensures (reply, Store()) == Step(lib, cfg, old(Store()), op, now)
    {
      hide HandleCreate, HandleSend, HandleReplicate, HandleRead, HandleExists;
      mailboxes, replay, counters := Purge(mailboxes, now), Purge(replay, now), Purge(counters, now);
      match op {
        case Create(_, _, _, _, _, _, _) => reply := OnCreate(op, now);
        case Send(_, _, _, _, _) => reply := OnSend(op, now);
        case Replicate(_, _, _, _, _, _, _) => reply := OnReplicate(op, now);
        case Read(_, _, _, _) => reply := OnRead(op, now);
        case Exists(_, _) => reply := OnExists(op, now);
      }
    }
  }
}
